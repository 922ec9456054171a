/** The three checks as division: data and check together are a multiple of the generator polynomial. */
module Polynomials {
  import opened Bits
  import opened Fec
  import opened HeaderCheck
  import opened PayloadCheck

  // ---------- polynomials, sent highest degree first ----------

  // Coefficient i of what is sent, and none outside.
  ghost function C(q: seq<bool>, i: int): bool
  {
    0 <= i < |q| && q[i]
  }

  // Coefficient i of the product of q and the first m coefficients of g.
  ghost function Product(g: seq<bool>, q: seq<bool>, i: int, m: nat): bool
    requires m <= |g|
  {
    m > 0 && Product(g, q, i, m - 1) != (g[m - 1] && C(q, i - (m - 1)))
  }

  lemma {:induction false} ProductAppend(g: seq<bool>, q: seq<bool>, b: bool, i: int, m: nat)
    requires m <= |g|
    ensures Product(g, q + [b], i, m) == (Product(g, q, i, m) != (0 <= i - |q| < m && g[i - |q|] && b))
  {
    if m > 0 {
      ProductAppend(g, q, b, i, m - 1);
    }
  }

  lemma {:induction false} ProductBeyond(g: seq<bool>, q: seq<bool>, i: int, m: nat)
    requires m <= |g| && i >= |q| + m - 1
    ensures m > 0 || i >= |q| ==> !Product(g, q, i, m)
  {
    if m > 0 {
      ProductBeyond(g, q, i, m - 1);
    }
  }

  // ---------- the shift register of a generator ----------

  ghost predicate Generator(g: seq<bool>)
  {
    |g| > 1 && g[0] && g[|g| - 1]
  }

  // Shifts to the right; the low bit plus the data bit is fed back where the generator says.
  ghost function Step(g: seq<bool>, reg: seq<bool>, bit: bool): (next: seq<bool>)
    requires Generator(g) && |reg| == |g| - 1
    ensures |next| == |reg|
  {
    seq(|reg|, j requires 0 <= j < |reg| => (j + 1 < |reg| && reg[j + 1]) != (g[j + 1] && (reg[0] != bit)))
  }

  ghost function Run(g: seq<bool>, reg: seq<bool>, bits: seq<bool>): (next: seq<bool>)
    requires Generator(g) && |reg| == |g| - 1
    ensures |next| == |reg|
  {
    if bits == [] then reg else Step(g, Run(g, reg, bits[..|bits| - 1]), bits[|bits| - 1])
  }

  lemma RunNext(g: seq<bool>, reg: seq<bool>, bits: seq<bool>, b: bool)
    requires Generator(g) && |reg| == |g| - 1
    ensures Run(g, reg, bits + [b]) == Step(g, Run(g, reg, bits), b)
  {
    assert (bits + [b])[..|bits|] == bits;
  }

  // The bits fed back.
  ghost function Quotient(g: seq<bool>, bits: seq<bool>): (q: seq<bool>)
    requires Generator(g)
    ensures |q| == |bits|
  {
    if bits == [] then []
    else
      var n := |bits| - 1;
      Quotient(g, bits[..n]) + [Run(g, Zeros(|g| - 1), bits[..n])[0] != bits[n]]
  }

  // Data and register are the product of the generator with what was fed back.
  ghost predicate IsProduct(g: seq<bool>, q: seq<bool>, word: seq<bool>)
  {
    forall i :: 0 <= i < |word| ==> word[i] == Product(g, q, i, |g|)
  }

  lemma {:induction false} RegisterIsProduct(g: seq<bool>, bits: seq<bool>)
    requires Generator(g)
    ensures IsProduct(g, Quotient(g, bits), bits + Run(g, Zeros(|g| - 1), bits))
    decreases |bits|
  {
    var d, n, q := |g| - 1, |bits|, Quotient(g, bits);
    if bits == [] {
      forall i | 0 <= i < d
        ensures !Product(g, [], i, |g|)
      {
        NoProduct(g, i, |g|);
      }
    } else {
      var init, last := bits[..n - 1], bits[n - 1];
      var q0, reg0, reg := Quotient(g, init), Run(g, Zeros(d), init), Run(g, Zeros(d), bits);
      RegisterIsProduct(g, init);
      var word0, word := init + reg0, bits + reg;
      var fed := reg0[0] != last;
      assert q == q0 + [fed];
      forall i | 0 <= i < |word|
        ensures word[i] == Product(g, q, i, |g|)
      {
        ProductAppend(g, q0, fed, i, |g|);
        if i < |word0| {
          assert word0[i] == Product(g, q0, i, |g|);
        } else {
          ProductBeyond(g, q0, i, |g|);
        }
      }
    }
  }

  lemma {:induction false} NoProduct(g: seq<bool>, i: int, m: nat)
    requires m <= |g|
    ensures !Product(g, [], i, m)
  {
    if m > 0 {
      NoProduct(g, i, m - 1);
    }
  }

  // A quotient is determined by as many coefficients of the product.
  lemma {:induction false} QuotientIsOnly(g: seq<bool>, q: seq<bool>, bits: seq<bool>)
    requires Generator(g) && |q| == |bits| && IsProduct(g, q, bits)
    ensures q == Quotient(g, bits)
    decreases |bits|
  {
    if bits != [] {
      var n := |bits| - 1;
      var init, q0 := bits[..n], q[..n];
      assert q == q0 + [q[n]];
      forall i | 0 <= i < n
        ensures init[i] == Product(g, q0, i, |g|)
      {
        ProductAppend(g, q0, q[n], i, |g|);
      }
      QuotientIsOnly(g, q0, init);
      RegisterIsProduct(g, init);
      var reg0 := Run(g, Zeros(|g| - 1), init);
      assert (init + reg0)[n] == reg0[0] == Product(g, q0, n, |g|);
      ProductAppend(g, q0, q[n], n, |g|);
    }
  }

  // The register ends with a check exactly when data and check are a multiple of the generator.
  lemma CheckIsDivision(g: seq<bool>, data: seq<bool>, check: seq<bool>)
    requires Generator(g) && |check| == |g| - 1
    ensures Run(g, Zeros(|g| - 1), data) == check <==> exists q: seq<bool> :: |q| == |data| && IsProduct(g, q, data + check)
  {
    hide Run, Product, Quotient;
    var reg := Run(g, Zeros(|g| - 1), data);
    RegisterIsProduct(g, data);
    if q: seq<bool> :| |q| == |data| && IsProduct(g, q, data + check) {
      assert forall i :: 0 <= i < |data| ==> data[i] == (data + check)[i];
      QuotientIsOnly(g, q, data);
      forall j | 0 <= j < |check|
        ensures check[j] == reg[j]
      {
        assert (data + check)[|data| + j] == check[j] && (data + reg)[|data| + j] == reg[j];
      }
      assert check == reg;
    }
  }

  // ---------- a register that does not start empty ----------

  lemma StepLinear(g: seq<bool>, r: seq<bool>, s: seq<bool>, a: bool, b: bool)
    requires Generator(g) && |r| == |s| == |g| - 1
    ensures Step(g, XorBits(r, s), a != b) == XorBits(Step(g, r, a), Step(g, s, b))
  {
  }

  lemma {:induction false} RunLinear(g: seq<bool>, r: seq<bool>, s: seq<bool>, a: seq<bool>, b: seq<bool>)
    requires Generator(g) && |r| == |s| == |g| - 1 && |a| == |b|
    ensures Run(g, XorBits(r, s), XorBits(a, b)) == XorBits(Run(g, r, a), Run(g, s, b))
    decreases |a|
  {
    hide Step;
    if a != [] {
      var n := |a| - 1;
      RunLinear(g, r, s, a[..n], b[..n]);
      StepLinear(g, Run(g, r, a[..n]), Run(g, s, b[..n]), a[n], b[n]);
      assert XorBits(a, b)[..n] == XorBits(a[..n], b[..n]);
    }
  }

  lemma StepShifts(g: seq<bool>, reg: seq<bool>)
    requires Generator(g) && |reg| == |g| - 1
    ensures Step(g, reg, reg[0]) == reg[1..] + [false]
  {
  }

  // Reading its own content empties the register, bit by bit.
  lemma {:induction false} RunEmpties(g: seq<bool>, reg: seq<bool>, n: nat)
    requires Generator(g) && |reg| == |g| - 1 && n <= |reg|
    ensures Run(g, reg, reg[..n]) == reg[n..] + Zeros(n)
  {
    hide Step;
    if n == 0 {
      assert reg[..0] == [] && reg[0..] + Zeros(0) == reg;
    } else {
      RunEmpties(g, reg, n - 1);
      assert reg[..n] == reg[..n - 1] + [reg[n - 1]];
      RunNext(g, reg, reg[..n - 1], reg[n - 1]);
      var before := reg[n - 1..] + Zeros(n - 1);
      StepShifts(g, before);
      assert before[0] == reg[n - 1] && before[1..] + [false] == reg[n..] + Zeros(n);
    }
  }

  lemma {:induction false} ZerosStay(g: seq<bool>, n: nat)
    requires Generator(g)
    ensures Run(g, Zeros(|g| - 1), Zeros(n)) == Zeros(|g| - 1)
  {
    if n > 0 {
      ZerosStay(g, n - 1);
      assert Zeros(n) == Zeros(n - 1) + [false];
      RunNext(g, Zeros(|g| - 1), Zeros(n - 1), false);
    }
  }

  lemma {:induction false} RunAppend(g: seq<bool>, reg: seq<bool>, a: seq<bool>, b: seq<bool>)
    requires Generator(g) && |reg| == |g| - 1
    ensures Run(g, reg, a + b) == Run(g, Run(g, reg, a), b)
    decreases |b|
  {
    if b == [] {
      assert a + b == a;
    } else {
      var n := |b| - 1;
      RunAppend(g, reg, a, b[..n]);
      assert (a + b)[..|a| + n] == a + b[..n];
    }
  }

  // What the register starts with may as well be added to the first bits.
  lemma StartIsAdded(g: seq<bool>, reg: seq<bool>, bits: seq<bool>)
    requires Generator(g) && |reg| == |g| - 1 <= |bits|
    ensures Run(g, reg, bits) == Run(g, Zeros(|reg|), XorBits(bits, reg + Zeros(|bits| - |reg|)))
  {
    hide Run;
    var d, rest := |reg|, Zeros(|bits| - |reg|);
    RunEmpties(g, reg, d);
    assert reg[..d] == reg && reg[d..] + Zeros(d) == Zeros(d);
    ZerosStay(g, |rest|);
    RunAppend(g, reg, reg, rest);
    RunLinear(g, reg, reg, bits, reg + rest);
    assert XorBits(reg, reg) == Zeros(d);
    assert XorBits(Run(g, reg, bits), Zeros(d)) == Run(g, reg, bits);
  }

  lemma StepInjective(g: seq<bool>, r: seq<bool>, s: seq<bool>)
    requires Generator(g) && |r| == |s| == |g| - 1 && Step(g, r, false) == Step(g, s, false)
    ensures r == s
  {
    var d, x, y := |r|, Step(g, r, false), Step(g, s, false);
    assert x[d - 1] == r[0] && y[d - 1] == s[0];
    forall i | 1 <= i < d
      ensures r[i] == s[i]
    {
      assert x[i - 1] == y[i - 1];
    }
  }

  lemma {:induction false} OnlyEmptyStays(g: seq<bool>, reg: seq<bool>, n: nat)
    requires Generator(g) && |reg| == |g| - 1 && Run(g, reg, Zeros(n)) == Zeros(|reg|)
    ensures reg == Zeros(|reg|)
  {
    if n > 0 {
      var before := Run(g, reg, Zeros(n - 1));
      assert Zeros(n) == Zeros(n - 1) + [false];
      RunNext(g, reg, Zeros(n - 1), false);
      assert Step(g, Zeros(|reg|), false) == Zeros(|reg|);
      StepInjective(g, before, Zeros(|reg|));
      OnlyEmptyStays(g, reg, n - 1);
    }
  }

  // A check empties a register exactly when the register holds that check.
  lemma OnlyOwnCheckEmpties(g: seq<bool>, reg: seq<bool>, check: seq<bool>)
    requires Generator(g) && |reg| == |check| == |g| - 1
    ensures Run(g, reg, check) == Zeros(|reg|) <==> reg == check
  {
    hide Run;
    var d := |reg|;
    RunEmpties(g, check, d);
    assert check[..d] == check && check[d..] + Zeros(d) == Zeros(d);
    var difference := XorBits(reg, check);
    RunLinear(g, difference, check, Zeros(d), check);
    assert XorBits(difference, check) == reg && XorBits(Zeros(d), check) == check;
    var left := Run(g, difference, Zeros(d));
    assert XorBits(left, Zeros(d)) == left;
    XorZero(reg, check);
    if left == Zeros(d) {
      OnlyEmptyStays(g, difference, d);
    }
    if reg == check {
      ZerosStay(g, d);
    }
  }

  // The same with a register that does not start empty.
  lemma SeededCheckIsDivision(g: seq<bool>, seed: seq<bool>, data: seq<bool>, check: seq<bool>)
    requires Generator(g) && |seed| == |check| == |g| - 1
    ensures Run(g, seed, data) == check
            <==> exists q: seq<bool> :: |q| == |data| && IsProduct(g, q, XorBits(data + check, seed + Zeros(|data|)))
  {
    hide Run, IsProduct;
    var d := |seed|;
    var added := XorBits(data + check, seed + Zeros(|data|));
    var (data', check') := (added[..|data|], added[|data|..]);
    assert added == data' + check';
    RunAppend(g, seed, data, check);
    OnlyOwnCheckEmpties(g, Run(g, seed, data), check);
    StartIsAdded(g, seed, data + check);
    RunAppend(g, Zeros(d), data', check');
    OnlyOwnCheckEmpties(g, Run(g, Zeros(d), data'), check');
    CheckIsDivision(g, data', check');
  }

  lemma {:induction false} Skip(g: seq<bool>, q: seq<bool>, i: int, from: nat, m: nat)
    requires from <= m <= |g| && forall k :: from <= k < m ==> !g[k]
    ensures Product(g, q, i, m) == Product(g, q, i, from)
  {
    if from < m {
      Skip(g, q, i, from, m - 1);
    }
  }

  // ---------- the payload check: D^16 + D^12 + D^5 + 1 ----------

  // Coefficient i of the product of q and the generator.
  ghost function Times16(q: seq<bool>, i: int): bool
  {
    (C(q, i) != C(q, i - 4)) != (C(q, i - 11) != C(q, i - 16))
  }

  ghost function G16(): (g: seq<bool>)
    ensures Generator(g) && |g| == 17
  {
    seq(17, i => i == 0 || i == 4 || i == 11 || i == 16)
  }

  lemma Product16(q: seq<bool>, i: int)
    ensures Product(G16(), q, i, 17) == Times16(q, i)
  {
    var g := G16();
    assert Product(g, q, i, 1) == C(q, i);
    Skip(g, q, i, 1, 4);
    Skip(g, q, i, 5, 11);
    Skip(g, q, i, 12, 16);
  }

  lemma {:induction false} CrcIsRun(reg: seq<bool>, bits: seq<bool>)
    requires |reg| == 16
    ensures CrcRun(reg, bits) == Run(G16(), reg, bits)
    decreases |bits|
  {
    if bits != [] {
      var n := |bits| - 1;
      CrcIsRun(reg, bits[..n]);
      CrcRunAppend(reg, bits[..n], [bits[n]]);
      assert bits == bits[..n] + [bits[n]];
      var before := CrcRun(reg, bits[..n]);
      assert CrcStep(before, bits[n]) == Step(G16(), before, bits[n]);
      assert [bits[n]][1..] == [];
    }
  }

  // A payload passes for a UAP exactly when, with the UAP added to its symbols 8 to 15, most significant
  // bit first, it is a multiple of the generator polynomial.
  lemma CrcPassesExactly(word: seq<bool>, uap: nat)
    requires |word| >= 16
    ensures CrcPasses(word, uap)
            <==> exists q: seq<bool> :: |q| == |word| - 16 && forall i :: 0 <= i < |word| ==>
                   Times16(q, i) == (word[i] != (8 <= i < 16 && BitAt(uap, 15 - i)))
  {
    hide G16, Run, CrcRun, CrcSeed, Times16, IsProduct, XorBits;
    var n, seed := |word| - 16, CrcSeed(uap);
    assert word[..n] + word[n..] == word;
    CrcIsRun(seed, word[..n]);
    SeededCheckIsDivision(G16(), seed, word[..n], word[n..]);
    forall q: seq<bool>
      ensures IsProduct(G16(), q, XorBits(word, seed + Zeros(n)))
              <==> forall i :: 0 <= i < |word| ==>
                   Times16(q, i) == (word[i] != (8 <= i < 16 && BitAt(uap, 15 - i)))
    {
      Multiple16(word, uap, q);
    }
  }

  lemma Multiple16(word: seq<bool>, uap: nat, q: seq<bool>)
    requires |word| >= 16
    ensures IsProduct(G16(), q, XorBits(word, CrcSeed(uap) + Zeros(|word| - 16)))
            <==> forall i :: 0 <= i < |word| ==>
                   Times16(q, i) == (word[i] != (8 <= i < 16 && BitAt(uap, 15 - i)))
  {
    hide G16, Times16, BitAt;
    var added := XorBits(word, CrcSeed(uap) + Zeros(|word| - 16));
    forall i | 0 <= i < |word|
      ensures added[i] == (word[i] != (8 <= i < 16 && BitAt(uap, 15 - i)))
      ensures Product(G16(), q, i, 17) == Times16(q, i)
    {
      assert 8 <= i < 16 ==> CrcSeed(uap)[i] == HostToAir(uap, 8)[15 - i];
      Product16(q, i);
    }
    if IsProduct(G16(), q, added) {
      forall i | 0 <= i < |word|
        ensures Times16(q, i) == (word[i] != (8 <= i < 16 && BitAt(uap, 15 - i)))
      {
        assert added[i] == Product(G16(), q, i, 17);
      }
    }
  }

  // ---------- the header check: D^8 + D^7 + D^5 + D^2 + D + 1 ----------

  ghost function Times8(q: seq<bool>, i: int): bool
  {
    ((C(q, i) != C(q, i - 1)) != (C(q, i - 3) != C(q, i - 6))) != (C(q, i - 7) != C(q, i - 8))
  }

  ghost function G8(): (g: seq<bool>)
    ensures Generator(g) && |g| == 9
  {
    [true, true, false, true, false, false, true, true, true]
  }

  lemma Product8(q: seq<bool>, i: int)
    ensures Product(G8(), q, i, 9) == Times8(q, i)
  {
    var g := G8();
    assert Product(g, q, i, 2) == (C(q, i) != C(q, i - 1)) by { assert Product(g, q, i, 1) == C(q, i); }
    Skip(g, q, i, 2, 3);
    assert Product(g, q, i, 4) == (Product(g, q, i, 2) != C(q, i - 3));
    Skip(g, q, i, 4, 6);
    assert Product(g, q, i, 7) == (Product(g, q, i, 4) != C(q, i - 6));
    assert Product(g, q, i, 8) == (Product(g, q, i, 7) != C(q, i - 7));
  }

  lemma HecStepIs(reg: seq<bool>, bit: bool)
    requires |reg| == 8
    ensures HecStep(reg, bit) == Step(G8(), reg, bit)
  {
  }

  lemma {:induction false} HecIsRun(reg: seq<bool>, data: seq<bool>, n: nat)
    requires |reg| == 8 && n <= |data|
    ensures HecUpto(reg, data, n) == Run(G8(), reg, data[..n])
  {
    hide HecStep, Step, G8;
    if n > 0 {
      HecIsRun(reg, data, n - 1);
      assert data[..n][..n - 1] == data[..n - 1];
      HecStepIs(HecUpto(reg, data, n - 1), data[n - 1]);
    }
  }

  // Ten header bits and their check, with the UAP added to the first eight, most significant bit first,
  // are a multiple of the generator polynomial.
  lemma HecExactly(data: seq<bool>, hec: seq<bool>, uap: nat)
    requires |data| == 10 && |hec| == 8
    ensures hec == Hec(data, uap)
            <==> exists q: seq<bool> :: |q| == 10 && forall i :: 0 <= i < 18 ==>
                   Times8(q, i) == ((data + hec)[i] != (i < 8 && BitAt(uap, 7 - i)))
  {
    hide G8, Run, HecUpto, Times8, IsProduct, XorBits, Reverse, HostToAir, BitAt, Zeros;
    var seed := Reverse(HostToAir(uap, 8));
    HecIsRun(seed, data, 10);
    assert data[..10] == data;
    SeededCheckIsDivision(G8(), seed, data, hec);
    forall q: seq<bool>
      ensures IsProduct(G8(), q, XorBits(data + hec, seed + Zeros(10)))
              <==> forall i :: 0 <= i < 18 ==>
                   Times8(q, i) == ((data + hec)[i] != (i < 8 && BitAt(uap, 7 - i)))
    {
      Multiple8(data + hec, uap, q);
    }
  }

  lemma Multiple8(word: seq<bool>, uap: nat, q: seq<bool>)
    requires |word| == 18
    ensures IsProduct(G8(), q, XorBits(word, Reverse(HostToAir(uap, 8)) + Zeros(10)))
            <==> forall i :: 0 <= i < 18 ==>
                   Times8(q, i) == (word[i] != (i < 8 && BitAt(uap, 7 - i)))
  {
    hide G8, Times8, BitAt;
    var seed := Reverse(HostToAir(uap, 8));
    var added := XorBits(word, seed + Zeros(10));
    forall i | 0 <= i < 18
      ensures added[i] == (word[i] != (i < 8 && BitAt(uap, 7 - i)))
      ensures Product(G8(), q, i, 9) == Times8(q, i)
    {
      assert i < 8 ==> seed[i] == HostToAir(uap, 8)[7 - i];
      Product8(q, i);
    }
    if IsProduct(G8(), q, added) {
      forall i | 0 <= i < 18
        ensures Times8(q, i) == (word[i] != (i < 8 && BitAt(uap, 7 - i)))
      {
        assert added[i] == Product(G8(), q, i, 9);
      }
    }
  }

  // ---------- the 2/3 code: (D + 1)(D^4 + D + 1) ----------

  ghost function Times5(q: seq<bool>, i: int): bool
  {
    (C(q, i) != C(q, i - 1)) != (C(q, i - 3) != C(q, i - 5))
  }

  ghost function G5(): (g: seq<bool>)
    ensures Generator(g) && |g| == 6
  {
    [true, true, false, true, false, true]
  }

  lemma Product5(q: seq<bool>, i: int)
    ensures Product(G5(), q, i, 6) == Times5(q, i)
  {
    var g := G5();
    assert Product(g, q, i, 2) == (C(q, i) != C(q, i - 1)) by { assert Product(g, q, i, 1) == C(q, i); }
    Skip(g, q, i, 2, 3);
    Skip(g, q, i, 4, 5);
  }

  // The check bits of row k, bit by bit.
  ghost function CheckOf(k: nat): (check: seq<bool>)
    requires k < 10
    ensures |check| == 5
  {
    HostToAir(SYNDROMES[k], 5)
  }

  // Every row of the generator matrix is the remainder of the next one, shifted.
  lemma RowsFollow(k: nat)
    requires k < 9
    ensures CheckOf(k) == Step(G5(), CheckOf(k + 1), false)
  {
    Five(k);
    Five(k + 1);
  }

  lemma LastRow()
    ensures CheckOf(9) == Step(G5(), Zeros(5), true)
  {
    Five(9);
  }

  // The bits of the syndromes, least significant first.
  ghost function Tabled(k: nat): (bits: seq<bool>)
    requires k < 10
    ensures |bits| == 5
  {
    match k
    case 0 => [true, true, false, true, false]
    case 1 => [false, true, true, false, true]
    case 2 => [true, true, true, false, false]
    case 3 => [false, true, true, true, false]
    case 4 => [false, false, true, true, true]
    case 5 => [true, true, false, false, true]
    case 6 => [true, false, true, true, false]
    case 7 => [false, true, false, true, true]
    case 8 => [true, true, true, true, true]
    case _ => [true, false, true, false, true]
  }

  lemma FiveBits(bits: seq<bool>)
    requires |bits| == 5
    ensures AirToHost(bits) == (if bits[0] then 1 else 0) + (if bits[1] then 2 else 0) + (if bits[2] then 4 else 0)
                               + (if bits[3] then 8 else 0) + if bits[4] then 16 else 0
  {
    assert AirToHost(bits[5..]) == 0 && bits[4..][1..] == bits[5..];
    assert AirToHost(bits[4..]) == if bits[4] then 1 else 0;
    assert bits[3..][1..] == bits[4..] && bits[2..][1..] == bits[3..] && bits[1..][1..] == bits[2..];
    assert AirToHost(bits[2..]) == (if bits[2] then 1 else 0) + 2 * AirToHost(bits[3..]);
  }

  lemma Five(k: nat)
    requires k < 10
    ensures CheckOf(k) == Tabled(k)
  {
    FiveBits(Tabled(k));
    HostToAirInverts(Tabled(k));
  }

  // The sum of the rows is the data followed by its remainder.
  ghost function Remainder(data: seq<bool>): (codeword: seq<bool>)
    ensures |codeword| == |data| + 5
  {
    data + Run(G5(), Zeros(5), data)
  }

  ghost function Unit(k: nat): (unit: seq<bool>)
    requires k < 10
    ensures |unit| == 10
  {
    Zeros(k) + [true] + Zeros(9 - k)
  }

  lemma {:induction false} UnitUpto(k: nat, n: nat)
    requires n <= 9 && n + k == 9
    ensures Run(G5(), Zeros(5), [true] + Zeros(n)) == CheckOf(k)
    decreases n
  {
    hide Run, Step, G5, CheckOf;
    if n == 0 {
      LastRow();
      assert [true] + Zeros(0) == [] + [true];
      RunNext(G5(), Zeros(5), [], true);
      RunOfNone();
    } else {
      UnitUpto(k + 1, n - 1);
      RowsFollow(k);
      assert [true] + Zeros(n) == ([true] + Zeros(n - 1)) + [false];
      RunNext(G5(), Zeros(5), [true] + Zeros(n - 1), false);
    }
  }

  lemma RunOfNone()
    ensures Run(G5(), Zeros(5), []) == Zeros(5)
  {
  }

  lemma RowIsRemainder(k: nat)
    requires k < 10
    ensures Row(k) == Remainder(Unit(k))
  {
    hide Run, G5;
    RowData(k);
    RowCheck(k);
    UnitUpto(k, 9 - k);
    assert Unit(k) == Zeros(k) + ([true] + Zeros(9 - k));
    ZerosStay(G5(), k);
    RunAppend(G5(), Zeros(5), Zeros(k), [true] + Zeros(9 - k));
    var row := Row(k);
    assert row == row[..10] + row[10..] && row[..10] == Unit(k);
  }

  lemma {:induction false} RowsAreRemainder(data: seq<bool>, n: nat)
    requires n <= |data| == 10
    ensures Fec23Upto(data, n) == Remainder(data[..n] + Zeros(10 - n))
  {
    hide Run, G5, Row, Unit;
    if n == 0 {
      ZerosStay(G5(), 10);
      assert data[..0] + Zeros(10) == Zeros(10) && Zeros(10) + Zeros(5) == Zeros(15);
    } else {
      RowsAreRemainder(data, n - 1);
      AddRow(data, n - 1);
    }
  }

  lemma AddRow(data: seq<bool>, k: nat)
    requires k < |data| == 10
    ensures var (before, after) := (data[..k] + Zeros(10 - k), data[..k + 1] + Zeros(9 - k));
            Remainder(after) == if data[k] then XorBits(Remainder(before), Row(k)) else Remainder(before)
  {
    hide Run, G5, Row;
    var before, after := data[..k] + Zeros(10 - k), data[..k + 1] + Zeros(9 - k);
    if data[k] {
      RowIsRemainder(k);
      assert after == XorBits(before, Unit(k));
      assert XorBits(Zeros(5), Zeros(5)) == Zeros(5);
      RunLinear(G5(), Zeros(5), Zeros(5), before, Unit(k));
    } else {
      assert after == before;
    }
  }

  // A block is a codeword exactly when it is a multiple of the generator polynomial.
  lemma CodewordExactly(block: seq<bool>)
    requires |block| == 15
    ensures block == EncodeBlock(block[..10])
            <==> exists q: seq<bool> :: |q| == 10 && forall i :: 0 <= i < 15 ==>
                   block[i] == Times5(q, i)
  {
    hide G5, Run, Times5, IsProduct, Fec23Upto;
    var data, check := block[..10], block[10..];
    assert block == data + check;
    RowsAreRemainder(data, 10);
    assert data[..10] + Zeros(0) == data;
    CheckIsDivision(G5(), data, check);
    forall q: seq<bool>
      ensures IsProduct(G5(), q, block) <==> forall i :: 0 <= i < 15 ==>
                block[i] == Times5(q, i)
    {
      Multiple5(block, q);
    }
  }

  lemma Multiple5(block: seq<bool>, q: seq<bool>)
    requires |block| == 15
    ensures IsProduct(G5(), q, block) <==> forall i :: 0 <= i < 15 ==>
              block[i] == Times5(q, i)
  {
    hide G5, Times5;
    forall i | 0 <= i < 15
      ensures Product(G5(), q, i, 6) == Times5(q, i)
    {
      Product5(q, i);
    }
  }
}
