/** The payload check: a 16-bit cyclic redundancy check seeded with the UAP. */
module PayloadCheck {
  import opened Bits

  // The loop body of crcgen: the feedback enters at bit 15 and is added at bits 10 and 3.
  function CrcStep(reg: seq<bool>, bit: bool): (next: seq<bool>)
    requires |reg| == 16
    ensures |next| == 16
  {
    var feedback := reg[0] != bit;
    var shifted := reg[1..] + [feedback];
    var bit5 := shifted[10 := shifted[10] != feedback];
    bit5[3 := bit5[3] != feedback]
  }

  function CrcRun(reg: seq<bool>, bits: seq<bool>): (next: seq<bool>)
    requires |reg| == 16
    ensures |next| == 16
    decreases |bits|
  {
    if bits == [] then reg else CrcRun(CrcStep(reg, bits[0]), bits[1..])
  }

  function CrcSeed(uap: nat): (reg: seq<bool>)
    ensures |reg| == 16
  {
    Zeros(8) + Reverse(HostToAir(uap, 8))
  }

  method Crcgen(payload: array<bool>, length: nat, uap: nat) returns (reg: seq<bool>)
    requires length <= payload.Length
    ensures reg == CrcRun(CrcSeed(uap), payload[..length])
  {
    reg := CrcSeed(uap);
    for count := 0 to length
      invariant |reg| == 16 && reg == CrcRun(CrcSeed(uap), payload[..count])
    {
      CrcRunAppend(CrcSeed(uap), payload[..count], [payload[count]]);
      assert payload[..count + 1] == payload[..count] + [payload[count]];
      reg := CrcStep(reg, payload[count]);
    }
  }

  // Data followed by its check.
  predicate CrcPasses(word: seq<bool>, uap: nat)
    requires |word| >= 16
  {
    CrcRun(CrcSeed(uap), word[..|word| - 16]) == word[|word| - 16..]
  }

  lemma {:induction false} CrcRunAppend(reg: seq<bool>, a: seq<bool>, b: seq<bool>)
    requires |reg| == 16
    ensures CrcRun(reg, a + b) == CrcRun(CrcRun(reg, a), b)
    decreases |a|
  {
    if a == [] {
      assert a + b == b;
    } else {
      CrcRunAppend(CrcStep(reg, a[0]), a[1..], b);
      assert (a + b)[1..] == a[1..] + b;
    }
  }

  // ---------- the check is linear, and every step can be undone ----------

  lemma CrcStepLinear(r: seq<bool>, s: seq<bool>, a: bool, b: bool)
    requires |r| == |s| == 16
    ensures CrcStep(XorBits(r, s), a != b) == XorBits(CrcStep(r, a), CrcStep(s, b))
  {
  }

  lemma {:induction false} CrcRunLinear(r: seq<bool>, s: seq<bool>, a: seq<bool>, b: seq<bool>)
    requires |r| == |s| == 16 && |a| == |b|
    ensures CrcRun(XorBits(r, s), XorBits(a, b)) == XorBits(CrcRun(r, a), CrcRun(s, b))
    decreases |a|
  {
    if a != [] {
      CrcStepLinear(r, s, a[0], b[0]);
      CrcRunLinear(CrcStep(r, a[0]), CrcStep(s, b[0]), a[1..], b[1..]);
      assert XorBits(a, b)[1..] == XorBits(a[1..], b[1..]);
    }
  }

  lemma CrcStepInjective(r: seq<bool>, s: seq<bool>, bit: bool)
    requires |r| == |s| == 16 && CrcStep(r, bit) == CrcStep(s, bit)
    ensures r == s
  {
    var x, y := CrcStep(r, bit), CrcStep(s, bit);
    assert r[0] == s[0] by {
      assert x[15] == (r[0] != bit) && y[15] == (s[0] != bit);
    }
    forall i | 1 <= i < 16
      ensures r[i] == s[i]
    {
      assert x[i - 1] == y[i - 1];
    }
  }

  lemma {:induction false} CrcRunInjective(r: seq<bool>, s: seq<bool>, bits: seq<bool>)
    requires |r| == |s| == 16 && CrcRun(r, bits) == CrcRun(s, bits)
    ensures r == s
    decreases |bits|
  {
    if bits != [] {
      CrcRunInjective(CrcStep(r, bits[0]), CrcStep(s, bits[0]), bits[1..]);
      CrcStepInjective(r, s, bits[0]);
    }
  }

  // ---------- a word passes exactly when it drives the register to zero ----------

  lemma {:induction false} CheckEmptiesRegister(check: seq<bool>)
    requires |check| <= 16
    ensures CrcRun(check + Zeros(16 - |check|), check) == Zeros(16)
    decreases |check|
  {
    var reg := check + Zeros(16 - |check|);
    if check == [] {
      assert reg == Zeros(16);
    } else {
      assert CrcStep(reg, check[0]) == check[1..] + Zeros(17 - |check|);
      CheckEmptiesRegister(check[1..]);
    }
  }

  lemma CrcPassesIsZero(word: seq<bool>, uap: nat)
    requires |word| >= 16
    ensures CrcPasses(word, uap) <==> CrcRun(CrcSeed(uap), word) == Zeros(16)
  {
    var data, check := word[..|word| - 16], word[|word| - 16..];
    assert word == data + check;
    CrcRunAppend(CrcSeed(uap), data, check);
    CheckEmptiesRegister(check);
    assert check + Zeros(0) == check;
    if CrcRun(CrcSeed(uap), word) == Zeros(16) {
      CrcRunInjective(CrcRun(CrcSeed(uap), data), check, check);
    }
  }

  // ---------- what the check detects ----------

  lemma {:induction false} ZerosKeepZero(n: nat)
    ensures CrcRun(Zeros(16), Zeros(n)) == Zeros(16)
    decreases n
  {
    if n > 0 {
      assert CrcStep(Zeros(16), false) == Zeros(16);
      assert Zeros(n)[1..] == Zeros(n - 1);
      ZerosKeepZero(n - 1);
    }
  }

  // Adding an error pattern to a passing word gives a passing word only if the pattern alone
  // drives the empty register to zero.
  lemma ErrorSyndrome(word: seq<bool>, error: seq<bool>, uap: nat)
    requires |word| == |error| >= 16 && CrcPasses(word, uap)
    ensures CrcPasses(XorBits(word, error), uap) <==> CrcRun(Zeros(16), error) == Zeros(16)
  {
    var seed := CrcSeed(uap);
    CrcPassesIsZero(word, uap);
    CrcPassesIsZero(XorBits(word, error), uap);
    CrcRunLinear(seed, Zeros(16), word, error);
    assert XorBits(seed, Zeros(16)) == seed;
    var residue := CrcRun(Zeros(16), error);
    assert XorBits(Zeros(16), residue) == residue;
  }

  lemma BurstLeavesResidue(error: seq<bool>, i: nat)
    requires i + 16 <= |error|
    requires forall k :: 0 <= k < |error| && error[k] ==> i <= k < i + 16
    requires exists k :: 0 <= k < |error| && error[k]
    ensures CrcRun(Zeros(16), error) != Zeros(16)
  {
    var burst, tail := error[i..i + 16], error[i + 16..];
    assert error == Zeros(i) + (burst + tail);
    CrcRunAppend(Zeros(16), Zeros(i), burst + tail);
    ZerosKeepZero(i);
    CrcRunAppend(Zeros(16), burst, tail);
    var residue := CrcRun(Zeros(16), burst);
    assert burst != Zeros(16) by {
      var k :| 0 <= k < |error| && error[k];
      assert burst[k - i];
    }
    if residue == Zeros(16) {
      CheckEmptiesRegister(burst);
      assert burst + Zeros(0) == burst;
      CrcRunInjective(Zeros(16), burst, burst);
    }
    if CrcRun(residue, tail) == Zeros(16) {
      assert tail == Zeros(|tail|);
      ZerosKeepZero(|tail|);
      CrcRunInjective(residue, Zeros(16), tail);
    }
  }

  // Any error confined to sixteen consecutive symbols of data and check is noticed.
  lemma BurstDetected(word: seq<bool>, error: seq<bool>, i: nat, uap: nat)
    requires |word| == |error| && i + 16 <= |error| && CrcPasses(word, uap)
    requires forall k :: 0 <= k < |error| && error[k] ==> i <= k < i + 16
    requires exists k :: 0 <= k < |error| && error[k]
    ensures !CrcPasses(XorBits(word, error), uap)
  {
    BurstLeavesResidue(error, i);
    ErrorSyndrome(word, error, uap);
  }

  lemma CrcStepParity(reg: seq<bool>, bit: bool)
    requires |reg| == 16
    ensures Odd(CrcStep(reg, bit)) == (Odd(reg) != bit)
  {
    var feedback := reg[0] != bit;
    var shifted := reg[1..] + [feedback];
    OddAppend(reg[1..], feedback);
    OddFlip(shifted, 10, shifted[10] != feedback);
    var bit5 := shifted[10 := shifted[10] != feedback];
    OddFlip(bit5, 3, bit5[3] != feedback);
  }

  lemma {:induction false} CrcRunParity(reg: seq<bool>, bits: seq<bool>)
    requires |reg| == 16
    ensures Odd(CrcRun(reg, bits)) == (Odd(reg) != Odd(bits))
    decreases |bits|
  {
    if bits != [] {
      CrcStepParity(reg, bits[0]);
      CrcRunParity(CrcStep(reg, bits[0]), bits[1..]);
    }
  }

  // Any error in an odd number of symbols is noticed.
  lemma OddErrorDetected(word: seq<bool>, error: seq<bool>, uap: nat)
    requires |word| == |error| >= 16 && CrcPasses(word, uap) && Odd(error)
    ensures !CrcPasses(XorBits(word, error), uap)
  {
    OddZeros(16);
    CrcRunParity(Zeros(16), error);
    ErrorSyndrome(word, error, uap);
  }

  // A payload passes for at most one UAP.
  lemma UapUnique(word: seq<bool>, uap: nat, other: nat)
    requires |word| >= 16 && uap < 256 && other < 256
    requires CrcPasses(word, uap) && CrcPasses(word, other)
    ensures uap == other
  {
    CrcRunInjective(CrcSeed(uap), CrcSeed(other), word[..|word| - 16]);
    var a, b := HostToAir(uap, 8), HostToAir(other, 8);
    assert CrcSeed(uap)[8..] == Reverse(a) && CrcSeed(other)[8..] == Reverse(b);
    ReverseTwice(a);
    ReverseTwice(b);
    assert Pow2(8) == 256;
    AirToHostInverts(uap, 8);
    AirToHostInverts(other, 8);
  }
}
