/** The five-bit permutation of the hop selection kernel, and its lazily filled table. */
module Permutation {
  import opened Bits

  // The bits that butterfly i may exchange.
  const INDEX1: seq<nat> := [0, 2, 1, 3, 0, 1, 0, 3, 1, 0, 2, 1, 0, 1]
  const INDEX2: seq<nat> := [1, 3, 2, 4, 4, 3, 2, 4, 4, 3, 4, 3, 3, 2]

  function Swap(bits: seq<bool>, i: nat, j: nat): (swapped: seq<bool>)
    requires i < |bits| && j < |bits|
    ensures |swapped| == |bits|
  {
    bits[i := bits[j]][j := bits[i]]
  }

  // Nine control bits from p_low below five from p_high.
  function Control(pHigh: nat, pLow: nat): (p: seq<bool>)
    ensures |p| == 14
  {
    HostToAir(pLow, 9) + HostToAir(pHigh, 5)
  }

  // The bits after the butterflies from 13 down to n.
  function Butterflies(bits: seq<bool>, p: seq<bool>, n: nat): (r: seq<bool>)
    requires |bits| == 5 && |p| == 14 && n <= 14
    ensures |r| == 5
    decreases 14 - n
  {
    if n == 14 then bits
    else
      var r := Butterflies(bits, p, n + 1);
      if p[n] then Swap(r, INDEX1[n], INDEX2[n]) else r
  }

  // The specification of perm5.
  function Perm(z: nat, pHigh: nat, pLow: nat): (output: nat)
    ensures output < 32
  {
    var bits := Butterflies(HostToAir(z, 5), Control(pHigh, pLow), 0);
    AirToHostBound(bits);
    assert Pow2(5) == 32;
    AirToHost(bits)
  }

  method Perm5(z: nat, pHigh: nat, pLow: nat) returns (output: nat)
    ensures output == Perm(z, pHigh, pLow)
  {
    var p := Control(pHigh, pLow);
    var zBit := new bool[5](i => BitAt(z, i));
    assert zBit[..] == HostToAir(z, 5);
    for i := 14 downto 0
      invariant zBit[..] == Butterflies(HostToAir(z, 5), p, i)
    {
      if p[i] {
        var tmp := zBit[INDEX1[i]];
        zBit[INDEX1[i]] := zBit[INDEX2[i]];
        zBit[INDEX2[i]] := tmp;
      }
    }
    output := AirToHost(zBit[..]);
  }

  // ---------- for every control word the permutation is a bijection ----------

  lemma {:induction false} ButterfliesInjective(a: seq<bool>, b: seq<bool>, p: seq<bool>, n: nat)
    requires |a| == |b| == 5 && |p| == 14 && n <= 14
    requires Butterflies(a, p, n) == Butterflies(b, p, n)
    ensures a == b
    decreases 14 - n
  {
    if n < 14 {
      var i, j := INDEX1[n], INDEX2[n];
      var x, y := Butterflies(a, p, n + 1), Butterflies(b, p, n + 1);
      if p[n] {
        SwapTwice(x, i, j);
        SwapTwice(y, i, j);
      }
      ButterfliesInjective(a, b, p, n + 1);
    }
  }

  lemma SwapTwice(bits: seq<bool>, i: nat, j: nat)
    requires i < |bits| && j < |bits|
    ensures Swap(Swap(bits, i, j), i, j) == bits
  {
  }

  // Five-bit numbers that are permuted alike are equal.
  lemma PermInjective(z: nat, other: nat, pHigh: nat, pLow: nat)
    requires z < 32 && other < 32 && Perm(z, pHigh, pLow) == Perm(other, pHigh, pLow)
    ensures z == other
  {
    var a, b := HostToAir(z, 5), HostToAir(other, 5);
    var p := Control(pHigh, pLow);
    AirToHostInjective(Butterflies(a, p, 0), Butterflies(b, p, 0));
    ButterfliesInjective(a, b, p, 0);
    assert Pow2(5) == 32;
    AirToHostInverts(z, 5);
    AirToHostInverts(other, 5);
  }

  // ---------- the table ----------

  class PermTable {
    var initialized: bool
    const table: array3<nat>

    ghost predicate Valid()
      reads this, table
    {
      && table.Length0 == 0x20 && table.Length1 == 0x20 && table.Length2 == 0x200
      && (initialized ==> Filled(0x20, 0, 0))
    }

    // The entries before (z, pHigh, pLow) in the order of the initialisation are right.
    ghost predicate Filled(z: nat, pHigh: nat, pLow: nat)
      reads table
      requires table.Length0 == 0x20 && table.Length1 == 0x20 && table.Length2 == 0x200
    {
      forall a, b, c ::
        0 <= a < 0x20 && 0 <= b < 0x20 && 0 <= c < 0x200
        && (a < z || (a == z && (b < pHigh || (b == pHigh && c < pLow))))
        ==> table[a, b, c] == Perm(a, b, c)
    }

    constructor ()
      ensures Valid() && !initialized && fresh(table)
    {
      initialized := false;
      table := new nat[0x20, 0x20, 0x200]((_, _, _) => 0);
    }

    method Init()
      requires Valid()
      modifies table
      ensures Filled(0x20, 0, 0)
    {
      hide Perm;
      for z := 0 to 0x20
        invariant Filled(z, 0, 0)
      {
        for pHigh := 0 to 0x20
          invariant Filled(z, pHigh, 0)
        {
          for pLow := 0 to 0x200
            invariant Filled(z, pHigh, pLow)
          {
            table[z, pHigh, pLow] := Perm5(z, pHigh, pLow);
          }
        }
      }
    }

    // A drop-in replacement for Perm5, in every run: before and after the table is filled.
    method FastPerm(z: nat, pHigh: nat, pLow: nat) returns (output: nat)
      requires Valid() && z < 0x20 && pHigh < 0x20 && pLow < 0x200
      modifies this, table
      ensures Valid() && initialized
      ensures output == Perm(z, pHigh, pLow)
    {
      if !initialized {
        Init();
        initialized := true;
      }
      output := table[z, pHigh, pLow];
    }
  }

  // ---------- exclusive or of n-bit numbers ----------

  function Xor(a: nat, b: nat, n: nat): (r: nat)
    ensures r < Pow2(n)
  {
    var bits := XorBits(HostToAir(a, n), HostToAir(b, n));
    AirToHostBound(bits);
    AirToHost(bits)
  }

  lemma XorInjective(a: nat, b: nat, c: nat, n: nat)
    requires a < Pow2(n) && b < Pow2(n) && Xor(a, c, n) == Xor(b, c, n)
    ensures a == b
  {
    var x, y, z := HostToAir(a, n), HostToAir(b, n), HostToAir(c, n);
    AirToHostInjective(XorBits(x, z), XorBits(y, z));
    forall i | 0 <= i < n
      ensures x[i] == y[i]
    {
      assert XorBits(x, z)[i] == XorBits(y, z)[i];
    }
    assert x == y;
    AirToHostInverts(a, n);
    AirToHostInverts(b, n);
  }

  lemma XorCommutes(a: nat, b: nat, n: nat)
    ensures Xor(a, b, n) == Xor(b, a, n)
  {
    assert XorBits(HostToAir(a, n), HostToAir(b, n)) == XorBits(HostToAir(b, n), HostToAir(a, n));
  }

  lemma XorWithZero(a: nat, n: nat)
    requires a < Pow2(n)
    ensures Xor(0, a, n) == a
  {
    forall i: nat
      ensures !BitAt(0, i)
    {
      ZeroBits(i);
    }
    assert XorBits(HostToAir(0, n), HostToAir(a, n)) == HostToAir(a, n);
    AirToHostInverts(a, n);
  }

  lemma {:induction false} ZeroBits(i: nat)
    ensures !BitAt(0, i)
  {
    if i > 0 {
      ZeroBits(i - 1);
    }
  }

  // Bits above the width do not count.
  lemma XorMasks(a: nat, b: nat, high: nat, n: nat)
    ensures Xor(a, b + Pow2(n) * high, n) == Xor(a, b, n)
  {
    forall i: nat | i < n
      ensures BitAt(b + Pow2(n) * high, i) == BitAt(b, i)
    {
      LowBits(b, high, n, i);
    }
    assert HostToAir(b + Pow2(n) * high, n) == HostToAir(b, n);
  }

  lemma {:induction false} LowBits(value: nat, high: nat, n: nat, i: nat)
    requires i < n
    ensures BitAt(value + Pow2(n) * high, i) == BitAt(value, i)
  {
    var rest := Pow2(n - 1) * high;
    assert Pow2(n) * high == 2 * rest;
    assert (value + 2 * rest) / 2 == value / 2 + rest;
    if i > 0 {
      LowBits(value / 2, high, n - 1, i - 1);
    }
  }
}
