/** Optional results: the null pointers and "not found" codes of the source. */
module Wrappers {
  datatype Option<+T> = None | Some(value: T)
}

/**
 Symbol streams and the integers read from them.

 A symbol is a `bool` (the source keeps one bit per `char`).  A host-order integer that is only
 shifted, masked and XORed is the sequence of its bits, least significant first, so reading it from
 the air leaves the symbols as they are; a host-order integer that is used as a number is a `nat`.
 */
module Bits {

  // Bit number i of a number.
  function BitAt(value: nat, i: nat): bool
  {
    if i == 0 then value % 2 == 1 else BitAt(value / 2, i - 1)
  }

  function ShiftRight(value: nat, n: nat): nat
  {
    if n == 0 then value else ShiftRight(value / 2, n - 1)
  }

  lemma {:induction false} ShiftRightBit(value: nat, n: nat, bit: nat)
    ensures BitAt(ShiftRight(value, n), bit) == BitAt(value, bit + n)
  {
    if n > 0 {
      ShiftRightBit(value / 2, n - 1, bit);
    }
  }

  // The low bits of a number in air order.
  function HostToAir(value: nat, bits: nat): (air: seq<bool>)
    ensures |air| == bits
    ensures forall i :: 0 <= i < bits ==> air[i] == BitAt(value, i)
  {
    seq(bits, i requires 0 <= i < bits => BitAt(value, i))
  }

  // The number whose bits arrive in air order.
  function AirToHost(air: seq<bool>): nat
  {
    if air == [] then 0 else (if air[0] then 1 else 0) + 2 * AirToHost(air[1..])
  }

  function Pow2(n: nat): (p: nat)
    ensures p >= 1
  {
    if n == 0 then 1 else 2 * Pow2(n - 1)
  }

  lemma {:induction false} AirToHostBound(air: seq<bool>)
    ensures AirToHost(air) < Pow2(|air|)
  {
    if air != [] {
      AirToHostBound(air[1..]);
    }
  }

  lemma {:induction false} AirToHostInverts(value: nat, bits: nat)
    requires value < Pow2(bits)
    ensures AirToHost(HostToAir(value, bits)) == value
  {
    if bits > 0 {
      AirToHostInverts(value / 2, bits - 1);
      assert HostToAir(value, bits)[1..] == HostToAir(value / 2, bits - 1);
    }
  }

  lemma {:induction false} HostToAirInverts(air: seq<bool>)
    ensures HostToAir(AirToHost(air), |air|) == air
  {
    if air != [] {
      var rest := air[1..];
      HostToAirInverts(rest);
      var value := AirToHost(air);
      assert value / 2 == AirToHost(rest);
      forall i | 0 <= i < |air|
        ensures HostToAir(value, |air|)[i] == air[i]
      {
        if i > 0 {
          assert HostToAir(AirToHost(rest), |rest|)[i - 1] == rest[i - 1];
        }
      }
    }
  }

  function XorBits(a: seq<bool>, b: seq<bool>): (r: seq<bool>)
    requires |a| == |b|
    ensures |r| == |a|
    ensures forall i :: 0 <= i < |a| ==> r[i] == (a[i] != b[i])
  {
    seq(|a|, i requires 0 <= i < |a| => a[i] != b[i])
  }

  lemma SliceOfPrefix<T>(s: seq<T>, n: nat, i: nat, j: nat)
    requires i <= j <= n <= |s|
    ensures s[..n][i..j] == s[i..j]
  {
  }

  lemma SliceOfSuffix<T>(s: seq<T>, from: nat, i: nat, n: nat)
    requires from + i + n <= |s|
    ensures s[from..][i..i + n] == s[from + i..from + i + n]
  {
  }

  function Zeros(n: nat): (r: seq<bool>)
    ensures |r| == n
    ensures forall i :: 0 <= i < n ==> !r[i]
  {
    seq(n, i => false)
  }

  lemma XorZero(a: seq<bool>, b: seq<bool>)
    requires |a| == |b|
    ensures XorBits(a, b) == Zeros(|a|) <==> a == b
  {
    if XorBits(a, b) == Zeros(|a|) {
      forall i | 0 <= i < |a|
        ensures a[i] == b[i]
      {
        assert !XorBits(a, b)[i];
      }
    }
  }

  lemma AirToHostInjective(a: seq<bool>, b: seq<bool>)
    requires |a| == |b| && AirToHost(a) == AirToHost(b)
    ensures a == b
  {
    HostToAirInverts(a);
    HostToAirInverts(b);
  }

  lemma {:induction false} AirToHostZeros(n: nat)
    ensures AirToHost(Zeros(n)) == 0
  {
    if n > 0 {
      AirToHostZeros(n - 1);
      assert Zeros(n)[1..] == Zeros(n - 1);
    }
  }

  lemma {:induction false} AirToHostUnit(n: nat, i: nat)
    requires i < n
    ensures AirToHost(Zeros(n)[i := true]) == Pow2(i)
  {
    var unit := Zeros(n)[i := true];
    if i == 0 {
      assert unit[1..] == Zeros(n - 1);
      AirToHostZeros(n - 1);
    } else {
      assert unit[1..] == Zeros(n - 1)[i - 1 := true];
      AirToHostUnit(n - 1, i - 1);
    }
  }

  function Flip(a: seq<bool>, i: nat): (r: seq<bool>)
    requires i < |a|
    ensures |r| == |a|
  {
    a[i := !a[i]]
  }

  // Hamming distance: in how many positions two streams of the same length differ.
  ghost function Distance(a: seq<bool>, b: seq<bool>): nat
    requires |a| == |b|
  {
    if a == [] then 0 else (if a[0] != b[0] then 1 else 0) + Distance(a[1..], b[1..])
  }

  lemma {:induction false} DistanceZero(a: seq<bool>, b: seq<bool>)
    requires |a| == |b|
    ensures Distance(a, b) == 0 <==> a == b
  {
    if a != [] {
      DistanceZero(a[1..], b[1..]);
      if a[0] == b[0] && a[1..] == b[1..] {
        assert a == [a[0]] + a[1..] == b;
      }
    }
  }

  lemma {:induction false} DistanceFlip(a: seq<bool>, b: seq<bool>, i: nat)
    requires i < |a| == |b|
    ensures Distance(Flip(a, i), b) == Distance(a, b) + (if a[i] == b[i] then 1 else -1)
  {
    if i == 0 {
      assert Flip(a, 0)[1..] == a[1..];
    } else {
      DistanceFlip(a[1..], b[1..], i - 1);
      assert Flip(a, i)[1..] == Flip(a[1..], i - 1);
    }
  }

  // Streams that differ do so at some position.
  lemma FirstDifference(a: seq<bool>, b: seq<bool>) returns (i: nat)
    requires |a| == |b| && a != b
    ensures i < |a| && a[i] != b[i]
  {
    i :| i < |a| && a[i] != b[i];
  }

  // Whether an odd number of symbols is set.
  ghost predicate Odd(s: seq<bool>)
  {
    s != [] && s[0] != Odd(s[1..])
  }

  lemma {:induction false} EvenSum(a: seq<bool>, b: seq<bool>)
    requires |a| == |b|
    ensures Odd(XorBits(a, b)) == (Odd(a) != Odd(b))
  {
    if a != [] {
      EvenSum(a[1..], b[1..]);
      assert XorBits(a, b)[1..] == XorBits(a[1..], b[1..]);
    }
  }

  lemma {:induction false} OddZeros(n: nat)
    ensures !Odd(Zeros(n))
  {
    if n > 0 {
      assert Zeros(n)[1..] == Zeros(n - 1);
      OddZeros(n - 1);
    }
  }

  lemma {:induction false} OddAppend(s: seq<bool>, b: bool)
    ensures Odd(s + [b]) == (Odd(s) != b)
  {
    if s == [] {
      assert s + [b] == [b];
    } else {
      OddAppend(s[1..], b);
      assert (s + [b])[1..] == s[1..] + [b];
    }
  }

  lemma {:induction false} OddFlip(s: seq<bool>, i: nat, b: bool)
    requires i < |s|
    ensures Odd(s[i := b]) == (Odd(s) != (s[i] != b))
  {
    if i == 0 {
      assert s[0 := b][1..] == s[1..];
    } else {
      OddFlip(s[1..], i - 1, b);
      assert s[i := b][1..] == s[1..][i - 1 := b];
    }
  }

  function Reverse(s: seq<bool>): (r: seq<bool>)
    ensures |r| == |s|
  {
    seq(|s|, i requires 0 <= i < |s| => s[|s| - 1 - i])
  }

  lemma ReverseTwice(s: seq<bool>)
    ensures Reverse(Reverse(s)) == s
  {
  }
}
