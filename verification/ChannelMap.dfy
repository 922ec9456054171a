/** The channel map of adaptive frequency hopping and the register bank that is made from it. */
module ChannelMap {
  import opened Arithmetic
  import opened Sequences

  // Bits in the ten bytes of the map; bit c % 8 of byte c / 8 is entry c here.
  const MAP_BITS: nat := 80

  // The channels whose bit is set.
  ghost function SeenSet(map_: seq<bool>): (seen: set<nat>)
    ensures forall c: nat :: c in seen <==> c < |map_| && map_[c]
  {
    set c: nat | c < |map_| && map_[c]
  }

  lemma SeenSetUpdate(map_: seq<bool>, c: nat, bit: bool)
    requires c < |map_|
    ensures SeenSet(map_[c := bit]) == if bit then SeenSet(map_) + {c} else SeenSet(map_) - {c}
  {
  }

  // ---------- counting the bits of a byte ----------

  ghost function CountBits(bits: seq<bool>): nat
  {
    if bits == [] then 0 else (if bits[0] then 1 else 0) + CountBits(bits[1..])
  }

  // What n & (n - 1) leaves of a number: its bits without the lowest one that is set.
  function ClearLowest(bits: seq<bool>): (cleared: seq<bool>)
    ensures |cleared| == |bits|
  {
    if bits == [] then []
    else if bits[0] then [false] + bits[1..]
    else [false] + ClearLowest(bits[1..])
  }

  lemma {:induction false} ClearLowestCounts(bits: seq<bool>)
    requires true in bits
    ensures CountBits(ClearLowest(bits)) == CountBits(bits) - 1
  {
    if bits[0] {
      assert ClearLowest(bits)[1..] == bits[1..];
    } else {
      assert bits == [bits[0]] + bits[1..];
      ClearLowestCounts(bits[1..]);
      assert ClearLowest(bits)[1..] == ClearLowest(bits[1..]);
    }
  }

  lemma {:induction false} NoBitsCountZero(bits: seq<bool>)
    requires true !in bits
    ensures CountBits(bits) == 0
  {
    if bits != [] {
      NoBitsCountZero(bits[1..]);
    }
  }

  method CountBitsOf(bits: seq<bool>) returns (count: nat)
    ensures count == CountBits(bits)
  {
    var n := bits;
    count := 0;
    while true in n
      invariant count + CountBits(n) == CountBits(bits)
      decreases CountBits(n)
    {
      ClearLowestCounts(n);
      n := ClearLowest(n);
      count := count + 1;
    }
    NoBitsCountZero(n);
  }

  lemma {:induction false} CountAppend(a: seq<bool>, b: seq<bool>)
    ensures CountBits(a + b) == CountBits(a) + CountBits(b)
  {
    if a == [] {
      assert a + b == b;
    } else {
      CountAppend(a[1..], b);
      assert (a + b)[1..] == a[1..] + b;
    }
  }

  // Counting bits is counting channels.
  lemma {:induction false} CountIsSetSize(map_: seq<bool>)
    ensures CountBits(map_) == |SeenSet(map_)|
    decreases |map_|
  {
    if map_ == [] {
      assert SeenSet(map_) == {};
    } else {
      var n := |map_| - 1;
      var init := map_[..n];
      CountIsSetSize(init);
      CountAppend(init, [map_[n]]);
      assert map_ == init + [map_[n]];
      assert SeenSet(map_) == if map_[n] then SeenSet(init) + {n} else SeenSet(init);
    }
  }

  // ---------- the register bank ----------

  // The used channels among the first n of the order 0, 2, 4, ..., 78, 1, 3, ..., 77.
  function BankUpto(map_: seq<bool>, n: nat): (bank: seq<nat>)
    requires |map_| == MAP_BITS && n <= 79
    ensures |bank| <= n
  {
    if n == 0 then []
    else
      var channel := (n - 1) * 2 % 79;
      BankUpto(map_, n - 1) + if map_[channel] then [channel] else []
  }

  lemma {:induction false} BankElements(map_: seq<bool>, n: nat, c: nat)
    requires |map_| == MAP_BITS && n <= 79
    ensures c in BankUpto(map_, n) <==> exists i: nat :: i < n && c == i * 2 % 79 && map_[c]
  {
    if n > 0 {
      BankElements(map_, n - 1, c);
    }
  }

  lemma {:induction false} BankDistinct(map_: seq<bool>, n: nat)
    requires |map_| == MAP_BITS && n <= 79
    ensures Distinct(BankUpto(map_, n))
  {
    if n > 0 {
      BankDistinct(map_, n - 1);
      var channel := (n - 1) * 2 % 79;
      BankElements(map_, n - 1, channel);
      forall i: nat | i < n - 1
        ensures i * 2 % 79 != channel
      {
        DoublesDiffer(i, n - 1);
      }
    }
  }

  // Each used channel stands in the bank exactly once, so their number is the size of the map.
  lemma BankIsMap(map_: seq<bool>)
    requires |map_| == MAP_BITS && !map_[79]
    ensures Distinct(BankUpto(map_, 79))
    ensures forall c: nat :: c in BankUpto(map_, 79) <==> c in SeenSet(map_)
    ensures |BankUpto(map_, 79)| == |SeenSet(map_)|
  {
    var bank := BankUpto(map_, 79);
    BankDistinct(map_, 79);
    forall c: nat
      ensures c in bank <==> c in SeenSet(map_)
    {
      BankElements(map_, 79, c);
      if c in SeenSet(map_) {
        assert c < 79;
        var i := if c % 2 == 0 then c / 2 else (c + 79) / 2;
        assert i < 79 && i * 2 % 79 == c;
      }
    }
    DistinctSize(bank, SeenSet(map_));
  }

  // In the bank the even channels come before the odd ones, and either kind in increasing order.
  lemma {:induction false} BankInOrder(map_: seq<bool>, n: nat, i: nat, j: nat)
    requires |map_| == MAP_BITS && n <= 79 && i < j < |BankUpto(map_, n)|
    ensures var (p, q) := (BankUpto(map_, n)[i], BankUpto(map_, n)[j]);
            p < 79 && q < 79 && (p % 2 < q % 2 || (p % 2 == q % 2 && p < q))
  {
    var bank, before := BankUpto(map_, n), BankUpto(map_, n - 1);
    if j < |before| {
      BankInOrder(map_, n - 1, i, j);
    } else {
      assert before[i] in before;
      BankElements(map_, n - 1, before[i]);
      var k: nat :| k < n - 1 && before[i] == k * 2 % 79;
      PlacesInOrder(k, n - 1);
    }
  }

  lemma PlacesInOrder(k: nat, m: nat)
    requires k < m < 79
    ensures var (p, q) := (k * 2 % 79, m * 2 % 79); p % 2 < q % 2 || (p % 2 == q % 2 && p < q)
  {
    assert k * 2 % 79 == if k < 40 then 2 * k else 2 * k - 79;
    assert m * 2 % 79 == if m < 40 then 2 * m else 2 * m - 79;
  }
}
