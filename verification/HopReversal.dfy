/** Finding CLK1-27 by elimination: what a clock must satisfy, and filters that keep exactly those clocks. */
module HopReversal {
  import opened Arithmetic
  import opened HopKernel

  // Words of the source.  Unsigned 32-bit arithmetic wraps around; a result read as signed has its top half negative.
  type Word8 = x: int | 0 <= x < 0x100
  type Word24 = x: int | 0 <= x < 0x100_0000
  type Word32 = x: int | 0 <= x < 0x1_0000_0000
  type Int32 = x: int | -0x8000_0000 <= x < 0x8000_0000

  function Wrap32(x: int): (r: Word32)
  {
    x % 0x1_0000_0000
  }

  function Signed32(x: int): (r: Int32)
  {
    var r := Wrap32(x);
    if r < 0x8000_0000 then r else r - 0x1_0000_0000
  }

  // The signed number is the one in its range that differs by a multiple of 2^32.
  lemma SignedExactly(x: int, r: Int32)
    ensures Signed32(x) == r <==> (x - r) % 4294967296 == 0
  {
    var q, k := x / 4294967296, (x - r) / 4294967296;
    assert x == 4294967296 * q + Wrap32(x);
    if (x - r) % 4294967296 == 0 {
      assert x - r == 4294967296 * k;
      assert 4294967296 * (k - q) == Wrap32(x) - r;
    } else {
      SignedDiffers(x, q);
    }
  }

  lemma SignedDiffers(x: int, q: int)
    requires x == 4294967296 * q + Wrap32(x)
    ensures (x - Signed32(x)) % 4294967296 == 0
  {
    AddWrap(0, q);
    AddWrap(0, q + 1);
    assert x - Signed32(x) == 4294967296 * q || x - Signed32(x) == 4294967296 * (q + 1);
  }

  // The sequence length divides the size of the 32-bit numbers, so wrapping does not disturb an index.
  lemma WrapKeepsIndex(i: int, offset: int)
    ensures Wrap32(Wrap32(i) + Signed32(offset)) % SEQUENCE_LENGTH == (i + offset) % SEQUENCE_LENGTH
  {
    WrapKeepsRemainder(offset);
    WrapKeepsRemainder(i);
    WrapKeepsRemainder(Wrap32(i) + Signed32(offset));
    var a, b := (i - Wrap32(i)) / SEQUENCE_LENGTH, (offset - Signed32(offset)) / SEQUENCE_LENGTH;
    assert i + offset == Wrap32(i) + Signed32(offset) + SEQUENCE_LENGTH * (a + b);
    AddMultiple(Wrap32(i) + Signed32(offset), a + b);
  }

  lemma WrapKeepsRemainder(x: int)
    ensures Wrap32(x) % SEQUENCE_LENGTH == x % SEQUENCE_LENGTH
    ensures (x - Wrap32(x)) % SEQUENCE_LENGTH == 0 && (x - Signed32(x)) % SEQUENCE_LENGTH == 0
  {
    var q := x / 0x1_0000_0000;
    assert x == 0x1_0000_0000 * q + Wrap32(x);
    AddMultiple(Wrap32(x), 32 * q);
    AddMultiple(0, 32 * q);
    AddMultiple(0, 32 * q + 32);
  }

  lemma WrapDifference(a: int, b: int)
    ensures Signed32(Wrap32(a) - Wrap32(b)) == Signed32(a - b)
  {
    var p, q := a / 0x1_0000_0000, b / 0x1_0000_0000;
    assert a - b == Wrap32(a) - Wrap32(b) + 0x1_0000_0000 * (p - q);
    AddWrap(Wrap32(a) - Wrap32(b), p - q);
  }

  lemma AddWrap(x: int, q: int)
    ensures Wrap32(x + 0x1_0000_0000 * q) == Wrap32(x)
  {
  }

  lemma AddMultiple(x: int, q: int)
    ensures (x + SEQUENCE_LENGTH * q) % SEQUENCE_LENGTH == x % SEQUENCE_LENGTH
  {
  }

  // ---------- what an observed hop says about the clock ----------

  // A hop seen `index` slots after the first packet.
  datatype Hop = Hop(index: int, channel: nat)

  // The channel a receiver with few channels takes a channel for.
  function AliasedChannel(channel: Channel): Channel
  {
    (channel + 24) % 25 + 26
  }

  // The channels are taken for one of 25, from 26 to 50, that differs by a multiple of 25.
  lemma AliasedExactly(channel: Channel, other: Channel)
    ensures AliasedChannel(channel) == other <==> 26 <= other <= 50 && channel % 25 == other % 25
  {
  }

  function Observable(aliased: bool, channel: Channel): Channel
  {
    if aliased then AliasedChannel(channel) else channel
  }

  // The hopping sequence as a receiver sees it, and the low bits of the clock of the first packet.
  datatype View = View(sequence: seq<Channel>, aliased: bool, known: nat, first: nat) {
    predicate Valid()
    {
      |sequence| == SEQUENCE_LENGTH && known < 64
    }

    function At(i: int): Channel
      requires Valid()
    {
      Observable(aliased, sequence[i % SEQUENCE_LENGTH])
    }

    // Clock i of the first packet explains the first hop.
    predicate Starts(i: nat)
      requires Valid()
    {
      i < SEQUENCE_LENGTH && i % 64 == known && At(i) == first
    }

    // It also explains a later hop.
    predicate Explains(i: nat, hop: Hop)
      requires Valid()
    {
      At(i + hop.index) == hop.channel
    }

    ghost predicate ExplainsAll(i: nat, hops: seq<Hop>)
      requires Valid()
    {
      Starts(i) && forall k :: 0 <= k < |hops| ==> Explains(i, hops[k])
    }

    // The list of candidates is exactly the clocks that explain everything, in increasing order.
    ghost predicate Exact(candidates: seq<Word32>, hops: seq<Hop>)
      requires Valid()
    {
      && (forall m, n :: 0 <= m < n < |candidates| ==> candidates[m] < candidates[n])
      && (forall m :: 0 <= m < |candidates| ==> ExplainsAll(candidates[m], hops))
      && (forall i: nat :: ExplainsAll(i, hops) ==> i in candidates)
    }

    ghost predicate OnlyExplanation(clock: nat, hops: seq<Hop>)
      requires Valid()
    {
      ExplainsAll(clock, hops) && forall i: nat :: ExplainsAll(i, hops) ==> i == clock
    }

    // At some time exactly one clock explained the hops seen until then.
    ghost predicate OnceUnique(hops: seq<Hop>)
      requires Valid()
    {
      exists n: nat, clock: nat :: n <= |hops| && OnlyExplanation(clock, hops[..n])
    }

    // Several clocks explain all the hops.
    ghost predicate Ambiguous(hops: seq<Hop>)
      requires Valid()
    {
      exists i: nat, j: nat :: i != j && ExplainsAll(i, hops) && ExplainsAll(j, hops)
    }

    // No clock explains all the hops, and there never was exactly one.
    ghost predicate Contradicted(hops: seq<Hop>)
      requires Valid()
    {
      !OnceUnique(hops) && forall i: nat :: !ExplainsAll(i, hops)
    }
  }

  // ---------- what hops can lead to ----------

  lemma ExplainsPrefix(view: View, i: nat, hops: seq<Hop>, n: nat)
    requires view.Valid() && n <= |hops| && view.ExplainsAll(i, hops)
    ensures view.ExplainsAll(i, hops[..n])
  {
  }

  // Exactly one of three: a unique explanation at some time, several explanations, or none.
  lemma OneOutcome(view: View, hops: seq<Hop>)
    requires view.Valid()
    ensures view.OnceUnique(hops) ==> !view.Ambiguous(hops)
    ensures view.Contradicted(hops) <==> !view.OnceUnique(hops) && !view.Ambiguous(hops)
  {
    hide View.ExplainsAll;
    if view.OnceUnique(hops) && view.Ambiguous(hops) {
      var n: nat, clock: nat :| n <= |hops| && view.OnlyExplanation(clock, hops[..n]);
      var i: nat, j: nat :| i != j && view.ExplainsAll(i, hops) && view.ExplainsAll(j, hops);
      ExplainsPrefix(view, i, hops, n);
      ExplainsPrefix(view, j, hops, n);
    }
    if i: nat :| view.ExplainsAll(i, hops) && !view.Ambiguous(hops) {
      assert hops[..|hops|] == hops;
      assert view.OnlyExplanation(i, hops[..|hops|]);
    }
  }

  lemma SingleIsUnique(view: View, candidates: seq<Word32>, hops: seq<Hop>, n: nat)
    requires view.Valid() && n <= |hops| && view.Exact(candidates, hops[..n]) && |candidates| == 1
    ensures view.OnceUnique(hops)
  {
    hide View.ExplainsAll;
    assert view.OnlyExplanation(candidates[0], hops[..n]);
  }

  lemma SeveralAreAmbiguous(view: View, candidates: seq<Word32>, hops: seq<Hop>)
    requires view.Valid() && view.Exact(candidates, hops) && |candidates| > 1
    ensures view.Ambiguous(hops)
  {
    hide View.ExplainsAll;
    assert candidates[0] < candidates[1];
  }

  // The hop of the first packet itself explains nothing new.
  lemma FirstHopExplained(view: View, i: nat, hops: seq<Hop>)
    requires view.Valid() && hops != [] && hops[0] == Hop(0, view.first)
    ensures view.ExplainsAll(i, hops[..1]) <==> view.ExplainsAll(i, hops[..0])
  {
    hide View.At;
  }

  // When several clocks explained m hops, or when only the first hop has been used, and no clock
  // explains n hops, then the hops contradict each other.
  lemma NoneLeft(view: View, candidates: seq<Word32>, hops: seq<Hop>, m: nat, n: nat)
    requires view.Valid() && m <= n <= |hops| && n <= m + 1
    requires view.Exact(candidates, hops[..m]) && view.Exact([], hops[..n])
    requires |candidates| > 1 || (m == 0 && n == 1 && hops[0] == Hop(0, view.first))
    ensures view.Contradicted(hops)
  {
    hide View.ExplainsAll;
    forall k: nat, clock: nat | k <= |hops|
      ensures !view.OnlyExplanation(clock, hops[..k])
    {
      if k >= n {
        NoneBeyond(view, hops, n, k, clock);
      } else if |candidates| > 1 {
        SeveralBefore(view, candidates, hops, k, m, clock);
      } else {
        FirstHopExplained(view, clock, hops);
      }
    }
    forall i: nat
      ensures !view.ExplainsAll(i, hops)
    {
      assert hops[..|hops|] == hops;
      NoneBeyond(view, hops, n, |hops|, i);
    }
  }

  lemma NoneBeyond(view: View, hops: seq<Hop>, n: nat, k: nat, i: nat)
    requires view.Valid() && n <= k <= |hops| && view.Exact([], hops[..n])
    ensures !view.ExplainsAll(i, hops[..k])
  {
    assert hops[..k][..n] == hops[..n];
    if view.ExplainsAll(i, hops[..k]) {
      ExplainsPrefix(view, i, hops[..k], n);
    }
  }

  lemma SeveralBefore(view: View, candidates: seq<Word32>, hops: seq<Hop>, k: nat, m: nat, clock: nat)
    requires view.Valid() && k <= m <= |hops| && view.Exact(candidates, hops[..m]) && |candidates| > 1
    ensures !view.OnlyExplanation(clock, hops[..k])
  {
    hide View.ExplainsAll;
    assert hops[..m][..k] == hops[..k];
    ExplainsPrefix(view, candidates[0], hops[..m], k);
    ExplainsPrefix(view, candidates[1], hops[..m], k);
    assert candidates[0] < candidates[1];
  }

  // ---------- the initial list ----------

  // The clocks known, known + 64, ..., the first n of them, that explain the first hop.
  function InitialUpto(view: View, n: nat): (list: seq<Word32>)
    requires view.Valid() && 64 * n <= SEQUENCE_LENGTH
    ensures |list| <= n
  {
    if n == 0 then []
    else
      var i := view.known + 64 * (n - 1);
      InitialUpto(view, n - 1) + if view.At(i) == view.first then [i] else []
  }

  // A list of exactly the clocks below a limit that explain the first hop, in increasing order.
  ghost predicate Lists(view: View, list: seq<Word32>, limit: nat)
    requires view.Valid()
  {
    && (forall m, n :: 0 <= m < n < |list| ==> list[m] < list[n])
    && (forall m :: 0 <= m < |list| ==> view.Starts(list[m]) && list[m] < limit)
    && (forall i: nat :: view.Starts(i) && i < limit ==> i in list)
  }

  lemma OnlyKnownPlus(view: View, i: nat, n: nat)
    requires view.Valid() && view.Starts(i) && 64 * n <= i < 64 * (n + 1)
    ensures i == view.known + 64 * n
  {
    QuotientIs(i, 64, n, i - 64 * n);
  }

  lemma StartsWhenFirst(view: View, n: nat)
    requires view.Valid() && 64 * (n + 1) <= SEQUENCE_LENGTH
    ensures view.Starts(view.known + 64 * n) <==> view.At(view.known + 64 * n) == view.first
  {
    hide View.At;
    AddMultipleOf64(view.known, n);
  }

  lemma {:induction false} InitialElements(view: View, n: nat)
    requires view.Valid() && 64 * n <= SEQUENCE_LENGTH
    ensures Lists(view, InitialUpto(view, n), 64 * n)
  {
    hide View.At, View.Starts;
    if n > 0 {
      InitialElements(view, n - 1);
      var last, rest, list := view.known + 64 * (n - 1), InitialUpto(view, n - 1), InitialUpto(view, n);
      StartsWhenFirst(view, n - 1);
      assert list == if view.Starts(last) then rest + [last] else rest;
      forall i: nat | view.Starts(i) && i < 64 * n
        ensures i in list
      {
        if i >= 64 * (n - 1) {
          OnlyKnownPlus(view, i, n - 1);
        } else {
          assert i in rest;
        }
      }
    }
  }

  lemma InitialExact(view: View)
    requires view.Valid()
    ensures view.Exact(InitialUpto(view, SEQUENCE_LENGTH / 64), [])
  {
    InitialElements(view, SEQUENCE_LENGTH / 64);
    var list := InitialUpto(view, SEQUENCE_LENGTH / 64);
    forall i: nat | view.ExplainsAll(i, [])
      ensures i in list
    {
      assert view.Starts(i);
    }
  }

  // ---------- narrowing the list by one hop ----------

  function Winnowed(view: View, candidates: seq<Word32>, hop: Hop): (list: seq<Word32>)
    requires view.Valid()
    ensures |list| <= |candidates|
  {
    if candidates == [] then []
    else
      var i := candidates[|candidates| - 1];
      Winnowed(view, candidates[..|candidates| - 1], hop) + if view.Explains(i, hop) then [i] else []
  }

  lemma WinnowedNext(view: View, all: seq<Word32>, i: nat, hop: Hop)
    requires view.Valid() && i < |all|
    ensures Winnowed(view, all[..i + 1], hop)
            == Winnowed(view, all[..i], hop) + if view.Explains(all[i], hop) then [all[i]] else []
  {
    assert all[..i + 1][..i] == all[..i];
  }

  lemma {:induction false} WinnowedElements(view: View, candidates: seq<Word32>, hop: Hop)
    requires view.Valid() && forall m, n :: 0 <= m < n < |candidates| ==> candidates[m] < candidates[n]
    ensures var list := Winnowed(view, candidates, hop);
            && (forall m, n :: 0 <= m < n < |list| ==> list[m] < list[n])
            && (forall i :: i in list <==> i in candidates && view.Explains(i, hop))
  {
    if candidates != [] {
      var init, last := candidates[..|candidates| - 1], candidates[|candidates| - 1];
      WinnowedElements(view, init, hop);
      var rest, list := Winnowed(view, init, hop), Winnowed(view, candidates, hop);
      forall i
        ensures i in list <==> i in candidates && view.Explains(i, hop)
      {
        assert i in candidates <==> i in init || i == last;
      }
      forall m, n | 0 <= m < n < |list|
        ensures list[m] < list[n]
      {
        assert list[m] in rest;
        assert list[m] in init;
      }
    }
  }

  // Winnowing by a hop keeps the list exact, for the hop and everything before it.
  lemma WinnowedExact(view: View, candidates: seq<Word32>, hops: seq<Hop>, hop: Hop)
    requires view.Valid() && view.Exact(candidates, hops)
    ensures view.Exact(Winnowed(view, candidates, hop), hops + [hop])
  {
    WinnowedElements(view, candidates, hop);
    var list, more := Winnowed(view, candidates, hop), hops + [hop];
    forall m | 0 <= m < |list|
      ensures view.ExplainsAll(list[m], more)
    {
      assert list[m] in list;
      assert list[m] in candidates;
    }
    forall i: nat | view.ExplainsAll(i, more)
      ensures i in list
    {
      ExplainsFewer(view, i, hops, hop);
    }
  }

  lemma ExplainsFewer(view: View, i: nat, hops: seq<Hop>, hop: Hop)
    requires view.Valid() && view.ExplainsAll(i, hops + [hop])
    ensures view.ExplainsAll(i, hops) && view.Explains(i, hop)
  {
    var more := hops + [hop];
    assert more[|hops|] == hop;
    forall k | 0 <= k < |hops|
      ensures view.Explains(i, hops[k])
    {
      assert more[k] == hops[k];
    }
  }

  // Winnowing again by a hop that has been used removes nothing.
  lemma WinnowedAgain(view: View, candidates: seq<Word32>, hops: seq<Hop>, k: nat)
    requires view.Valid() && view.Exact(candidates, hops) && k < |hops|
    ensures Winnowed(view, candidates, hops[k]) == candidates
  {
    KeepsAll(view, candidates, hops[k]);
  }

  lemma {:induction false} KeepsAll(view: View, candidates: seq<Word32>, hop: Hop)
    requires view.Valid() && forall m :: 0 <= m < |candidates| ==> view.Explains(candidates[m], hop)
    ensures Winnowed(view, candidates, hop) == candidates
  {
    if candidates != [] {
      KeepsAll(view, candidates[..|candidates| - 1], hop);
    }
  }
}
