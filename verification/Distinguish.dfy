/** The hops of a plain pattern tell any two clocks apart, so hops can single a clock out. */
module Distinguish {
  import opened Arithmetic
  import opened Bits
  import opened HopKernel
  import opened HopReversal

  // ---------- entries half the sequence apart ----------

  const HALF: nat := 67108864

  lemma HighBits(n: nat)
    ensures (n + 1048576) / 16384 % 32 == n / 16384 % 32
    ensures (n + 1048576) / 512 % 32 == n / 512 % 32
    ensures (n + 1048576) % 512 == n % 512
  {
    QuotientAndRemainder(n, 16384);
    QuotientAndRemainder(n, 512);
    QuotientIs(n + 1048576, 16384, n / 16384 + 64, n % 16384);
    QuotientIs(n + 1048576, 512, n / 512 + 2048, n % 512);
    SameLowBits(n / 16384, 2);
    SameLowBits(n / 512, 64);
  }

  lemma SameLowBits(m: nat, q: nat)
    ensures (m + 32 * q) % 32 == m % 32
  {
    QuotientAndRemainder(m, 32);
    QuotientIs(m + 32 * q, 32, m / 32 + q, m % 32);
  }

  // Clock bits 26 and 27 enter the frequency offset only.
  lemma SamePermutation(address: Address, n: nat, x: nat, y1: nat)
    ensures PermAt(address, n + 1048576, x, y1) == PermAt(address, n, x, y1)
  {
    HighBits(n);
  }

  // Clock bit 27 moves that by 65 channels.
  lemma OffsetMoves(n: nat)
    ensures var f := 16 * n % 79; 16 * (n + 1048576) % 79 == if f < 14 then f + 65 else f - 14
  {
    var f, q := 16 * n % 79, 16 * n / 79;
    QuotientAndRemainder(16 * n, 79);
    if f < 14 {
      QuotientIs(16 * (n + 1048576), 79, q + 212369, f + 65);
    } else {
      QuotientIs(16 * (n + 1048576), 79, q + 212370, f - 14);
    }
  }

  lemma HalfwayFields(t: nat)
    ensures (t + HALF) / 64 == t / 64 + 1048576 && (t + HALF) % 64 == t % 64 && (t + HALF) % 2 == t % 2
  {
    QuotientAndRemainder(t, 64);
    QuotientIs(t + HALF, 64, t / 64 + 1048576, t % 64);
  }

  // So entries half the sequence apart are always different channels.
  lemma HalfwayDiffers(k: Kernel, t: nat)
    requires k.Valid() && !k.afh && FullBank(k.bank)
    ensures TableHop(k, t + HALF) != TableHop(k, t)
  {
    hide PermAt, BankIndex, FullBank;
    var n, x, y1 := t / 64, t % 64 / 2, t % 2;
    HalfwayFields(t);
    SlotSum(k, n, x, y1);
    SlotSum(k, n + 1048576, x, y1);
    SamePermutation(k.address, n, x, y1);
    OffsetMoves(n);
    var f, f' := 16 * n % 79, 16 * (n + 1048576) % 79;
    var m := k.address.e + (PermAt(k.address, n, x, y1) + 32 * y1);
    assert k.address.e + f + (PermAt(k.address, n, x, y1) + 32 * y1) == m + f;
    assert k.address.e + f' + (PermAt(k.address, n, x, y1) + 32 * y1) == m + f';
    if f < f' {
      ResiduesDiffer(m, f, f', 79);
    } else {
      ResiduesDiffer(m, f', f, 79);
    }
    FullBankInjective(k.bank, BankIndex(k, n, x, y1), BankIndex(k, n + 1048576, x, y1));
  }

  // ---------- periods ----------

  // Going on by d entries, around the end of the sequence, changes nothing.
  ghost predicate Period(table: seq<Channel>, d: nat)
    requires |table| == SEQUENCE_LENGTH
  {
    forall t: nat :: At(table, t + d) == At(table, t)
  }

  ghost function At(table: seq<Channel>, t: nat): Channel
    requires |table| == SEQUENCE_LENGTH
  {
    table[t % SEQUENCE_LENGTH]
  }

  lemma PeriodDoubles(table: seq<Channel>, d: nat)
    requires |table| == SEQUENCE_LENGTH && Period(table, d)
    ensures Period(table, 2 * d)
  {
    hide At;
    forall t: nat
      ensures At(table, t + 2 * d) == At(table, t)
    {
      assert At(table, (t + d) + d) == At(table, t + d) && t + 2 * d == (t + d) + d;
    }
  }

  lemma HalfIsLeft(d: nat)
    requires d % SEQUENCE_LENGTH != 0 && 2 * d % SEQUENCE_LENGTH == 0
    ensures d % SEQUENCE_LENGTH == HALF
  {
    var q, r := d / SEQUENCE_LENGTH, d % SEQUENCE_LENGTH;
    QuotientAndRemainder(d, SEQUENCE_LENGTH);
    if r < HALF {
      QuotientIs(2 * d, SEQUENCE_LENGTH, 2 * q, 2 * r);
    } else {
      QuotientIs(2 * d, SEQUENCE_LENGTH, 2 * q + 1, 2 * r - SEQUENCE_LENGTH);
    }
  }

  lemma PeriodReduced(table: seq<Channel>, d: nat)
    requires |table| == SEQUENCE_LENGTH && Period(table, d)
    ensures Period(table, d % SEQUENCE_LENGTH)
  {
    forall t: nat
      ensures At(table, t + d % SEQUENCE_LENGTH) == At(table, t)
    {
      QuotientAndRemainder(d, SEQUENCE_LENGTH);
      AddMultiple(t + d % SEQUENCE_LENGTH, d / SEQUENCE_LENGTH);
      assert At(table, t + d) == At(table, t);
    }
  }

  // Doubling a period again and again comes to half the sequence.
  lemma {:induction false} PeriodReachesHalf(table: seq<Channel>, d: nat, n: nat)
    requires |table| == SEQUENCE_LENGTH && Period(table, d) && d % SEQUENCE_LENGTH != 0 && d * Pow2(n) % SEQUENCE_LENGTH == 0
    ensures Period(table, HALF)
    decreases n
  {
    hide Period;
    if 2 * d % SEQUENCE_LENGTH == 0 {
      HalfIsLeft(d);
      PeriodReduced(table, d);
    } else {
      assert n > 0;
      PeriodDoubles(table, d);
      assert 2 * d * Pow2(n - 1) == d * Pow2(n);
      PeriodReachesHalf(table, 2 * d, n - 1);
    }
  }

  lemma SequenceIsPower()
    ensures Pow2(27) == SEQUENCE_LENGTH
  {
    assert Pow2(9) == 512;
    assert Pow2(18) == 512 * 512;
  }

  lemma MultipleOfLength(d: nat)
    ensures d * SEQUENCE_LENGTH % SEQUENCE_LENGTH == 0
  {
    QuotientIs(d * SEQUENCE_LENGTH, SEQUENCE_LENGTH, d, 0);
  }

  lemma NoPeriod(k: Kernel, d: nat)
    requires k.Valid() && !k.afh && FullBank(k.bank) && 0 < d < SEQUENCE_LENGTH
    ensures !Period(HopTable(k), d)
  {
    hide TableHop, Period;
    var table := HopTable(k);
    if Period(table, d) {
      SequenceIsPower();
      MultipleOfLength(d);
      SmallRemainder(d, SEQUENCE_LENGTH);
      PeriodReachesHalf(table, d, 27);
      HalfwayDiffers(k, 0);
      NotHalf(table);
    }
  }

  lemma NotHalf(table: seq<Channel>)
    requires |table| == SEQUENCE_LENGTH && Period(table, HALF)
    ensures table[0 + HALF] == table[0]
  {
    assert At(table, 0 + HALF) == At(table, 0);
  }

  // After t hops the clocks i and j lead to different channels.
  ghost predicate Apart(table: seq<Channel>, i: nat, j: nat, t: nat)
    requires |table| == SEQUENCE_LENGTH
  {
    At(table, i + t) != At(table, j + t)
  }

  lemma ShiftBack(i: nat, u: nat) returns (t: nat, q: int)
    ensures t < SEQUENCE_LENGTH && u == i + t + SEQUENCE_LENGTH * q
  {
    t, q := (u - i) % SEQUENCE_LENGTH, (u - i) / SEQUENCE_LENGTH;
  }

  lemma NotThere(table: seq<Channel>, d: nat) returns (u: nat)
    requires |table| == SEQUENCE_LENGTH && !Period(table, d)
    ensures At(table, u + d) != At(table, u)
  {
    hide At;
    u :| At(table, u + d) != At(table, u);
  }

  lemma ApartSomewhere(table: seq<Channel>, i: nat, j: nat)
    requires |table| == SEQUENCE_LENGTH && i < j && !Period(table, j - i)
    ensures exists t: nat :: t < SEQUENCE_LENGTH && Apart(table, i, j, t)
  {
    hide At, Period;
    var u := NotThere(table, j - i);
    var t, q := ShiftBack(i, u);
    SameEntryAt(table, i + t, u, q);
    SameEntryAt(table, j + t, u + (j - i), q);
    assert Apart(table, i, j, t);
  }

  // For any two clocks there is a time at which the pattern without adaptive hopping tells them apart.
  lemma ClocksDiffer(k: Kernel, i: nat, j: nat)
    requires k.Valid() && !k.afh && FullBank(k.bank) && i < j < SEQUENCE_LENGTH
    ensures exists t: nat :: t < SEQUENCE_LENGTH && Apart(HopTable(k), i, j, t)
  {
    hide HopTable, At, FullBank, Kernel.Valid, Period;
    NoPeriod(k, j - i);
    ApartSomewhere(HopTable(k), i, j);
  }

  lemma SameEntryAt(table: seq<Channel>, a: nat, b: nat, q: int)
    requires |table| == SEQUENCE_LENGTH && b == a + SEQUENCE_LENGTH * q
    ensures At(table, a) == At(table, b)
  {
    AddMultiple(a, q);
  }

  // ---------- hops that single a clock out ----------

  // Every hop of one turn through the sequence, as the piconet with this clock makes them.
  ghost function AllHops(view: View, clock: nat): (hops: seq<Hop>)
    requires view.Valid()
    ensures |hops| == SEQUENCE_LENGTH && forall t :: 0 <= t < |hops| ==> hops[t] == Hop(t, view.At(clock + t))
  {
    seq(SEQUENCE_LENGTH, t requires 0 <= t < SEQUENCE_LENGTH => Hop(t, view.At(clock + t)))
  }

  ghost predicate PlainView(view: View, k: Kernel, clock: nat)
  {
    && view.Valid() && k.Valid() && !k.afh && FullBank(k.bank) && view.sequence == HopTable(k) && !view.aliased && view.Starts(clock)
  }

  lemma SeenAt(view: View, t: nat)
    requires view.Valid() && !view.aliased
    ensures view.At(t) == At(view.sequence, t)
  {
  }

  lemma OthersExcluded(view: View, k: Kernel, clock: nat, i: nat)
    requires PlainView(view, k, clock) && view.ExplainsAll(i, AllHops(view, clock))
    ensures i == clock
  {
    hide HopTable, FullBank, Kernel.Valid, View.At, At;
    var a, b := if i < clock then i else clock, if i < clock then clock else i;
    if i != clock {
      ClocksDiffer(k, a, b);
      var t: nat :| t < SEQUENCE_LENGTH && Apart(view.sequence, a, b, t);
      assert view.Explains(i, AllHops(view, clock)[t]);
      SeenAt(view, i + t);
      SeenAt(view, clock + t);
    }
  }

  // A clock is singled out by its own hops.
  lemma HopsSingleOut(view: View, k: Kernel, clock: nat)
    requires PlainView(view, k, clock)
    ensures view.OnlyExplanation(clock, AllHops(view, clock))
  {
    hide View.At, AllHops, HopTable;
    forall i: nat | view.ExplainsAll(i, AllHops(view, clock))
      ensures i == clock
    {
      OthersExcluded(view, k, clock, i);
    }
    var hops := AllHops(view, clock);
    forall t | 0 <= t < |hops|
      ensures view.Explains(clock, hops[t])
    {
      OwnHop(view, clock, t);
    }
  }

  lemma OwnHop(view: View, clock: nat, t: nat)
    requires view.Valid() && t < SEQUENCE_LENGTH
    ensures view.Explains(clock, AllHops(view, clock)[t])
  {
  }

  lemma FirstHopAt(view: View, i: nat, channel: nat)
    requires view.Valid()
    ensures view.Explains(i, Hop(0, channel)) <==> view.At(i) == channel
  {
  }

  // With one more hop, on another channel, no clock explains them all, although one was singled out before.
  lemma SingledOutThenContradicted(view: View, k: Kernel, clock: nat, channel: nat)
    requires PlainView(view, k, clock) && channel != view.At(clock)
    ensures var hops := AllHops(view, clock) + [Hop(0, channel)];
            view.OnceUnique(hops) && forall i: nat :: !view.ExplainsAll(i, hops)
  {
    hide View.At, AllHops, View.Starts, HopTable, FullBank, Kernel.Valid;
    var all, last := AllHops(view, clock), Hop(0, channel);
    var hops := all + [last];
    HopsSingleOut(view, k, clock);
    assert hops[..|all|] == all;
    assert view.OnlyExplanation(clock, hops[..|all|]);
    FirstHopAt(view, clock, channel);
    forall i: nat
      ensures !view.ExplainsAll(i, hops)
    {
      if view.ExplainsAll(i, hops) {
        ExplainsFewer(view, i, all, last);
      }
    }
  }
}
