/** What the search recovers: with packets of one piconet, its clock is never lost and finally found. */
module Recovery {
  import opened HopKernel
  import opened ChannelMap
  import opened Patterns
  import opened HopReversal
  import opened HopCaches
  import opened HopSelection
  import opened Elimination
  import opened Piconets

  // The piconet with this address had this CLK1-27 at time first, and the packet was sent on the channel
  // that the specification selects for its clock then; a receiver with few channels sees another one.
  ghost predicate OnChannel(packet: Observed, aliased: bool, address: nat, clock: nat, first: Word32)
  {
    var sent := Selected(address % 268435456, 2 * ((clock + packet.clkn - first) % 134217728));
    packet.channel == if aliased then (sent + 24) % 25 + 26 else sent
  }

  lemma SameEntry(view: View, clock: nat, ticks: int)
    requires view.Valid() && clock < SEQUENCE_LENGTH
    ensures view.At(clock + Signed32(ticks)) == view.At(clock + ticks)
  {
    WrapKeepsIndex(clock, ticks);
    WrapKeepsRemainder(Wrap32(clock) + Signed32(ticks));
  }

  lemma TrueEntry(key: nat, now: nat)
    requires now < SEQUENCE_LENGTH
    ensures HopTable(PlainKernel(key))[now] == Selected(key % 268435456, 2 * now)
  {
    hide SingleHop, TableHop, Selected, AddressOf;
    TableRefinesKernel(PlainKernel(key), 2 * now);
    assert 2 * now / 2 == now;
    KernelSelects(PlainKernel(key), key % 268435456, 2 * now);
  }

  // With the right table the true clock explains a hop, although its time is kept in 32 bits.
  lemma TrueClockExplains(view: View, packet: Observed, key: nat, clock: nat, first: Word32)
    requires view.Valid() && clock < SEQUENCE_LENGTH && view.sequence == HopTable(PlainKernel(key))
    requires OnChannel(packet, view.aliased, key, clock, first)
    ensures view.At(clock + Signed32(packet.clkn - first)) == packet.channel
  {
    hide SingleHop, Selected, TableHop, HopTable, PlainKernel, Signed32;
    SameEntry(view, clock, packet.clkn - first);
    var now := (clock + packet.clkn - first) % SEQUENCE_LENGTH;
    TrueEntry(key, now);
  }

  // All these packets were sent by the piconet with this address and clock.
  ghost predicate AllOnChannel(seen: seq<Sighting>, aliased: bool, key: nat, clock: nat, first: Word32)
  {
    forall k :: 0 <= k < |seen| ==> OnChannel(seen[k].packet, aliased, key, clock, first)
  }

  lemma TrueClockExplainsAll(view: View, seen: seq<Sighting>, key: nat, clock: nat, first: Word32)
    requires view.Valid() && clock < SEQUENCE_LENGTH && clock % 64 == view.known && view.sequence == HopTable(PlainKernel(key))
    requires seen != [] && AllOnChannel(seen, view.aliased, key, clock, first)
    requires seen[0].packet.clkn == first && view.first == seen[0].packet.channel
    ensures view.ExplainsAll(clock, HopsSeen(seen, first))
  {
    hide Selected, HopTable, PlainKernel, Signed32, View.At;
    TrueClockExplains(view, seen[0].packet, key, clock, first);
    SignedZero();
    var hops := HopsSeen(seen, first);
    forall k | 0 <= k < |hops|
      ensures view.Explains(clock, hops[k])
    {
      TrueClockExplains(view, seen[k].packet, key, clock, first);
    }
  }

  // The packets come from the piconet with this UAP and clock, and the pattern that hop reversal
  // uses was generated for all channels.
  ghost predicate Sent(p: Piconet, seen: seq<Sighting>, uap: Word8, clock: nat)
    requires p.chosenFrom != [] && seen != []
    reads p, p.cache
  {
    && clock < SEQUENCE_LENGTH && Trustworthy(p.chosenFrom, p.firstPktTime, clock, uap)
    && seen[0].packet.clkn == p.firstPktTime && AllOnChannel(seen, p.aliased, uap * 16777216 + p.lap, clock, p.firstPktTime)
    && Key(p.uap, p.lap) in p.cache.channels && p.cache.channels[Key(p.uap, p.lap)] == AllChannels()
  }

  lemma PatternIsTrue(p: Piconet, seen: seq<Sighting>)
    requires p.CacheValid() && seen != [] && Key(p.uap, p.lap) in p.cache.entries
    requires p.cache.channels[Key(p.uap, p.lap)] == AllChannels()
    ensures p.PatternView(seen).sequence == HopTable(PlainKernel(Key(p.uap, p.lap)))
  {
    hide HopTable, Pattern, PlainKernel;
    PlainPattern(Key(p.uap, p.lap));
  }

  // With such packets elimination has found the true UAP, and the true clock explains every hop.
  lemma TrueClockFits(p: Piconet, seen: seq<Sighting>, uap: Word8, clock: nat)
    requires p.CacheValid() && p.Narrowed(seen) && Sent(p, seen, uap, clock)
    ensures p.uap == uap && p.PatternView(seen).ExplainsAll(clock, HopsSeen(seen, p.firstPktTime))
  {
    hide Trustworthy, Chosen, Piconet.CacheValid, HopTable, PlainKernel, AllOnChannel, HopsSeen;
    hide View.ExplainsAll, View.OnceUnique, View.Ambiguous, View.Contradicted;
    ChosenIsTrue(p.chosenFrom, p.firstPktTime, clock, uap, p.known);
    PatternIsTrue(p, seen);
    TrueClockExplainsAll(p.PatternView(seen), seen, Key(uap, p.lap), clock, p.firstPktTime);
  }

  // During hop reversal the UAP is the true one and the true clock is among the candidates.
  lemma TrueClockIsCandidate(p: Piconet, uap: Word8, clock: nat)
    requires p.Valid() && HOP_REVERSAL_INIT in p.flags && p.chosenFrom != [] && p.history != [] && Sent(p, p.history, uap, clock)
    ensures p.uap == uap && p.clockCandidates != null && p.numCandidates <= p.clockCandidates.Length
    ensures clock in p.clockCandidates[..p.numCandidates]
  {
    hide Piconet.CacheValid, Piconet.MapCounted, Piconet.EntriesExact, Piconet.Searching, Piconet.Narrowed, Piconet.ChosenAmong;
    hide Sent, HopsSeen, View.ExplainsAll, Piconet.PatternReady;
    p.NarrowedThroughout();
    TrueClockFits(p, p.history, uap, clock);
    p.SameView(p.TheView());
    p.RecordedMatch();
    p.HopsPrefix(p.applied, p.packetsObserved);
    ExplainsPrefix(p.TheView(), clock, HopsSeen(p.history, p.firstPktTime), p.applied);
  }

  // A piconet that is followed is followed with its true UAP and clock.
  lemma FollowedClockIsTrue(p: Piconet, uap: Word8, clock: nat)
    requires p.Valid() && FOLLOWING in p.flags && p.chosenFrom != [] && p.history != [] && Sent(p, p.history, uap, clock)
    ensures p.uap == uap && p.clkOffset == Signed32(2 * clock - 2 * p.firstPktTime)
  {
    hide Piconet.CacheValid, Piconet.MapCounted, Piconet.Recorded, Piconet.EntriesExact, Piconet.Searching, Piconet.CandidatesExact;
    hide Sent, Piconet.PatternReady, Piconet.ChosenAmong;
    TrueClockIsCandidate(p, uap, clock);
  }

  // It is followed as soon as the packets leave no other clock: the true clock is finally found.
  lemma FollowedWhenUnique(p: Piconet, uap: Word8, clock: nat)
    requires p.Valid() && HOP_REVERSAL_INIT in p.flags && p.chosenFrom != [] && p.history != [] && Sent(p, p.history, uap, clock)
    ensures p.Narrowed(p.history)
    ensures FOLLOWING in p.flags <==> p.PatternView(p.history).OnlyExplanation(clock, HopsSeen(p.history, p.firstPktTime))
  {
    hide Piconet.CacheValid, Piconet.MapCounted, Piconet.Recorded, Piconet.EntriesExact, Piconet.Phases;
    hide Sent, HopsSeen, View.ExplainsAll, Piconet.ChosenAmong;
    p.NarrowedThroughout();
    TrueClockFits(p, p.history, uap, clock);
    UniqueAtLast(p.PatternView(p.history), HopsSeen(p.history, p.firstPktTime), clock);
  }

  lemma UniqueAtLast(view: View, hops: seq<Hop>, clock: nat)
    requires view.Valid() && view.ExplainsAll(clock, hops)
    ensures view.OnceUnique(hops) <==> view.OnlyExplanation(clock, hops)
  {
    hide View.ExplainsAll;
    assert hops[..|hops|] == hops;
    if view.OnceUnique(hops) {
      var n: nat, only: nat :| n <= |hops| && view.OnlyExplanation(only, hops[..n]);
      forall i: nat | view.ExplainsAll(i, hops)
        ensures i == clock
      {
        ExplainsPrefix(view, clock, hops, n);
        ExplainsPrefix(view, i, hops, n);
      }
    }
  }

  // When hop reversal starts over after these packets, they do not come from a piconet, whatever its
  // UAP and clock, with headers from which elimination had to find its UAP and CLK1-6.
  lemma StartingOverIsJustified(p: Piconet, seen: seq<Sighting>, uap: Word8, clock: nat)
    requires p.CacheValid() && p.Narrowed(seen) && HOP_REVERSAL_INIT !in p.flags
    ensures !Sent(p, seen, uap, clock)
  {
    hide Sent, HopsSeen, View.ExplainsAll, View.OnceUnique;
    if Sent(p, seen, uap, clock) {
      TrueClockFits(p, seen, uap, clock);
    }
  }

  // With adaptive hopping, and the bank filled from the channel map, the kernel and the table name
  // used channels only; the table is right for all clocks just when 1 or 79 channels are used.
  lemma AfhPatternUsesMap(k: Kernel, map_: seq<bool>)
    requires k.Valid() && k.afh && |map_| == MAP_BITS && !map_[79]
    requires k.used == |SeenSet(map_)| && k.bank[..k.used] == BankUpto(map_, 79)
    ensures forall clock: nat :: SingleHop(k, clock) in SeenSet(map_)
    ensures forall t: nat :: TableHop(k, t) in SeenSet(map_)
    ensures (forall clock: nat :: clock < 2 * SEQUENCE_LENGTH ==> TableHop(k, clock / 2) == SingleHop(k, clock))
            <==> |SeenSet(map_)| == 1 || |SeenSet(map_)| == BT_NUM_CHANNELS
  {
    hide SingleHop, TableHop, SeenSet, BankUpto;
    BankIsMap(map_);
    forall clock: nat
      ensures SingleHop(k, clock) in SeenSet(map_)
    {
      AfhVisitsUsedChannels(k, clock, 0);
    }
    forall t: nat
      ensures TableHop(k, t) in SeenSet(map_)
    {
      AfhVisitsUsedChannels(k, 0, t);
    }
    forall i, j | 0 <= i < j < k.used
      ensures k.bank[i] != k.bank[j]
    {
      assert k.bank[..k.used][i] == k.bank[i] && k.bank[..k.used][j] == k.bank[j];
    }
    AfhTableExact(k);
  }
}
