/** A piconet under observation: its channel map, its hopping pattern, and the search for its UAP and clock. */
module Piconets {
  import opened Wrappers
  import Bits
  import Fec
  import opened Arithmetic
  import opened HopKernel
  import opened ChannelMap
  import opened Patterns
  import opened HopReversal
  import opened HopCaches
  import opened Elimination
  import opened Packets

  // Flags of a piconet, besides those that packets have too.
  const LAP_VALID := 3
  const HOP_REVERSAL_INIT := 9
  const GOT_FIRST_PACKET := 10
  const IS_AFH := 11
  const LOOKS_LIKE_AFH := 12
  const IS_ALIASED := 13
  const FOLLOWING := 14

  const MAX_PATTERN_LENGTH := 1000

  function WithFlag(flags: set<nat>, flag: nat, value: bool): (r: set<nat>)
    ensures flag in r <==> value
    ensures forall other :: other != flag ==> (other in r <==> other in flags)
  {
    if value then flags + {flag} else flags - {flag}
  }

  // The flags after starting over: everything found is forgotten, and adaptive hopping is assumed
  // from now on just when it has been suspected.
  function AfterReset(flags: set<nat>): set<nat>
  {
    WithFlag(flags - {GOT_FIRST_PACKET, HOP_REVERSAL_INIT, UAP_VALID, CLK6_VALID, CLK27_VALID}, IS_AFH, LOOKS_LIKE_AFH in flags)
  }

  // By the numbers of the flags: 2, 4, 5, 9 and 10 are cleared, and 11 becomes what 12 is.
  lemma ResetInNumbers(flags: set<nat>, flag: nat)
    ensures flag in AfterReset(flags) <==> if flag == 11 then 12 in flags else flag in flags && flag !in {2, 4, 5, 9, 10}
  {
  }

  // The flags when hop reversal starts.
  function WhileReversing(flags: set<nat>, markAliased: bool): (r: set<nat>)
    ensures HOP_REVERSAL_INIT in r && CLK27_VALID !in r
    ensures forall other :: other != HOP_REVERSAL_INIT && other != CLK27_VALID && other != IS_ALIASED ==> (other in r <==> other in flags)
  {
    WithFlag(flags + {HOP_REVERSAL_INIT} - {CLK27_VALID}, IS_ALIASED, markAliased)
  }

  // The flags once the UAP and CLK1-6 are known; a check that succeeds leaves the first packet unmarked.
  ghost predicate FoundFlags(before: set<nat>, flags: set<nat>)
  {
    || flags == before + {CLK6_VALID, UAP_VALID}
    || flags == before + {CLK6_VALID, UAP_VALID, GOT_FIRST_PACKET}
  }

  // The hops of these packets, with times counted from the first one.
  ghost function HopsSeen(seen: seq<Sighting>, first: Word32): (hops: seq<Hop>)
    ensures |hops| == |seen|
  {
    seq(|seen|, k requires 0 <= k < |seen| => Hop(Signed32(seen[k].packet.clkn - first), seen[k].packet.channel))
  }

  // What the use of a packet depends on.
  datatype Snapshot = Snapshot(flags: set<nat>, uap: Word8, packetsObserved: nat, clkOffset: Int32, upToDate: bool,
                               history: seq<Sighting>, start: nat) {
    ghost function Sighted(packet: Observed): Sighting
    {
      Sighting(packet, if UAP_VALID in flags then Some(uap) else None)
    }

    // The packets seen since the first one, with this one added.
    ghost function SeenWith(packet: Observed): (seen: seq<Sighting>)
      ensures seen != [] && seen[|seen| - 1] == Sighted(packet)
    {
      (if GOT_FIRST_PACKET in flags then history else []) + [Sighted(packet)]
    }

    // By the numbers of the flags: a UAP is known when flag 2 is set, and a first packet when flag 10 is.
    lemma SeenInNumbers(packet: Observed)
      ensures SeenWith(packet) == (if 10 in flags then history else []) + [Sighting(packet, if 2 in flags then Some(uap) else None)]
    {
    }

    // Where the packets seen since the first one begin, once another one is added.
    ghost function NextStart(): nat
    {
      if GOT_FIRST_PACKET in flags then start else packetsObserved
    }

    // With this packet elimination confirms the UAP that is assumed, and finds CLK1-6.
    ghost predicate Confirms(packet: Observed, first: Word32)
    {
      && uap != 0 && CLK6_VALID !in flags && packetsObserved < 1000
      && exists clock: nat :: Chosen(SeenWith(packet), first, clock)
    }
  }

  // Hop k came right after hop k - 1 on the same channel.
  ghost predicate Repeats(hops: seq<Hop>, k: nat)
    requires k < |hops|
  {
    k > 0 && hops[k].index == hops[k - 1].index + 1 && hops[k].channel == hops[k - 1].channel
  }

  // One of the hops from `from` up to `upto` repeats a channel; hop 0 may seem to.
  ghost predicate AnyRepeats(hops: seq<Hop>, from: nat, upto: nat, seeming: bool)
    requires upto <= |hops|
    decreases upto
  {
    from < upto && (AnyRepeats(hops, from, upto - 1, seeming) || Repeats(hops, upto - 1) || (seeming && upto == 1))
  }

  // Two hops in a row on one channel, one slot apart; hop 0 has none before it.
  lemma {:induction false} AnyRepeatsExactly(hops: seq<Hop>, from: nat, upto: nat, seeming: bool)
    requires upto <= |hops|
    ensures AnyRepeats(hops, from, upto, seeming)
            <==> exists k :: from <= k < upto
                             && if k == 0 then seeming
                                else hops[k].index - hops[k - 1].index == 1 && hops[k].channel == hops[k - 1].channel
    decreases upto
  {
    if from < upto {
      AnyRepeatsExactly(hops, from, upto - 1, seeming);
    }
  }

  // The flags after winnowing: with no candidate left it has started over.
  function FlagsAfterWinnow(flags: set<nat>, startedOver: bool, found: bool, looksLikeAfh: bool): set<nat>
  {
    var noted := WithFlag(flags, LOOKS_LIKE_AFH, looksLikeAfh);
    if startedOver then AfterReset(noted) else WithFlag(noted, CLK27_VALID, found)
  }

  // The hops that were remembered.
  ghost function HopsOf(indices: seq<Int32>, channels: seq<Word8>): (hops: seq<Hop>)
    requires |indices| == |channels|
    ensures |hops| == |indices|
  {
    seq(|indices|, k requires 0 <= k < |indices| => Hop(indices[k], channels[k]))
  }

  lemma BankCount(map_: seq<bool>)
    requires |map_| == MAP_BITS && !map_[79]
    ensures |BankUpto(map_, 79)| == |SeenSet(map_)|
  {
    BankIsMap(map_);
  }

  class Piconet {
    var flags: set<nat>
    var aliased: bool
    const afhMap: array<bool>
    var usedChannels: nat
    var lap: Word24
    var uap: Word8
    var address: Address
    const bank: array<RadioChannel>
    var sequence: array?<Channel>
    var clockCandidates: array?<Word32>
    var numCandidates: nat
    var packetsObserved: nat
    var totalPacketsObserved: nat
    var winnowed: nat
    const clock6Candidates: array<int>
    const patternIndices: array<Int32>
    const patternChannels: array<Word8>
    var clkOffset: Int32
    var firstPktTime: Word32
    const cache: HopCache

    // The packets seen since the first one, and how many had been recorded before that.
    ghost var history: seq<Sighting>
    ghost var start: nat

    // No check has succeeded since the first packet, so the 64 entries are up to date.
    ghost var exact: bool

    // The low clock bits that hop reversal started from, and the number of hops used by it so far.
    ghost var known: nat
    ghost var applied: nat

    // The packets that these low bits were chosen from.
    ghost var chosenFrom: seq<Sighting>

    constructor (cache: HopCache)
      requires cache.Valid() && cache.Right()
      ensures Valid() && this.cache == cache
      ensures flags == {} && !aliased && uap == 0 && lap == 0 && SeenSet(afhMap[..]) == {} && history == []
      ensures fresh(afhMap) && fresh(bank) && fresh(clock6Candidates) && fresh(patternIndices) && fresh(patternChannels)
    {
      hide HopCache.Valid, HopCache.Right, Valid;
      this.cache := cache;
      flags, aliased, usedChannels, lap, uap, address := {}, false, 0, 0, 0, Address(0, 0, 0, 0, 0);
      afhMap := new bool[MAP_BITS](_ => false);
      bank := new RadioChannel[BT_NUM_CHANNELS](_ => 0);
      sequence, clockCandidates, numCandidates := null, null, 0;
      packetsObserved, totalPacketsObserved, winnowed := 0, 0, 0;
      clock6Candidates := new int[64](_ => 0);
      patternIndices := new Int32[MAX_PATTERN_LENGTH](_ => 0);
      patternChannels := new Word8[MAX_PATTERN_LENGTH](_ => 0);
      clkOffset, firstPktTime := 0, 0;
      history, start, exact, known, applied, chosenFrom := [], 0, false, 0, 0, [];
      new;
      assert SeenSet(afhMap[..]) == {};
      NewIsValid();
    }

    lemma NewIsValid()
      requires Shape() && CacheValid() && MapCounted() && flags == {} && uap == 0 && history == [] && start == packetsObserved == 0
      ensures Valid()
    {
      hide HopCache.Valid, HopCache.Right, MapCounted;
    }

    ghost predicate Shape()
    {
      && afhMap.Length == MAP_BITS && bank.Length == BT_NUM_CHANNELS && clock6Candidates.Length == 64
      && patternIndices.Length == MAX_PATTERN_LENGTH && patternChannels.Length == MAX_PATTERN_LENGTH
    }

    // ---------- the channel map ----------

    // The number of used channels is the size of the map; bit 79 belongs to no channel.
    ghost predicate MapCounted()
      reads `usedChannels, afhMap
      requires Shape()
    {
      !afhMap[79] && usedChannels == |SeenSet(afhMap[..])|
    }

    method SetChannelSeen(channel: RadioChannel) returns (changed: bool)
      requires Shape() && MapCounted()
      modifies `usedChannels, afhMap
      ensures MapCounted() && SeenSet(afhMap[..]) == old(SeenSet(afhMap[..])) + {channel}
      ensures changed == !old(afhMap[channel])
    {
      ghost var before := afhMap[..];
      SeenSetUpdate(before, channel, true);
      if !afhMap[channel] {
        afhMap[channel] := true;
        assert afhMap[..] == before[channel := true];
        usedChannels := usedChannels + 1;
        return true;
      }
      assert before == before[channel := true];
      return false;
    }

    method ClearChannelSeen(channel: RadioChannel) returns (changed: bool)
      requires Shape() && MapCounted()
      modifies `usedChannels, afhMap
      ensures MapCounted() && SeenSet(afhMap[..]) == old(SeenSet(afhMap[..])) - {channel}
      ensures changed == old(afhMap[channel])
    {
      ghost var before := afhMap[..];
      SeenSetUpdate(before, channel, false);
      if afhMap[channel] {
        afhMap[channel] := false;
        assert afhMap[..] == before[channel := false];
        usedChannels := usedChannels - 1;
        return true;
      }
      assert before == before[channel := false];
      return false;
    }

    // Channels beyond the last one count as seen.
    function GetChannelSeen(channel: Word8): bool
      reads afhMap
      requires Shape()
    {
      channel < BT_NUM_CHANNELS ==> afhMap[channel]
    }

    // The loop over the ten bytes that replaces the map.
    method ReplaceMap(newMap: seq<bool>)
      requires Shape() && |newMap| == MAP_BITS && !newMap[79]
      modifies `usedChannels, afhMap
      ensures afhMap[..] == newMap && MapCounted()
    {
      usedChannels := 0;
      for i := 0 to 10
        invariant afhMap[..8 * i] == newMap[..8 * i] && usedChannels == CountBits(newMap[..8 * i])
      {
        forall c | 8 * i <= c < 8 * (i + 1) {
          afhMap[c] := newMap[c];
        }
        var count := CountBitsOf(newMap[8 * i..8 * (i + 1)]);
        CountAppend(newMap[..8 * i], newMap[8 * i..8 * (i + 1)]);
        assert newMap[..8 * (i + 1)] == newMap[..8 * i] + newMap[8 * i..8 * (i + 1)];
        usedChannels := usedChannels + count;
      }
      assert afhMap[..] == afhMap[..80] && newMap == newMap[..80];
      CountIsSetSize(newMap);
    }

    // ---------- the hopping pattern ----------

    // Fills the register bank.
    method Precalc()
      requires Shape() && MapCounted()
      modifies bank
      ensures IS_AFH in flags ==> usedChannels <= BT_NUM_CHANNELS && bank[..usedChannels] == BankUpto(afhMap[..], 79)
      ensures IS_AFH !in flags ==> FullBank(bank[..])
    {
      ghost var seen := afhMap[..];
      var j := 0;
      for i := 0 to BT_NUM_CHANNELS
        invariant j <= i
        invariant IS_AFH in flags ==> bank[..j] == BankUpto(seen, i)
        invariant IS_AFH !in flags ==> forall k :: 0 <= k < i ==> bank[k] == k * 2 % BT_NUM_CHANNELS
      {
        if IS_AFH in flags {
          var chan := i * 2 % BT_NUM_CHANNELS;
          if GetChannelSeen(chan) {
            bank[j] := chan;
            j := j + 1;
          }
        } else {
          bank[i] := i * 2 % BT_NUM_CHANNELS;
        }
      }
      BankCount(seen);
    }

    // The channels to hop over.
    ghost function ChannelsInUse(): set<nat>
      reads `flags, afhMap
    {
      if IS_AFH in flags then SeenSet(afhMap[..]) else AllChannels()
    }

    lemma InUseAreChannels()
      requires Shape() && MapCounted() && usedChannels >= 1
      ensures IsChannelSet(ChannelsInUse())
    {
      MapOfSeen(afhMap[..]);
      assert 0 in AllChannels();
    }

    lemma GeneratesPattern(k: Kernel)
      requires Shape() && MapCounted() && usedChannels >= 1 && k.Valid() && k.address == AddressOf(Key(uap, lap) % 268435456)
      requires k.afh == (IS_AFH in flags) && k.used == usedChannels
      requires if IS_AFH in flags then k.bank[..usedChannels] == BankUpto(afhMap[..], 79) else FullBank(k.bank)
      ensures IsChannelSet(ChannelsInUse()) && HopTable(k) == Pattern(Key(uap, lap), ChannelsInUse())
    {
      hide HopTable, BankUpto, FullBank, AddressOf;
      InUseAreChannels();
      MapOfSeen(afhMap[..]);
      PatternIsTable(Key(uap, lap), ChannelsInUse(), k);
    }

    ghost predicate CacheValid()
      reads cache, cache.perms, cache.perms.table, set key | key in cache.entries :: cache.entries[key]
    {
      cache.Valid() && cache.Right()
    }

    method GenHopPattern()
      requires Shape() && MapCounted() && usedChannels >= 1 && cache.Valid()
      modifies `sequence, `address, bank, cache.perms, cache.perms.table
      ensures cache.perms.Valid() && fresh(sequence) && sequence.Length == SEQUENCE_LENGTH
      ensures IsChannelSet(ChannelsInUse()) && sequence[..] == Pattern(Key(uap, lap), ChannelsInUse())
    {
      hide HopTable, AddressOf, FullBank, BankUpto, Pattern;
      var table := new Channel[SEQUENCE_LENGTH](_ => 0);
      sequence := table;
      Precalc();
      address := AddressPrecalc(Key(uap, lap) % 268435456);
      var k := Kernel(address, IS_AFH in flags, usedChannels, bank[..]);
      GenHops(k, cache.perms, table);
      GeneratesPattern(k);
    }

    // Takes the pattern from the cache, or generates it and adds it to the cache.  The key of the
    // cache says nothing about adaptive hopping: the pattern found is the one wanted exactly when it
    // was generated for the same channels.
    method GetHopPattern()
      requires Shape() && MapCounted() && usedChannels >= 1 && CacheValid()
      modifies `sequence, `address, bank, cache, cache.perms, cache.perms.table
      ensures CacheValid() && IsChannelSet(ChannelsInUse())
      ensures sequence != null && sequence.Length == SEQUENCE_LENGTH && Key(uap, lap) in cache.entries && cache.entries[Key(uap, lap)] == sequence
      ensures if Key(uap, lap) in old(cache.entries) then cache.entries == old(cache.entries) && cache.channels == old(cache.channels)
              else && fresh(sequence) && cache.entries == old(cache.entries)[Key(uap, lap) := sequence]
                   && cache.channels == old(cache.channels)[Key(uap, lap) := ChannelsInUse()]
      ensures sequence[..] == Pattern(Key(uap, lap), ChannelsInUse())
              <==> Key(uap, lap) in old(cache.entries) ==> old(cache.channels)[Key(uap, lap)] == ChannelsInUse()
    {
      hide HopTable, Pattern;
      InUseAreChannels();
      var key := Key(uap, lap);
      if key !in cache.entries {
        GenHopPattern();
        UseGenerated(key);
      } else {
        sequence := cache.entries[key];
        PatternsEqual(key, cache.channels[key], ChannelsInUse());
      }
    }

    method UseGenerated(key: nat)
      requires cache.Valid() && cache.Right() && key !in cache.entries && IsChannelSet(ChannelsInUse())
      requires sequence != null && sequence.Length == SEQUENCE_LENGTH && sequence[..] == Pattern(key, ChannelsInUse())
      modifies cache
      ensures cache.Valid() && cache.Right()
      ensures cache.entries == old(cache.entries)[key := sequence] && cache.channels == old(cache.channels)[key := ChannelsInUse()]
    {
      hide HopTable, Pattern, IsChannelSet, ChannelsInUse;
      cache.entries := cache.entries[key := sequence];
      cache.channels := cache.channels[key := ChannelsInUse()];
    }

    // ---------- hop reversal ----------

    // The hopping sequence, and what hop reversal started from.
    ghost function TheView(): (view: View)
      requires Shape() && sequence != null
      reads `sequence, `aliased, `known, sequence, patternChannels
    {
      View(sequence[..], aliased, known, patternChannels[0])
    }

    ghost function Hops(n: nat): (hops: seq<Hop>)
      requires Shape() && n <= MAX_PATTERN_LENGTH
      reads patternIndices, patternChannels
      ensures |hops| == n
    {
      HopsOf(patternIndices[..n], patternChannels[..n])
    }

    ghost predicate ViewReady()
      reads `sequence, `known
    {
      sequence != null && sequence.Length == SEQUENCE_LENGTH && known < 64
    }

    // The pattern in use, which is the one the cache has for this address.
    ghost predicate PatternReady()
      requires Shape()
      reads `sequence, `known, `uap, `lap, sequence, cache
    {
      && ViewReady()
      && Key(uap, lap) in cache.entries && cache.entries[Key(uap, lap)] == sequence
    }

    // The first numCandidates candidates are exactly the clocks that explain every hop applied.
    ghost predicate CandidatesExact()
      requires Shape()
      reads `sequence, `aliased, `known, `applied, `clockCandidates, `numCandidates, sequence, clockCandidates, patternIndices, patternChannels
    {
      && ViewReady()
      && clockCandidates != null && numCandidates <= clockCandidates.Length && applied <= MAX_PATTERN_LENGTH
      && TheView().Exact(clockCandidates[..numCandidates], Hops(applied))
    }

    // CLK1-27 is valid only with one candidate left, and then the clock offset follows from it.
    ghost predicate ClockFound()
      reads `flags, `clockCandidates, `numCandidates, `clkOffset, `firstPktTime, clockCandidates
    {
      CLK27_VALID in flags ==>
        && clockCandidates != null && numCandidates == 1 <= clockCandidates.Length
        && clkOffset == Signed32(2 * clockCandidates[0] - 2 * firstPktTime)
    }

    // The clock has not been found: several candidates are left, or no hop has been used yet.
    ghost predicate Narrowing()
      requires Shape()
      reads `flags, `applied, `numCandidates, patternIndices
    {
      CLK27_VALID !in flags && (applied > 0 ==> numCandidates > 1) && patternIndices[0] == 0
    }

    lemma HopsPrefix(m: nat, n: nat)
      requires Shape() && m <= n <= MAX_PATTERN_LENGTH
      ensures Hops(n)[..m] == Hops(m)
    {
    }

    // CLK1-6 of the piconet at the time of the first packet, according to the offset found.
    function ClockOfFirst(): (clock: nat)
      reads `clkOffset, `firstPktTime
      ensures clock < 64
    {
      (clkOffset + firstPktTime) % 64
    }

    function ObservableAt(i: nat): Channel
      requires sequence != null && i < sequence.Length
      reads `sequence, `aliased, sequence
    {
      if aliased then AliasedChannel(sequence[i]) else sequence[i]
    }

    // Lists the clocks that agree with the known bits and explain the first hop.
    method InitCandidates(channel: Word8, knownClockBits: nat, ghost view: View) returns (count: nat)
      requires Shape() && sequence != null && sequence.Length == SEQUENCE_LENGTH && knownClockBits < 64
      requires view == View(sequence[..], aliased, knownClockBits, channel)
      requires clockCandidates != null && clockCandidates.Length >= SEQUENCE_LENGTH / 64
      modifies clockCandidates
      ensures count <= SEQUENCE_LENGTH / 64 && clockCandidates[..count] == InitialUpto(view, SEQUENCE_LENGTH / 64)
    {
      count := 0;
      var i := knownClockBits;
      ghost var n := 0;
      while i < SEQUENCE_LENGTH
        invariant i == knownClockBits + 64 * n && n <= SEQUENCE_LENGTH / 64
        invariant count <= n && clockCandidates[..count] == InitialUpto(view, n)
      {
        assert view.At(i) == ObservableAt(i);
        if ObservableAt(i) == channel {
          clockCandidates[count] := i;
          count := count + 1;
        }
        i := i + 0x40;
        n := n + 1;
      }
    }

    // Makes the first list of candidates; the packet seen first is hop number 0.
    method StartCandidates()
      requires Shape() && sequence != null && sequence.Length == SEQUENCE_LENGTH
      modifies `clockCandidates, `numCandidates, `winnowed, `known, `applied
      ensures CandidatesExact() && fresh(clockCandidates)
      ensures known == ClockOfFirst() && winnowed == applied == 0
    {
      hide View.Exact, View.At, InitialUpto, AliasedChannel, Signed32;
      var candidates := new Word32[SEQUENCE_LENGTH / 64](_ => 0);
      clockCandidates := candidates;
      var clock := Wrap32(clkOffset + firstPktTime) % 64;
      WrapMod64(clkOffset + firstPktTime);
      known := clock;
      numCandidates := InitCandidates(patternChannels[0], clock, TheView());
      InitialExact(TheView());
      winnowed := 0;
      applied := 0;
      assert Hops(0) == [];
    }

    method InitHopReversal(markAliased: bool) returns (count: nat)
      requires Shape() && MapCounted() && usedChannels >= 1 && CacheValid()
      modifies `sequence, `address, bank, cache, cache.perms, cache.perms.table
      modifies `clockCandidates, `numCandidates, `winnowed, `flags, `known, `applied
      ensures CacheValid() && PatternReady() && ViewReady()
      ensures CandidatesExact() && ClockFound()
      ensures known == ClockOfFirst() && winnowed == applied == 0 && count == numCandidates
      ensures flags == WhileReversing(old(flags), markAliased)
      ensures fresh(clockCandidates)
    {
      hide View.Exact, CacheValid, MapCounted, CandidatesExact, Pattern, IsChannelSet, ChannelsInUse;
      GetHopPattern();
      StartCandidates();
      flags := WhileReversing(flags, markAliased);
      count := numCandidates;
    }

    // Starts over.
    method Reset()
      modifies `flags, `sequence, `packetsObserved, `history, `start
      ensures flags == AfterReset(old(flags)) && packetsObserved == 0 && history == [] && start == 0
      ensures sequence == if HOP_REVERSAL_INIT in old(flags) then null else old(sequence)
    {
      if HOP_REVERSAL_INIT in flags {
        sequence := null;
      }
      var looksLikeAfh := LOOKS_LIKE_AFH in flags;
      flags := flags - {GOT_FIRST_PACKET, HOP_REVERSAL_INIT, UAP_VALID, CLK6_VALID, CLK27_VALID};
      packetsObserved := 0;
      flags := WithFlag(flags, IS_AFH, looksLikeAfh);
      history, start := [], 0;
    }

    // The hop that a candidate leads to is compared with the one that was seen.
    method Matches(candidate: Word32, offset: Int32, channel: Word8, ghost view: View) returns (matches: bool)
      requires Shape() && ViewReady() && view == TheView()
      ensures matches == view.Explains(candidate, Hop(offset, channel))
    {
      WrapKeepsRemainder(candidate + offset);
      var observable := ObservableAt(Wrap32(candidate + offset) % SEQUENCE_LENGTH);
      matches := observable == channel;
    }

    // Narrows the list of candidates in place by one hop.
    method FilterCandidates(offset: Int32, channel: Word8, ghost view: View, ghost all: seq<Word32>) returns (newCount: nat)
      requires Shape() && ViewReady() && view == TheView()
      requires clockCandidates != null && numCandidates <= clockCandidates.Length && all == clockCandidates[..numCandidates]
      modifies clockCandidates
      ensures newCount <= numCandidates && clockCandidates[..newCount] == Winnowed(view, all, Hop(offset, channel))
    {
      hide View.Explains;
      newCount := 0;
      for i := 0 to numCandidates
        invariant newCount <= i && forall m :: i <= m < numCandidates ==> clockCandidates[m] == all[m]
        invariant clockCandidates[..newCount] == Winnowed(view, all[..i], Hop(offset, channel))
      {
        WinnowedNext(view, all, i, Hop(offset, channel));
        var matches := Matches(clockCandidates[i], offset, channel, view);
        if matches {
          clockCandidates[newCount] := clockCandidates[i];
          newCount := newCount + 1;
        }
      }
      assert all[..numCandidates] == all;
    }

    // What winnowing leaves: with candidates the search goes on, and a single one is the clock;
    // without any it has started over.
    twostate predicate Settled()
      requires Shape()
      reads this, sequence, clockCandidates, patternIndices, patternChannels
    {
      if numCandidates > 0 then
        && CandidatesExact() && ClockFound() && sequence == old(sequence) && packetsObserved == old(packetsObserved)
        && history == old(history) && start == old(start)
        && flags == (if numCandidates == 1 then old(flags) + {CLK27_VALID} else old(flags))
        && (numCandidates > 1 ==> clkOffset == old(clkOffset))
      else
        && flags == AfterReset(old(flags)) && sequence == null && packetsObserved == 0 && history == [] && start == 0
        && clkOffset == old(clkOffset)
    }

    // Accepts a shorter list of candidates.
    method Settle(newCount: nat, ghost newApplied: nat)
      requires Shape() && ViewReady() && newApplied <= MAX_PATTERN_LENGTH
      requires clockCandidates != null && newCount <= clockCandidates.Length
      requires TheView().Exact(clockCandidates[..newCount], Hops(newApplied))
      requires HOP_REVERSAL_INIT in flags && (CLK27_VALID in flags ==> newCount <= 1)
      modifies `clkOffset, `flags, `sequence, `packetsObserved, `history, `start, `numCandidates, `applied
      ensures numCandidates == newCount && applied == newApplied && Settled()
    {
      hide View.Exact;
      numCandidates := newCount;
      applied := newApplied;
      if newCount == 1 {
        var clock: int, first: int := clockCandidates[0], firstPktTime;
        clkOffset := Signed32(Wrap32(2 * clock) - Wrap32(2 * first));
        WrapDifference(2 * clock, 2 * first);
        flags := flags + {CLK27_VALID};
      } else if newCount == 0 {
        Reset();
      }
    }

    // Narrows the list by hop k.
    method ChannelWinnow(offset: Int32, channel: Word8, ghost k: nat) returns (newCount: nat)
      requires Shape() && CandidatesExact() && HOP_REVERSAL_INIT in flags && ClockFound()
      requires k <= applied && k < MAX_PATTERN_LENGTH && offset == patternIndices[k] && channel == patternChannels[k]
      modifies clockCandidates, `numCandidates, `clkOffset, `applied
      modifies `flags, `sequence, `packetsObserved, `history, `start
      ensures newCount == numCandidates <= old(numCandidates) && Settled()
      ensures applied == if k < old(applied) then old(applied) else k + 1
      ensures newCount == 0 ==> old(TheView()).Exact([], Hops(applied))
    {
      ghost var view, all := TheView(), clockCandidates[..numCandidates];
      newCount := FilterCandidates(offset, channel, view, all);
      NarrowedExact(view, all, k);
      assert newCount == 0 ==> clockCandidates[..newCount] == [];
      Settle(newCount, if k < applied then applied else k + 1);
    }

    // Winnowing by the next hop extends the hops explained; by an earlier hop it changes nothing.
    lemma NarrowedExact(view: View, candidates: seq<Word32>, k: nat)
      requires Shape() && view.Valid() && k <= applied && k < MAX_PATTERN_LENGTH && applied <= MAX_PATTERN_LENGTH
      requires view.Exact(candidates, Hops(applied))
      ensures view.Exact(Winnowed(view, candidates, Hop(patternIndices[k], patternChannels[k])),
                         Hops(if k < applied then applied else k + 1))
    {
      if k < applied {
        WinnowedAgain(view, candidates, Hops(applied), k);
      } else {
        WinnowedExact(view, candidates, Hops(k), Hop(patternIndices[k], patternChannels[k]));
        assert Hops(k + 1) == Hops(k) + [Hop(patternIndices[k], patternChannels[k])];
      }
    }

    // Notes when a hop repeats the channel of the one before.  At hop 0 the source reads the entries
    // before the first ones, outside its arrays, so any values may be found there.
    method NoteRepeat(index: Int32, channel: Word8, ghost hops: seq<Hop>)
      requires Shape() && hops == Hops(MAX_PATTERN_LENGTH)
      requires winnowed < MAX_PATTERN_LENGTH && index == patternIndices[winnowed] && channel == patternChannels[winnowed]
      modifies `flags
      ensures flags == old(flags) || flags == old(flags) + {LOOKS_LIKE_AFH}
      ensures Repeats(hops, winnowed) || LOOKS_LIKE_AFH in old(flags) ==> LOOKS_LIKE_AFH in flags
      ensures LOOKS_LIKE_AFH in flags ==> LOOKS_LIKE_AFH in old(flags) || winnowed == 0 || Repeats(hops, winnowed)
    {
      var lastIndex: Int32, lastChannel: Word8 := *, *;
      if winnowed > 0 {
        lastIndex, lastChannel := patternIndices[winnowed - 1], patternChannels[winnowed - 1];
      }
      if LOOKS_LIKE_AFH !in flags && index == lastIndex + 1 && channel == lastChannel {
        flags := flags + {LOOKS_LIKE_AFH};
      }
    }

    // Once the last candidates are gone, the hops contradict each other.
    lemma NothingLeft(view: View, candidates: seq<Word32>, m: nat, n: nat, total: nat)
      requires Shape() && view.Valid() && view.first == patternChannels[0] && m <= n <= total <= MAX_PATTERN_LENGTH && n <= m + 1
      requires view.Exact(candidates, Hops(m)) && view.Exact([], Hops(n))
      requires |candidates| > 1 || (m == 0 && n == 1 && patternIndices[0] == 0)
      ensures view.Contradicted(Hops(total))
    {
      hide View.Exact, View.Contradicted;
      HopsPrefix(m, total);
      HopsPrefix(n, total);
      NoneLeft(view, candidates, Hops(total), m, n);
    }

    // One turn of the loop of Winnow.
    method WinnowNext(ghost hops: seq<Hop>) returns (newCount: nat)
      requires Shape() && CandidatesExact() && HOP_REVERSAL_INIT in flags && ClockFound() && hops == Hops(MAX_PATTERN_LENGTH)
      requires winnowed <= applied <= packetsObserved <= MAX_PATTERN_LENGTH && winnowed < packetsObserved
      modifies clockCandidates, `numCandidates, `clkOffset, `applied, `winnowed
      modifies `flags, `sequence, `packetsObserved, `history, `start
      ensures newCount == numCandidates && applied <= old(packetsObserved)
      ensures newCount <= 1 ==> Settled() && winnowed == old(winnowed)
      ensures newCount == 0 && old(Narrowing()) ==> old(TheView()).Contradicted(old(Hops(packetsObserved)))
      ensures newCount > 0 ==> CandidatesExact() && ClockFound() && winnowed <= applied
      ensures newCount > 1 && old(Narrowing()) ==> Narrowing()
      ensures newCount > 1 ==>
                && winnowed == old(winnowed) + 1 && sequence == old(sequence) && packetsObserved == old(packetsObserved)
                && history == old(history) && start == old(start)
                && (flags == old(flags) || flags == old(flags) + {LOOKS_LIKE_AFH})
                && (Repeats(hops, old(winnowed)) ==> LOOKS_LIKE_AFH in flags)
                && (LOOKS_LIKE_AFH in flags ==> LOOKS_LIKE_AFH in old(flags) || old(winnowed) == 0 || Repeats(hops, old(winnowed)))
    {
      hide View.Exact, View.Contradicted;
      var index, channel := patternIndices[winnowed], patternChannels[winnowed];
      ghost var view, candidates, narrowing, m, total := TheView(), clockCandidates[..numCandidates], Narrowing(), applied, packetsObserved;
      newCount := ChannelWinnow(index, channel, winnowed);
      if newCount == 0 && narrowing {
        NothingLeft(view, candidates, m, applied, total);
      }
      if newCount > 1 {
        NoteRepeat(index, channel, hops);
        winnowed := winnowed + 1;
      }
    }

    // Narrows the list by the hops that have not been used.  The loop stops without counting a hop
    // that left one candidate or none.
    method Winnow() returns (newCount: nat)
      requires Shape() && CandidatesExact() && HOP_REVERSAL_INIT in flags && ClockFound()
      requires winnowed <= applied <= packetsObserved <= MAX_PATTERN_LENGTH
      modifies clockCandidates, `numCandidates, `clkOffset, `applied, `winnowed
      modifies `flags, `sequence, `packetsObserved, `history, `start
      ensures newCount == numCandidates && old(winnowed) <= winnowed <= old(packetsObserved)
      ensures HOP_REVERSAL_INIT in flags ==>
                && CandidatesExact() && ClockFound() && winnowed <= applied <= packetsObserved
                && sequence == old(sequence) && packetsObserved == old(packetsObserved)
                && history == old(history) && start == old(start)
                && (winnowed == packetsObserved || CLK27_VALID in flags)
      ensures HOP_REVERSAL_INIT !in flags ==> sequence == null && packetsObserved == 0 && history == [] && start == 0
      ensures old(Narrowing() && winnowed < packetsObserved) ==>
                && (HOP_REVERSAL_INIT !in flags ==> old(TheView()).Contradicted(old(Hops(packetsObserved))))
                && (HOP_REVERSAL_INIT in flags && CLK27_VALID !in flags ==> numCandidates > 1 && winnowed == applied == packetsObserved)
      ensures flags == FlagsAfterWinnow(old(flags), HOP_REVERSAL_INIT !in flags, CLK27_VALID in flags, LOOKS_LIKE_AFH in flags)
      ensures LOOKS_LIKE_AFH in flags ==> LOOKS_LIKE_AFH in old(flags) || AnyRepeats(Hops(MAX_PATTERN_LENGTH), old(winnowed), winnowed, true)
      ensures LOOKS_LIKE_AFH in old(flags) || AnyRepeats(Hops(MAX_PATTERN_LENGTH), old(winnowed), winnowed, false) ==> LOOKS_LIKE_AFH in flags
    {
      hide View.Exact, View.Contradicted, CandidatesExact, Repeats, HopsOf;
      newCount := numCandidates;
      ghost var hops, narrowing := Hops(MAX_PATTERN_LENGTH), Narrowing();
      while winnowed < packetsObserved
        invariant CandidatesExact() && ClockFound() && old(winnowed) <= winnowed <= applied <= packetsObserved
        invariant narrowing ==> Narrowing()
        invariant sequence == old(sequence) && packetsObserved == old(packetsObserved)
        invariant history == old(history) && start == old(start) && newCount == numCandidates
        invariant flags == old(flags) || flags == old(flags) + {LOOKS_LIKE_AFH}
        invariant LOOKS_LIKE_AFH in flags ==> LOOKS_LIKE_AFH in old(flags) || AnyRepeats(hops, old(winnowed), winnowed, true)
        invariant AnyRepeats(hops, old(winnowed), winnowed, false) ==> LOOKS_LIKE_AFH in flags
        decreases packetsObserved - winnowed
      {
        newCount := WinnowNext(hops);
        if newCount <= 1 {
          return;
        }
      }
    }

    // ---------- elimination of CLK1-6 hypotheses ----------

    // The UAP that is marked valid.
    function Filter(): (filter: Option<Word8>)
      reads `flags, `uap
    {
      if UAP_VALID in flags then Some(uap) else None
    }

    // The observations since the first packet are remembered, with times counted from that packet.
    ghost predicate Recorded()
      requires Shape()
      reads `history, `start, `packetsObserved, `firstPktTime, patternIndices, patternChannels
    {
      && start + |history| == packetsObserved <= MAX_PATTERN_LENGTH && (history != [] ==> history[0].packet.clkn == firstPktTime)
      && (forall k :: 0 <= k < |history| ==>
            patternIndices[start + k] == Signed32(history[k].packet.clkn - firstPktTime)
            && patternChannels[start + k] == history[k].packet.channel)
    }

    // Every hypothesis is where elimination has brought it.
    ghost predicate EntriesExact()
      requires Shape()
      reads `flags, `history, `exact, `firstPktTime, clock6Candidates
    {
      GOT_FIRST_PACKET in flags ==>
        history != [] && (exact ==> forall c: nat :: c < 64 ==> clock6Candidates[c] == Survivor(history, firstPktTime, c))
    }

    // Tries the packet with hypothesis c.
    method JudgeClock(packet: Observed, c: nat) returns (found: Word8, crc: int)
      requires Shape() && c < 64
      ensures var sighting := Sighting(packet, Filter());
              && found == sighting.Uap(firstPktTime, c)
              && crc == Judged(sighting, firstPktTime, c, clock6Candidates[c], GOT_FIRST_PACKET !in flags)
    {
      var clock := Wrap32(c + packet.clkn - firstPktTime) % 64;
      found := packet.TriedUap(clock);
      crc := -1;
      if GOT_FIRST_PACKET !in flags || found == clock6Candidates[c] {
        crc := packet.crc[clock];
      }
      if UAP_VALID in flags && found != uap {
        crc := -1;
      }
    }

    // Tries hypothesis c, if it is left.
    method TestClock(packet: Observed, c: nat, ghost seen: seq<Sighting>, ghost upToDate: bool)
      returns (decides: bool, open: bool, found: Word8)
      requires Shape() && seen != [] && seen[|seen| - 1] == Sighting(packet, Filter()) && c < 64
      requires upToDate && |seen| > 1 ==> clock6Candidates[c] == Survivor(seen[..|seen| - 1], firstPktTime, c)
      requires upToDate ==> (GOT_FIRST_PACKET in flags <==> |seen| > 1)
      modifies clock6Candidates
      ensures forall other :: 0 <= other < 64 && other != c ==> clock6Candidates[other] == old(clock6Candidates[other])
      ensures decides || open ==> found == Sighting(packet, Filter()).Uap(firstPktTime, c)
      ensures decides ==> Sighting(packet, Filter()).Decides(firstPktTime, c)
      ensures !decides ==> (open <==> clock6Candidates[c] >= 0)
      ensures open ==> clock6Candidates[c] == found && Sighting(packet, Filter()).LeavesOpen(firstPktTime, c)
      ensures upToDate ==> (decides <==> Succeeds(seen, firstPktTime, c))
      ensures upToDate && !decides ==> clock6Candidates[c] == Survivor(seen, firstPktTime, c)
    {
      decides, open, found := false, false, 0;
      if upToDate {
        JudgedExtends(seen, firstPktTime, c, clock6Candidates[c]);
      }
      if clock6Candidates[c] > -1 || GOT_FIRST_PACKET !in flags {
        var crc;
        found, crc := JudgeClock(packet, c);
        if crc == -1 || crc == 0 {
          clock6Candidates[c] := -1;
        } else if crc == 1 || crc == 2 {
          clock6Candidates[c] := found;
          open := true;
        } else {
          decides := true;
        }
      }
    }

    // What testing all the hypotheses with the last packet shows.
    ghost predicate Tested(seen: seq<Sighting>, upToDate: bool, success: bool, clock: nat, remaining: nat, uapThere: Word8)
      requires Shape() && seen != []
      reads `firstPktTime, clock6Candidates
    {
      var last := seen[|seen| - 1];
      && (success || remaining > 0 ==> clock < 64 && uapThere == last.Uap(firstPktTime, clock) && last.PassesFilter(firstPktTime, clock))
      && (upToDate && success ==> Chosen(seen, firstPktTime, clock))
      && (upToDate && !success ==>
            && (forall c: nat :: c < 64 ==> clock6Candidates[c] == Survivor(seen, firstPktTime, c))
            && (remaining == 0 ==> Hopeless(seen, firstPktTime))
            && (remaining == 1 ==> Chosen(seen, firstPktTime, clock))
            && (remaining > 1 ==> Undecided(seen, firstPktTime)))
    }

    // Tries every hypothesis that is left.  A check that succeeds ends the loop at once; otherwise
    // the number of hypotheses that remain is returned, with the last of them.
    method TestClocks(packet: Observed, ghost seen: seq<Sighting>, ghost upToDate: bool)
      returns (success: bool, clock: nat, remaining: nat, uapThere: Word8)
      requires Shape() && seen != [] && seen[|seen| - 1] == Sighting(packet, Filter())
      requires upToDate && |seen| > 1 ==> forall c: nat :: c < 64 ==> clock6Candidates[c] == Survivor(seen[..|seen| - 1], firstPktTime, c)
      requires upToDate ==> (GOT_FIRST_PACKET in flags <==> |seen| > 1)
      modifies clock6Candidates
      ensures Tested(seen, upToDate, success, clock, remaining, uapThere)
    {
      hide Survivor, Succeeds, Sighting.Uap, Sighting.Crc, Sighting.PassesFilter, Sighting.ClockNow;
      success, clock, remaining, uapThere := false, 0, 0, 0;
      ghost var first, last, another: nat := firstPktTime, Sighting(packet, Filter()), 0;
      for count := 0 to 64
        invariant upToDate ==> NoSuccessBelow(seen, first, count)
        invariant upToDate ==> forall c: nat :: c < count ==> clock6Candidates[c] == Survivor(seen, first, c)
        invariant forall c :: count <= c < 64 ==> clock6Candidates[c] == old(clock6Candidates[c])
        invariant remaining == 0 ==> forall c: nat :: c < count ==> clock6Candidates[c] < 0
        invariant remaining > 0 ==> clock < count && clock6Candidates[clock] == uapThere == last.Uap(first, clock) && last.LeavesOpen(first, clock)
        invariant remaining == 1 ==> forall c: nat :: c < count && c != clock ==> clock6Candidates[c] < 0
        invariant remaining > 1 ==> another < count && another != clock && clock6Candidates[another] >= 0
      {
        var decides, open, found := TestClock(packet, count, seen, upToDate);
        if decides {
          return true, count, remaining, found;
        }
        if open {
          another := clock;
          clock, uapThere := count, found;
          remaining := remaining + 1;
        }
      }
      if upToDate {
        Conclusion(seen, first, clock6Candidates[..], remaining, clock, another);
      }
    }

    // The next packet shows how things stand.
    ghost predicate UpToDate()
      reads `flags, `exact
    {
      GOT_FIRST_PACKET in flags ==> exact
    }

    // Remembers the channel and the time of a packet.
    method Remember(packet: Observed)
      requires Shape() && packetsObserved < MAX_PATTERN_LENGTH && Recorded() && (history == [] ==> packet.clkn == firstPktTime)
      modifies `packetsObserved, `totalPacketsObserved, `history, patternIndices, patternChannels
      ensures packetsObserved == old(packetsObserved) + 1 && totalPacketsObserved == old(totalPacketsObserved) + 1
      ensures Recorded() && history == old(history) + [Sighting(packet, Filter())]
      ensures patternIndices[..old(packetsObserved)] == old(patternIndices[..packetsObserved])
      ensures patternChannels[..old(packetsObserved)] == old(patternChannels[..packetsObserved])
    {
      patternIndices[packetsObserved] := Signed32(packet.clkn - firstPktTime);
      patternChannels[packetsObserved] := packet.channel;
      history := history + [Sighting(packet, Filter())];
      packetsObserved := packetsObserved + 1;
      totalPacketsObserved := totalPacketsObserved + 1;
    }

    // Where the first packet starts the search.
    ghost method BeginIfFirst()
      requires Shape() && packetsObserved <= MAX_PATTERN_LENGTH && (GOT_FIRST_PACKET in flags ==> Recorded())
      modifies `history, `start, `exact
      ensures Recorded() && exact == old(UpToDate()) && start == old(Now().NextStart())
      ensures history == if GOT_FIRST_PACKET in flags then old(history) else []
    {
      if GOT_FIRST_PACKET !in flags {
        history, start, exact := [], packetsObserved, true;
      }
    }

    // Takes over a hypothesis.
    method Accept(clock: nat, uapThere: Word8)
      requires clock < 64
      modifies `clkOffset, `uap, `flags, `totalPacketsObserved
      ensures 0 <= clkOffset < 64 && (clkOffset + firstPktTime) % 64 == clock && uap == uapThere && totalPacketsObserved == 0
      ensures flags == old(flags) + {CLK6_VALID, UAP_VALID}
    {
      clkOffset := (clock - firstPktTime % 64) % 64;
      OffsetRecovers(clock, firstPktTime);
      uap := uapThere;
      flags := flags + {CLK6_VALID, UAP_VALID};
      totalPacketsObserved := 0;
    }

    // Draws the conclusion: one hypothesis is taken over, several are kept, or the search starts over.
    method Conclude(ghost seen: seq<Sighting>, success: bool, clock: nat, remaining: nat, uapThere: Word8) returns (found: bool)
      requires Shape() && Recorded() && seen == history != []
      requires HOP_REVERSAL_INIT !in flags && Tested(seen, exact, success, clock, remaining, uapThere)
      modifies `clkOffset, `uap, `flags, `totalPacketsObserved, `exact, `sequence, `packetsObserved, `history, `start
      ensures Recorded() && EntriesExact() && sequence == old(sequence)
      ensures found || packetsObserved > 0 ==> history == seen && start == old(start) && packetsObserved == old(packetsObserved)
      ensures found ==>
                && FoundFlags(old(flags), flags) && 0 <= clkOffset < 64
                && seen[|seen| - 1].PassesFilter(firstPktTime, ClockOfFirst())
                && uap == seen[|seen| - 1].Uap(firstPktTime, ClockOfFirst())
                && (old(exact) ==> Chosen(seen, firstPktTime, ClockOfFirst()))
      ensures !found && packetsObserved > 0 ==>
                && flags == old(flags) + {GOT_FIRST_PACKET} && uap == old(uap) && exact == old(exact) && clkOffset == old(clkOffset)
                && (exact ==> Undecided(seen, firstPktTime))
      ensures packetsObserved == 0 ==>
                && !found && flags == AfterReset(old(flags)) && uap == old(uap) && history == [] && start == 0
                && clkOffset == old(clkOffset) && (old(exact) ==> Hopeless(seen, firstPktTime))
    {
      hide Chosen, Undecided, Hopeless;
      if success {
        Accept(clock, uapThere);
        exact := false;
        return true;
      }
      flags := flags + {GOT_FIRST_PACKET};
      if remaining == 1 {
        Accept(clock, uapThere);
        return true;
      }
      if remaining == 0 {
        Reset();
      }
      return false;
    }

    ghost function Now(): Snapshot
      reads `flags, `uap, `packetsObserved, `clkOffset, `exact, `history, `start
    {
      Snapshot(flags, uap, packetsObserved, clkOffset, UpToDate(), history, start)
    }

    // What using a packet leads to.  One hypothesis is taken over, several are left open, or the
    // search starts over: when no hypothesis is left, or no packet more can be remembered.  `flagsThen`
    // are the flags right after that.
    ghost predicate Examined(before: Snapshot, packet: Observed, found: bool, flagsThen: set<nat>)
      reads this
    {
      var sighting, seen := before.Sighted(packet), before.SeenWith(packet);
      if found then
        && history == seen && packetsObserved == before.packetsObserved + 1 && start == before.NextStart()
        && FoundFlags(before.flags, flagsThen) && 0 <= clkOffset < 64
        && sighting.PassesFilter(firstPktTime, ClockOfFirst()) && uap == sighting.Uap(firstPktTime, ClockOfFirst())
        && (before.upToDate ==> Chosen(seen, firstPktTime, ClockOfFirst()))
      else
        && uap == before.uap && clkOffset == before.clkOffset
        && if packetsObserved > 0 then
             && history == seen && packetsObserved == before.packetsObserved + 1 && start == before.NextStart()
             && flagsThen == before.flags + {GOT_FIRST_PACKET} && exact == before.upToDate
             && (exact ==> Undecided(seen, firstPktTime))
           else
             && history == [] && start == 0 && flagsThen == AfterReset(before.flags)
             && (before.packetsObserved < MAX_PATTERN_LENGTH && before.upToDate ==> Hopeless(seen, firstPktTime))
    }

    // The packet is added to those seen since the first one, and the UAP is the one that its header names
    // under the clock that the offset makes of its time; a UAP that was known is confirmed.
    ghost predicate TakenOver(before: Snapshot, packet: Observed)
      reads this
    {
      && history == (if GOT_FIRST_PACKET in before.flags then before.history else [])
                    + [Sighting(packet, if UAP_VALID in before.flags then Some(before.uap) else None)]
      && (UAP_VALID in before.flags ==> uap == before.uap)
      && 0 <= clkOffset < 64 && uap == packet.TriedUap((clkOffset + packet.clkn) % 64)
      && (before.upToDate ==> Chosen(history, firstPktTime, (clkOffset + firstPktTime) % 64))
    }

    lemma FoundIsTakenOver(before: Snapshot, packet: Observed)
      requires Examined(before, packet, true, flags)
      ensures TakenOver(before, packet)
    {
      hide Chosen, Reception.TriedUap;
      ClockFromOffset(history[|history| - 1], firstPktTime, clkOffset);
    }

    // Remembers the packet and tries it with every hypothesis that is left.
    method Examine(packet: Observed) returns (found: bool)
      requires Shape() && packetsObserved < MAX_PATTERN_LENGTH && HOP_REVERSAL_INIT !in flags
      requires EntriesExact() && if GOT_FIRST_PACKET in flags then Recorded() else packet.clkn == firstPktTime
      modifies patternIndices, patternChannels, clock6Candidates
      modifies `clkOffset, `uap, `flags, `totalPacketsObserved, `exact, `sequence, `packetsObserved, `history, `start
      ensures Recorded() && EntriesExact() && sequence == old(sequence)
      ensures Examined(old(Now()), packet, found, flags)
    {
      hide Chosen, Undecided, Hopeless;
      BeginIfFirst();
      Remember(packet);
      ghost var seen := history;
      var success, clock, remaining, uapThere := TestClocks(packet, seen, exact);
      found := Conclude(seen, success, clock, remaining, uapThere);
    }

    // Uses the header of a packet to find the UAP and CLK1-6; returns true when they have been found.
    method UapFromHeader(packet: Observed) returns (found: bool)
      requires Shape() && MapCounted() && packetsObserved <= MAX_PATTERN_LENGTH && HOP_REVERSAL_INIT !in flags
      requires EntriesExact() && (GOT_FIRST_PACKET in flags ==> Recorded())
      modifies `firstPktTime, `usedChannels, afhMap, patternIndices, patternChannels, clock6Candidates
      modifies `clkOffset, `uap, `flags, `totalPacketsObserved, `exact, `sequence, `packetsObserved, `history, `start
      ensures MapCounted() && SeenSet(afhMap[..]) == old(SeenSet(afhMap[..])) + {packet.channel}
      ensures Recorded() && EntriesExact() && sequence == old(sequence)
      ensures firstPktTime == if GOT_FIRST_PACKET in old(flags) then old(firstPktTime) else packet.clkn
      ensures Examined(old(Now()), packet, found, flags) && packetsObserved <= MAX_PATTERN_LENGTH
      ensures found ==> TakenOver(old(Now()), packet)
    {
      hide MapCounted, Survivor, TakenOver;
      if GOT_FIRST_PACKET !in flags {
        firstPktTime := packet.clkn;
      }
      var _ := SetChannelSeen(packet.channel);
      if packetsObserved < MAX_PATTERN_LENGTH {
        found := Examine(packet);
        if found {
          FoundIsTakenOver(old(Now()), packet);
        }
      } else {
        Reset();
        found := false;
      }
    }

    // ---------- packet by packet ----------

    // The low clock bits are those that elimination chose from the first of these packets, and the UAP
    // is the one found with them.
    ghost predicate ChosenAmong(seen: seq<Sighting>)
      reads `chosenFrom, `firstPktTime, `known, `uap
    {
      && chosenFrom != [] && chosenFrom <= seen && Chosen(chosenFrom, firstPktTime, known)
      && uap == chosenFrom[|chosenFrom| - 1].Uap(firstPktTime, known)
    }

    // The state of hop reversal.
    ghost predicate Reversing()
      requires Shape()
      reads `flags, `start, `packetsObserved, `winnowed, `applied, `uap, `lap, `sequence, `aliased, `known, `chosenFrom, `history
      reads `clockCandidates, `numCandidates, `clkOffset, `firstPktTime
      reads sequence, clockCandidates, patternIndices, patternChannels, cache
    {
      && PatternReady() && CandidatesExact() && ClockFound() && ChosenAmong(history)
      && winnowed <= applied <= packetsObserved && start == 0 < packetsObserved
    }

    // The state before CLK1-6 is known.
    ghost predicate Searching()
      reads `flags, `start, `packetsObserved, `exact
    {
      start == 0 && (GOT_FIRST_PACKET in flags <==> packetsObserved > 0) && UpToDate()
    }

    // Between packets every hop has been used, and several candidates are left unless the clock is found.
    ghost predicate UpToLastHop()
      reads `flags, `numCandidates, `winnowed, `applied, `packetsObserved
    {
      HOP_REVERSAL_INIT in flags && CLK27_VALID !in flags ==> numCandidates > 1 && winnowed == applied == packetsObserved
    }

    // The pattern that the cache has for the address, as these packets show it.
    ghost function PatternView(seen: seq<Sighting>): (view: View)
      requires seen != [] && Key(uap, lap) in cache.entries
      reads `uap, `lap, `aliased, `known, cache, set key | key in cache.entries :: cache.entries[key]
    {
      View(cache.entries[Key(uap, lap)][..], aliased, known, seen[0].packet.channel)
    }

    // What hop reversal makes of these packets: the clock is found when at some time exactly one clock
    // explained them, hop reversal goes on while several do, and otherwise it has started over.
    ghost predicate Narrowed(seen: seq<Sighting>)
      reads this, cache, set key | key in cache.entries :: cache.entries[key]
    {
      && seen != [] && ChosenAmong(seen) && Key(uap, lap) in cache.entries && PatternView(seen).Valid()
      && history == (if HOP_REVERSAL_INIT in flags then seen else [])
      && (CLK27_VALID in flags <==> PatternView(seen).OnceUnique(HopsSeen(seen, firstPktTime)))
      && (HOP_REVERSAL_INIT in flags && CLK27_VALID !in flags <==> PatternView(seen).Ambiguous(HopsSeen(seen, firstPktTime)))
      && (HOP_REVERSAL_INIT !in flags <==> PatternView(seen).Contradicted(HopsSeen(seen, firstPktTime)))
    }

    // How far the search is.
    ghost predicate Phases()
      requires Shape()
      reads this, sequence, clockCandidates, patternIndices, patternChannels, cache
    {
      && (HOP_REVERSAL_INIT in flags ==> Reversing() && ViewReady() && uap != 0 && UAP_VALID in flags && CLK6_VALID in flags)
      && (CLK27_VALID in flags ==> HOP_REVERSAL_INIT in flags)
      && (CLK6_VALID !in flags ==> Searching())
    }

    ghost predicate Consistent()
      reads this, sequence, clockCandidates, patternIndices, patternChannels, clock6Candidates, afhMap
      reads cache, cache.perms, cache.perms.table, set key | key in cache.entries :: cache.entries[key]
    {
      Shape() && CacheValid() && MapCounted() && Recorded() && EntriesExact() && Phases() && packetsObserved <= MAX_PATTERN_LENGTH
    }

    // Besides, a UAP other than 0 is marked valid, and hop reversal has used all hops.
    ghost predicate Sound()
      reads this, sequence, clockCandidates, patternIndices, patternChannels, clock6Candidates, afhMap
      reads cache, cache.perms, cache.perms.table, set key | key in cache.entries :: cache.entries[key]
    {
      Consistent() && (uap != 0 ==> UAP_VALID in flags) && UpToLastHop()
    }

    // What every packet keeps; a piconet is followed just when its clock is valid.
    ghost predicate Valid()
      reads this, sequence, clockCandidates, patternIndices, patternChannels, clock6Candidates, afhMap
      reads cache, cache.perms, cache.perms.table, set key | key in cache.entries :: cache.entries[key]
    {
      Sound() && (FOLLOWING in flags <==> CLK27_VALID in flags)
    }

    // Remembering a packet does not touch the hops applied so far.
    method RememberHop(packet: Observed)
      requires Shape() && Recorded() && CandidatesExact() && applied <= packetsObserved && 0 < packetsObserved < MAX_PATTERN_LENGTH
      requires history != []
      modifies `packetsObserved, `totalPacketsObserved, `history, patternIndices, patternChannels
      ensures Recorded() && CandidatesExact() && TheView() == old(TheView())
      ensures packetsObserved == old(packetsObserved) + 1 && history == old(history) + [Sighting(packet, Filter())]
    {
      ghost var view, hops := TheView(), Hops(applied);
      Remember(packet);
      PrefixPrefix(patternIndices[..], old(patternIndices[..]), old(packetsObserved), applied);
      PrefixPrefix(patternChannels[..], old(patternChannels[..]), old(packetsObserved), applied);
      assert Hops(applied) == hops;
      PrefixPrefix(patternChannels[..], old(patternChannels[..]), old(packetsObserved), 1);
      assert patternChannels[..][..1][0] == old(patternChannels[..])[..1][0];
      assert TheView() == view;
    }

    // Adds a hop to those that hop reversal has to explain.
    method RecordHop(packet: Observed)
      requires Shape() && Recorded() && HOP_REVERSAL_INIT in flags && Reversing() && packetsObserved < MAX_PATTERN_LENGTH
      modifies `packetsObserved, `totalPacketsObserved, `history, `exact, patternIndices, patternChannels
      ensures Recorded() && EntriesExact() && Reversing() && TheView() == old(TheView())
      ensures packetsObserved == old(packetsObserved) + 1 && history == old(history) + [Sighting(packet, Filter())]
    {
      hide CandidatesExact, PatternReady, ClockFound, Recorded, Chosen;
      exact := false;
      RememberHop(packet);
    }

    lemma RecordedMatch()
      requires Shape() && Recorded() && start == 0
      ensures Hops(packetsObserved) == HopsSeen(history, firstPktTime)
    {
    }

    lemma FirstRecorded()
      requires Shape() && Recorded() && start == 0 && history != []
      ensures patternIndices[0] == 0 && patternChannels[0] == history[0].packet.channel
    {
      SignedZero();
    }

    lemma SameView(view: View)
      requires Shape() && Recorded() && start == 0 && history != [] && PatternReady() && view == TheView()
      ensures view == PatternView(history)
    {
      FirstRecorded();
      assert PatternView(history).sequence == view.sequence;
    }

    // During hop reversal the state shows what the packets seen so far lead to.
    lemma ReversingIsNarrowed()
      requires Shape() && Recorded() && HOP_REVERSAL_INIT in flags && Reversing() && UpToLastHop()
      ensures Narrowed(history)
    {
      hide View.Exact, View.OnceUnique, View.Ambiguous, View.Contradicted, Chosen, HopsSeen, Hops;
      var view, hops := TheView(), HopsSeen(history, firstPktTime);
      SameView(view);
      RecordedMatch();
      HopsPrefix(applied, packetsObserved);
      if CLK27_VALID in flags {
        SingleIsUnique(view, clockCandidates[..numCandidates], hops, applied);
      } else {
        SeveralAreAmbiguous(view, clockCandidates[..numCandidates], hops);
      }
      OneOutcome(view, hops);
    }

    // After starting over the pattern is still in the cache.
    lemma StartedOverIsNarrowed(seen: seq<Sighting>)
      requires HOP_REVERSAL_INIT !in flags && CLK27_VALID !in flags && history == []
      requires seen != [] && ChosenAmong(seen) && Key(uap, lap) in cache.entries && PatternView(seen).Valid()
      requires PatternView(seen).Contradicted(HopsSeen(seen, firstPktTime))
      ensures Narrowed(seen)
    {
      hide View.OnceUnique, View.Ambiguous, View.Contradicted, Chosen, HopsSeen;
      OneOutcome(PatternView(seen), HopsSeen(seen, firstPktTime));
    }

    // Winnowing keeps what has been recorded, or starts over.
    method WinnowKept()
      requires Shape() && Recorded() && EntriesExact() && Phases() && HOP_REVERSAL_INIT in flags && FOLLOWING !in flags
      requires Narrowing() && winnowed < packetsObserved
      modifies `packetsObserved, `history, clockCandidates, `numCandidates, `clkOffset, `applied, `winnowed, `flags, `sequence, `start
      ensures Recorded() && EntriesExact() && Phases() && FOLLOWING !in flags && packetsObserved <= old(packetsObserved)
      ensures UpToLastHop() && history == if HOP_REVERSAL_INIT in flags then old(history) else []
      ensures HOP_REVERSAL_INIT !in flags ==> CLK27_VALID !in flags && old(TheView()).Contradicted(old(Hops(packetsObserved)))
    {
      hide View.Exact, View.Contradicted, Chosen, HopsOf, ClockFound, AnyRepeats, Sighting.Uap, Survivor, PatternReady;
      var _ := Winnow();
    }

    // Besides, the outcome is what the hops lead to.
    method WinnowRecorded()
      requires Shape() && Recorded() && EntriesExact() && Phases() && HOP_REVERSAL_INIT in flags && FOLLOWING !in flags
      requires CLK27_VALID !in flags && (applied > 0 ==> numCandidates > 1) && winnowed < packetsObserved
      modifies `packetsObserved, `history, clockCandidates, `numCandidates, `clkOffset, `applied, `winnowed, `flags, `sequence, `start
      ensures Recorded() && EntriesExact() && Phases() && FOLLOWING !in flags && packetsObserved <= old(packetsObserved)
      ensures UpToLastHop() && Narrowed(old(history))
    {
      hide View.Contradicted, Chosen, HopsSeen, HopsOf, CandidatesExact, ClockFound, EntriesExact, Narrowed, Signed32;
      FirstRecorded();
      RecordedMatch();
      ghost var view, seen := TheView(), history;
      SameView(view);
      WinnowKept();
      if HOP_REVERSAL_INIT in flags {
        ReversingIsNarrowed();
      } else {
        assert PatternView(seen) == view;
        StartedOverIsNarrowed(seen);
      }
    }

    // Hop reversal goes on with one more packet.
    method ContinueReversal(packet: Observed)
      requires Consistent() && UpToLastHop() && HOP_REVERSAL_INIT in flags && CLK27_VALID !in flags
      requires packetsObserved < MAX_PATTERN_LENGTH && FOLLOWING !in flags
      modifies `packetsObserved, `totalPacketsObserved, `history, `exact, patternIndices, patternChannels
      modifies clockCandidates, `numCandidates, `clkOffset, `applied, `winnowed, `flags, `sequence, `start
      ensures Consistent() && UpToLastHop() && FOLLOWING !in flags && Narrowed(old(history) + [Sighting(packet, old(Filter()))])
    {
      hide CacheValid, MapCounted, EntriesExact, Recorded, Reversing, Searching, Narrowed;
      RecordHop(packet);
      WinnowRecorded();
    }

    // Elimination goes on with one more packet.
    method ContinueElimination(packet: Observed) returns (found: bool)
      requires Consistent() && HOP_REVERSAL_INIT !in flags && FOLLOWING !in flags
      modifies `firstPktTime, `usedChannels, afhMap, patternIndices, patternChannels, clock6Candidates
      modifies `clkOffset, `uap, `flags, `totalPacketsObserved, `exact, `sequence, `packetsObserved, `history, `start
      ensures Consistent() && HOP_REVERSAL_INIT !in flags && FOLLOWING !in flags && usedChannels > 0
      ensures SeenSet(afhMap[..]) == old(SeenSet(afhMap[..])) + {packet.channel}
      ensures firstPktTime == if GOT_FIRST_PACKET in old(flags) then old(firstPktTime) else packet.clkn
      ensures Examined(old(Now()), packet, found, flags) && (UAP_VALID in old(flags) ==> uap == old(uap))
      ensures if found then UAP_VALID in flags else uap == old(uap)
    {
      hide CacheValid, Recorded, EntriesExact, Chosen, Undecided, Hopeless;
      found := UapFromHeader(packet);
      assert packet.channel in SeenSet(afhMap[..]);
      assert Phases();
    }

    // The outcome of elimination is as the packets have it.
    lemma ConfirmsExactly(before: Snapshot, packet: Observed, found: bool, flagsThen: set<nat>)
      requires Examined(before, packet, found, flagsThen) && before.upToDate && packetsObserved <= MAX_PATTERN_LENGTH
      ensures found <==> before.packetsObserved < MAX_PATTERN_LENGTH
                         && exists clock: nat :: Chosen(before.SeenWith(packet), firstPktTime, clock)
    {
      hide Survivor, Succeeds, Sighting.Uap, Sighting.PassesFilter;
      if !found && packetsObserved == 0 && before.packetsObserved < MAX_PATTERN_LENGTH {
        assert Hopeless(before.SeenWith(packet), firstPktTime);
      }
    }

    // Elimination has found the UAP that was assumed, and CLK1-6.
    ghost predicate ReadyToReverse()
      reads this
    {
      && HOP_REVERSAL_INIT !in flags && FOLLOWING !in flags && UAP_VALID in flags && CLK6_VALID in flags
      && usedChannels > 0 && uap != 0 && start == 0 < packetsObserved && history != []
      && Chosen(history, firstPktTime, ClockOfFirst()) && uap == history[|history| - 1].Uap(firstPktTime, ClockOfFirst())
    }

    method BeginReversal()
      requires Consistent() && ReadyToReverse()
      modifies `sequence, `address, bank, cache, cache.perms, cache.perms.table
      modifies `clockCandidates, `numCandidates, `winnowed, `flags, `known, `applied, `chosenFrom, `exact
      ensures Consistent() && FOLLOWING !in flags && HOP_REVERSAL_INIT in flags && fresh(clockCandidates)
      ensures CLK27_VALID !in flags && winnowed == applied == 0 && chosenFrom == history
    {
      hide CacheValid, MapCounted, CandidatesExact, PatternReady, ClockFound, Chosen, Recorded, Searching, ClockOfFirst, Sighting.Uap;
      hide Survivor, HopsOf;
      chosenFrom, exact := history, false;
      var _ := InitHopReversal(false);
      assert ChosenAmong(history);
    }

    // Hop reversal starts, with the packets seen so far.
    method StartReversal()
      requires Consistent() && ReadyToReverse()
      modifies `address, bank, cache, cache.perms, cache.perms.table, `clockCandidates, `known, `chosenFrom, `exact
      modifies `packetsObserved, `history, `numCandidates, `clkOffset, `applied, `winnowed, `flags, `sequence, `start
      ensures Consistent() && UpToLastHop() && FOLLOWING !in flags && Narrowed(old(history)) && chosenFrom == old(history)
    {
      hide CacheValid, MapCounted, EntriesExact, Recorded, Reversing, Searching, Narrowed;
      BeginReversal();
      WinnowRecorded();
    }

    // The packet was used for elimination; then its UAP may have been marked valid.
    ghost predicate Eliminated(before: Snapshot, packet: Observed)
      reads this
    {
      exists found: bool, flagsThen: set<nat> ::
        Examined(before, packet, found, flagsThen) && (flags == flagsThen || flags == flagsThen + {UAP_VALID})
    }

    // The UAP that was assumed stays in force when the search has started over.
    method RestoreUap(filterUap: Word8)
      requires Consistent() && UpToLastHop() && uap == filterUap
      modifies `flags, `uap
      ensures Sound() && uap == filterUap && flags == old(flags) + {UAP_VALID}
      ensures forall seen :: old(Narrowed(seen)) ==> Narrowed(seen)
    {
      hide CacheValid, MapCounted, Recorded, CandidatesExact, PatternReady, ChosenAmong, Survivor;
      if UAP_VALID !in flags {
        flags := flags + {UAP_VALID};
        uap := filterUap;
      }
      assert flags == old(flags) + {UAP_VALID};
    }

    // Elimination goes on under the assumed UAP; when it has found CLK1-6, hop reversal starts.
    method ConfirmUap(packet: Observed)
      requires Consistent() && HOP_REVERSAL_INIT !in flags && FOLLOWING !in flags
      requires CLK6_VALID !in flags && UAP_VALID in flags && uap != 0
      modifies this, afhMap, bank, clock6Candidates, patternIndices, patternChannels, cache, cache.perms, cache.perms.table
      ensures Consistent() && UpToLastHop() && FOLLOWING !in flags && uap == old(uap)
      ensures SeenSet(afhMap[..]) == old(SeenSet(afhMap[..])) + {packet.channel}
      ensures if old(Now()).Confirms(packet, firstPktTime)
              then Narrowed(old(Now()).SeenWith(packet)) && chosenFrom == old(Now()).SeenWith(packet)
              else Examined(old(Now()), packet, false, flags) && HOP_REVERSAL_INIT !in flags && CLK6_VALID !in flags
    {
      hide CacheValid, MapCounted, Recorded, EntriesExact, Chosen, Undecided, Hopeless, ClockOfFirst, Narrowed;
      var filterUap := uap;
      ghost var before := Now();
      var found := ContinueElimination(packet);
      ConfirmsExactly(before, packet, found, flags);
      if found {
        if filterUap == uap {
          StartReversal();
        }
      }
    }

    // What using a packet leads to.  Hop reversal goes on with it; or it starts, exactly when the
    // packet confirms the UAP assumed; or the packet is used for elimination only.
    twostate predicate Advanced(packet: Observed)
      reads this, cache, set key | key in cache.entries :: cache.entries[key]
    {
      if HOP_REVERSAL_INIT in old(flags) then
        Narrowed(old(history) + [Sighting(packet, old(Filter()))])
      else if old(Now()).Confirms(packet, firstPktTime) then
        Narrowed(old(Now()).SeenWith(packet)) && chosenFrom == old(Now()).SeenWith(packet)
      else
        && Eliminated(old(Now()), packet) && HOP_REVERSAL_INIT !in flags
        && (CLK6_VALID in flags ==> CLK6_VALID in old(flags) || old(uap) == 0)
    }

    // With a UAP assumed, one more packet is used to confirm it and to find the clock.  The source
    // decodes the packet as well, which has no effect here.
    method TryHop(packet: Observed)
      requires Valid() && uap != 0 && FOLLOWING !in flags
      requires HOP_REVERSAL_INIT in flags ==> packetsObserved < MAX_PATTERN_LENGTH
      modifies this, afhMap, bank, clock6Candidates, patternIndices, patternChannels, clockCandidates
      modifies cache, cache.perms, cache.perms.table
      ensures Sound() && FOLLOWING !in flags && UAP_VALID in flags && uap == old(uap)
      ensures SeenSet(afhMap[..]) == old(SeenSet(afhMap[..])) || SeenSet(afhMap[..]) == old(SeenSet(afhMap[..])) + {packet.channel}
      ensures Advanced(packet)
    {
      hide CacheValid, MapCounted, Recorded, EntriesExact, Reversing, Searching, Chosen, Undecided, Hopeless, Narrowed;
      hide AfterReset, ClockOfFirst, Sighting.Uap, Sighting.PassesFilter;
      var filterUap, found := uap, false;
      if HOP_REVERSAL_INIT in flags {
        ContinueReversal(packet);
      } else if CLK6_VALID in flags {
        found := ContinueElimination(packet);
      } else {
        ConfirmUap(packet);
      }
      ghost var flagsThen := flags;
      RestoreUap(filterUap);
      assert HOP_REVERSAL_INIT !in old(flags) && !old(Now()).Confirms(packet, firstPktTime) ==>
          Examined(old(Now()), packet, found, flagsThen);
    }

    method Follow()
      requires Sound() && CLK27_VALID in flags
      modifies `flags
      ensures Valid() && flags == old(flags) + {FOLLOWING}
      ensures forall seen :: old(Narrowed(seen)) ==> Narrowed(seen)
    {
      hide CacheValid, MapCounted, Recorded, CandidatesExact, PatternReady, ChosenAmong, Survivor;
      flags := flags + {FOLLOWING};
    }

    // Uses a packet with a header for the search; -1 is returned when the search has come to its end.
    method Search(packet: Observed) returns (code: int)
      requires Valid() && FOLLOWING !in flags && packet.channel in SeenSet(afhMap[..])
      requires HOP_REVERSAL_INIT in flags ==> packetsObserved < MAX_PATTERN_LENGTH
      modifies this, afhMap, bank, clock6Candidates, patternIndices, patternChannels, clockCandidates
      modifies cache, cache.perms, cache.perms.table
      ensures Valid() && SeenSet(afhMap[..]) == old(SeenSet(afhMap[..])) && Advanced(packet)
      ensures code == if FOLLOWING in flags then -1 else 0
      ensures old(uap) != 0 ==> uap == old(uap)
    {
      hide CacheValid, Recorded, EntriesExact, Reversing, Searching, Chosen, Undecided, Hopeless, Narrowed;
      hide FoundFlags, AfterReset, ClockOfFirst, Sighting.Uap, Sighting.PassesFilter;
      code := 0;
      if uap != 0 {
        TryHop(packet);
        if CLK6_VALID in flags && CLK27_VALID in flags {
          Follow();
          code := -1;
        }
      } else {
        var found := ContinueElimination(packet);
        assert Examined(old(Now()), packet, found, flags);
      }
    }

    // Uses a packet, whatever it is; -1 is returned when from now on the piconet is followed.  The
    // packets of a piconet that is followed are only decoded.
    method ProcessPacket(packet: Observed) returns (code: int)
      requires Valid()
      requires HOP_REVERSAL_INIT in flags && FOLLOWING !in flags ==> packetsObserved < 1000
      modifies this, afhMap, bank, clock6Candidates, patternIndices, patternChannels, clockCandidates
      modifies cache, cache.perms, cache.perms.table
      ensures Valid() && SeenSet(afhMap[..]) == old(SeenSet(afhMap[..])) + {packet.channel}
      ensures code == if FOLLOWING in flags && FOLLOWING !in old(flags) then -1 else 0
      ensures var m := packet.symbols[63];
              var present := packet.length >= 122
                             && Bits.Distance(packet.symbols[64..68], [!m, m, !m, m]) + Fec.Disagreements(packet.symbols[68..], 18) < 5;
              if LAP_VALID in old(flags) && present && FOLLOWING !in old(flags)
              then Advanced(packet) && (old(uap) != 0 ==> uap == old(uap))
              else flags == old(flags) && uap == old(uap) && history == old(history) && clkOffset == old(clkOffset)
    {
      hide CacheValid, Recorded, EntriesExact, Reversing, Searching, Chosen, Undecided, Hopeless, Narrowed;
      hide FoundFlags, AfterReset, ClockOfFirst, Sighting.Uap, Sighting.PassesFilter;
      hide Reception.HeaderPresent, Bits.Distance, Fec.Disagreements;
      code := 0;
      PresentExactly(packet);
      var _ := SetChannelSeen(packet.channel);
      if LAP_VALID in flags && packet.HeaderPresent() {
        if FOLLOWING !in flags {
          code := Search(packet);
        }
      }
    }

    // A piconet that is followed has a UAP other than 0.
    lemma FollowedHasUap()
      requires Valid() && FOLLOWING in flags
      ensures uap != 0 && UAP_VALID in flags && CLK6_VALID in flags && HOP_REVERSAL_INIT in flags
    {
      hide CacheValid, MapCounted, Recorded, EntriesExact, Reversing, Searching;
    }

    // Between packets, while the hopping is reversed or followed: it is followed exactly when at some
    // time one clock alone explained the packets, and otherwise several explain them all.
    lemma NarrowedThroughout()
      requires Valid() && HOP_REVERSAL_INIT in flags
      ensures Narrowed(history)
      ensures FOLLOWING in flags <==> PatternView(history).OnceUnique(HopsSeen(history, firstPktTime))
    {
      hide CacheValid, MapCounted, EntriesExact, Searching, Chosen, View.OnceUnique, View.Ambiguous, View.Contradicted, HopsSeen;
      ReversingIsNarrowed();
    }

    // ---------- what the user sets ----------

    method InitPiconet(lap: Word24)
      requires Valid() && HOP_REVERSAL_INIT !in flags
      modifies `lap, `flags
      ensures Valid() && this.lap == lap && flags == old(flags) + {LAP_VALID}
    {
      hide CacheValid, MapCounted, Recorded, Survivor;
      this.lap := lap;
      flags := flags + {LAP_VALID};
    }

    method SetUap(uap: Word8)
      requires Valid() && HOP_REVERSAL_INIT !in flags
      modifies `uap, `flags
      ensures Valid() && this.uap == uap && flags == old(flags) + {UAP_VALID}
    {
      hide CacheValid, MapCounted, Recorded, Survivor;
      this.uap := uap;
      flags := flags + {UAP_VALID};
    }

    // Fetching the pattern again does no harm to hop reversal under way.
    method FetchPattern()
      requires Valid() && usedChannels >= 1
      modifies `sequence, `address, bank, cache, cache.perms, cache.perms.table
      ensures Valid() && (HOP_REVERSAL_INIT in flags ==> sequence == old(sequence))
    {
      hide Recorded, EntriesExact, Searching, CacheValid, CandidatesExact, ClockFound, ChosenAmong, MapCounted;
      hide Pattern, IsChannelSet, ChannelsInUse, UpToLastHop, FullBank, BankUpto;
      GetHopPattern();
    }

    // A new channel map; hop reversal under way goes on with the pattern it has.
    method SetAfhMap(newMap: seq<bool>)
      requires Valid() && |newMap| == MAP_BITS && !newMap[79] && (UAP_VALID in flags ==> SeenSet(newMap) != {})
      modifies `usedChannels, afhMap, `sequence, `address, bank, cache, cache.perms, cache.perms.table
      ensures Valid() && afhMap[..] == newMap
      ensures HOP_REVERSAL_INIT in flags ==> sequence == old(sequence)
    {
      hide Recorded, EntriesExact, Reversing, Searching, CacheValid, UpToLastHop;
      ReplaceMap(newMap);
      if UAP_VALID in flags {
        FetchPattern();
      }
    }
  }

  lemma SignedZero()
    ensures Signed32(0) == 0
  {
  }

  lemma PrefixPrefix<T>(a: seq<T>, b: seq<T>, n: nat, m: nat)
    requires m <= n <= |a| && n <= |b| && a[..n] == b[..n]
    ensures a[..m] == b[..m]
  {
    assert a[..m] == a[..n][..m] && b[..m] == b[..n][..m];
  }

  // The offset makes the clock of every packet out of its time.
  lemma ClockFromOffset(sighting: Sighting, first: Word32, offset: nat)
    ensures sighting.ClockNow(first, (offset + first) % 64) == (offset + sighting.packet.clkn) % 64
  {
    ClockNowIs(sighting, first, offset + first);
  }

  // Adding the time of the first packet to the offset gives its clock back.
  lemma OffsetRecovers(clock: nat, first: int)
    requires clock < 64
    ensures ((clock - first % 64) % 64 + first) % 64 == clock
  {
    var q := first / 64;
    assert first == 64 * q + first % 64;
    var r := first % 64;
    if clock >= r {
      assert (clock - r) % 64 == clock - r;
      AddMultipleOf64(clock, q);
    } else {
      assert (clock - r) % 64 == clock - r + 64;
      AddMultipleOf64(clock, q + 1);
    }
  }
}
