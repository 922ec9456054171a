/** Finding the UAP and CLK1-6 by elimination: what the packets seen so far say about a clock value. */
module Elimination {
  import opened Wrappers
  import opened Arithmetic
  import opened Bits
  import opened Fec
  import opened HeaderCheck
  import opened HopKernel
  import opened HopReversal
  import opened Packets

  // Fewer errors than these in the trailer and the header mean that there is a header.
  const ID_THRESHOLD := 5

  // A received packet.  Its payload enters only through crc[c], what crc_check returns for CLK1-6 = c.
  datatype Reception = Reception(symbols: seq<bool>, length: nat, whitened: bool, channel: RadioChannel, clkn: Word32, crc: seq<int>) {
    predicate Valid()
    {
      |symbols| == MAX_SYMBOLS && |crc| == 64
    }

    // Wrong symbols in the trailer of the access code, which alternates, starting unlike the last
    // symbol of the sync word.
    function TrailerErrors(): nat
      requires Valid()
    {
      var msb := symbols[63];
      (if symbols[64] == msb then 1 else 0) + (if symbols[65] != msb then 1 else 0)
      + (if symbols[66] == msb then 1 else 0) + if symbols[67] != msb then 1 else 0
    }

    predicate HeaderPresent()
      requires Valid()
    {
      length >= 122 && TrailerErrors() + Disagreements(symbols[68..], 18) < ID_THRESHOLD
    }

    // The UAP that try_clock returns.
    function TriedUap(clock: nat): Word8
      requires Valid()
    {
      match ReadHeader(symbols, clock, whitened)
      case None => 0
      case Some(header) => HeaderUap(header)
    }
  }

  type Observed = r: Reception | r.Valid()
    witness Reception(seq(MAX_SYMBOLS, _ => false), 0, false, 0, 0, seq(64, _ => 0))

  // A packet is used when the four symbols after the sync word, whichever symbol that ends with, and
  // the header triples have fewer than five errors together.
  lemma PresentExactly(packet: Observed)
    ensures var m := packet.symbols[63];
            packet.HeaderPresent()
            <==> packet.length >= 122
                 && Distance(packet.symbols[64..68], [!m, m, !m, m]) + Disagreements(packet.symbols[68..], 18) < 5
  {
    var m := packet.symbols[63];
    FourDiffer(packet.symbols[64..68], [!m, m, !m, m]);
  }

  lemma FourDiffer(a: seq<bool>, b: seq<bool>)
    requires |a| == |b| == 4
    ensures Distance(a, b) == (if a[0] != b[0] then 1 else 0) + (if a[1] != b[1] then 1 else 0)
                              + (if a[2] != b[2] then 1 else 0) + if a[3] != b[3] then 1 else 0
  {
    assert a[3..][1..] == [] && b[3..][1..] == [] && Distance([], []) == 0;
    assert Distance(a[3..], b[3..]) == if a[3] != b[3] then 1 else 0;
    assert a[2..][1..] == a[3..] && b[2..][1..] == b[3..];
    assert Distance(a[2..], b[2..]) == (if a[2] != b[2] then 1 else 0) + Distance(a[3..], b[3..]);
    assert a[1..][1..] == a[2..] && b[1..][1..] == b[2..];
  }

  // So a packet with a perfect trailer is used although four triples of its header disagree.
  lemma PerfectTrailerIsUsed(packet: Observed)
    requires packet.length >= 122 && Disagreements(packet.symbols[68..], 18) <= 4
    requires var m := packet.symbols[63]; packet.symbols[64..68] == [!m, m, !m, m]
    ensures packet.HeaderPresent()
  {
    var m := packet.symbols[63];
    PresentExactly(packet);
    DistanceZero(packet.symbols[64..68], [!m, m, !m, m]);
  }

  // The test for a header lets one more disagreeing triple pass than decoding the header does; for
  // such a packet every clock value yields the UAP 0.
  lemma PresentButUnreadable(packet: Observed, clock: nat)
    requires packet.HeaderPresent()
    ensures ReadHeader(packet.symbols, clock, packet.whitened).None?
            <==> packet.TrailerErrors() == 0 && Disagreements(packet.symbols[68..], 18) == 4
    ensures ReadHeader(packet.symbols, clock, packet.whitened).None? ==> packet.TriedUap(clock) == 0
  {
  }

  // There are such packets: the trailer is perfect, and the first four triples disagree.
  lemma UnreadableExists() returns (packet: Observed)
    ensures packet.HeaderPresent() && forall clock: nat :: ReadHeader(packet.symbols, clock, packet.whitened).None?
  {
    var symbols := seq(MAX_SYMBOLS, i => i == 64 || i == 66 || i == 68 || i == 71 || i == 74 || i == 77);
    packet := Reception(symbols, 122, false, 0, 0, seq(64, _ => 0));
    for n := 0 to 18
      invariant Disagreements(symbols[68..], n) == if n < 4 then n else 4
    {
    }
    forall clock: nat
      ensures ReadHeader(packet.symbols, clock, packet.whitened).None?
    {
      PresentButUnreadable(packet, clock);
    }
  }

  // A packet used for elimination, and the UAP that was marked valid at that time.
  datatype Sighting = Sighting(packet: Observed, filter: Option<Word8>) {
    // CLK1-6 of this packet if the first packet, seen at time `first`, had clock c.
    function ClockNow(first: Word32, c: nat): (clock: nat)
      ensures clock < 64
    {
      Wrap32(c + packet.clkn - first) % 64
    }

    function Uap(first: Word32, c: nat): Word8
    {
      packet.TriedUap(ClockNow(first, c))
    }

    function Crc(first: Word32, c: nat): int
    {
      packet.crc[ClockNow(first, c)]
    }

    // The UAP found is not excluded by one that is known.
    predicate PassesFilter(first: Word32, c: nat)
    {
      filter.None? || filter.value == Uap(first, c)
    }

    // The packet leaves the hypothesis c open.
    predicate LeavesOpen(first: Word32, c: nat)
    {
      PassesFilter(first, c) && 1 <= Crc(first, c) <= 2
    }

    // A check that succeeds decides the matter at once.
    predicate Decides(first: Word32, c: nat)
    {
      PassesFilter(first, c) && (Crc(first, c) < -1 || Crc(first, c) > 2)
    }
  }

  lemma WrapMod64(x: int)
    ensures Wrap32(x) % 64 == x % 64
  {
    var q := x / 0x1_0000_0000;
    assert x == Wrap32(x) + 64 * (67108864 * q);
    AddMultipleOf64(Wrap32(x), 67108864 * q);
  }

  // The entry for hypothesis c after these packets: the UAP it stands for, or -1 if it is eliminated.
  ghost function Survivor(history: seq<Sighting>, first: Word32, c: nat): (uap: int)
    ensures -1 <= uap < 256
  {
    if history == [] then -1
    else
      var n := |history| - 1;
      if !history[n].LeavesOpen(first, c) then -1
      else if n == 0 || Survivor(history[..n], first, c) == history[n].Uap(first, c) then history[n].Uap(first, c)
      else -1
  }

  // CLK1-6 of a packet when a clock with these low bits was that of the first packet.
  lemma ClockNowIs(sighting: Sighting, first: Word32, clock: nat)
    ensures sighting.ClockNow(first, clock % 64) == (clock + sighting.packet.clkn - first) % 64
  {
    var ticks := sighting.packet.clkn - first;
    WrapMod64(clock % 64 + ticks);
    assert clock == clock % 64 + 64 * (clock / 64);
    AddMultipleOf64(clock % 64 + ticks, clock / 64);
  }

  // Different hypotheses make different clocks of a packet, and every clock is that of a hypothesis.
  lemma ClocksOfHypotheses(sighting: Sighting, first: Word32, c: nat, other: nat)
    requires c < 64 && other < 64
    ensures sighting.ClockNow(first, c) == sighting.ClockNow(first, other) ==> c == other
  {
    var ticks := sighting.packet.clkn - first;
    WrapMod64(c + ticks);
    WrapMod64(other + ticks);
    if (c + ticks) % 64 == (other + ticks) % 64 {
      var p, q := (c + ticks) / 64, (other + ticks) / 64;
      assert c - other == 64 * (p - q);
    }
  }

  // The packet was sent with this UAP in its header, passes a UAP known before, and its check is inconclusive.
  ghost predicate Agrees(sighting: Sighting, first: Word32, c: nat, uap: int)
  {
    sighting.LeavesOpen(first, c) && sighting.Uap(first, c) == uap
  }

  ghost predicate AllAgree(history: seq<Sighting>, first: Word32, c: nat, uap: int)
  {
    forall k :: 0 <= k < |history| ==> Agrees(history[k], first, c, uap)
  }

  lemma AllAgreeSplits(history: seq<Sighting>, first: Word32, c: nat, uap: int)
    requires history != []
    ensures var n := |history| - 1;
            AllAgree(history, first, c, uap) <==> AllAgree(history[..n], first, c, uap) && Agrees(history[n], first, c, uap)
  {
    hide Agrees;
    var n := |history| - 1;
    assert forall k :: 0 <= k < n ==> history[..n][k] == history[k];
  }

  lemma {:induction false} SurvivorAgrees(history: seq<Sighting>, first: Word32, c: nat, uap: Word8)
    requires history != []
    ensures Survivor(history, first, c) == uap <==> AllAgree(history, first, c, uap)
  {
    var n := |history| - 1;
    if n > 0 {
      SurvivorAgrees(history[..n], first, c, uap);
      AllAgreeSplits(history, first, c, uap);
    }
  }

  // A hypothesis survives exactly when every packet gives the same UAP at the clock that it then has,
  // matches a UAP that was marked valid, and has a check that neither fails nor succeeds.
  lemma SurvivorExact(history: seq<Sighting>, first: Word32, c: nat, uap: Word8)
    requires history != [] && c < 64
    ensures Survivor(history, first, c) == uap
            <==> forall k :: 0 <= k < |history| ==>
                   var (packet, filter) := (history[k].packet, history[k].filter);
                   var now := (c + packet.clkn - first) % 64;
                   packet.TriedUap(now) == uap && (filter == None || filter == Some(uap)) && 1 <= packet.crc[now] <= 2
  {
    hide Reception.TriedUap;
    SurvivorAgrees(history, first, c, uap);
    forall k | 0 <= k < |history|
      ensures Agrees(history[k], first, c, uap)
              <==> var (packet, filter) := (history[k].packet, history[k].filter);
                   var now := (c + packet.clkn - first) % 64;
                   packet.TriedUap(now) == uap && (filter == None || filter == Some(uap)) && 1 <= packet.crc[now] <= 2
    {
      ClockNowIs(history[k], first, c);
    }
  }

  // What a survivor stands for never changes, and what is eliminated stays eliminated.
  lemma SurvivorMonotone(history: seq<Sighting>, more: seq<Sighting>, first: Word32, c: nat)
    requires history != [] && history <= more
    ensures Survivor(more, first, c) >= 0 ==> Survivor(more, first, c) == Survivor(history, first, c)
  {
    var uap := Survivor(more, first, c);
    if uap >= 0 {
      SurvivorAgrees(more, first, c, uap);
      SurvivorAgrees(history, first, c, uap);
    }
  }

  // The last packet has a check that succeeds under hypothesis c, which was still open.
  ghost predicate Succeeds(history: seq<Sighting>, first: Word32, c: nat)
    requires history != []
  {
    var n := |history| - 1;
    history[n].Decides(first, c) && (n == 0 || Survivor(history[..n], first, c) == history[n].Uap(first, c))
  }

  ghost predicate NoSuccessBelow(history: seq<Sighting>, first: Word32, n: nat)
    requires history != []
  {
    forall c: nat :: c < n ==> !Succeeds(history, first, c)
  }

  ghost predicate OnlySurvivor(history: seq<Sighting>, first: Word32, c: nat)
  {
    c < 64 && Survivor(history, first, c) >= 0 && forall other: nat :: other < 64 && other != c ==> Survivor(history, first, other) == -1
  }

  ghost predicate NoSurvivor(history: seq<Sighting>, first: Word32)
  {
    forall c: nat :: c < 64 ==> Survivor(history, first, c) == -1
  }

  // Hypothesis c is taken over: its check is the first to succeed, or none succeeds and it alone is left.
  ghost predicate Chosen(history: seq<Sighting>, first: Word32, c: nat)
    requires history != []
  {
    || (c < 64 && Succeeds(history, first, c) && NoSuccessBelow(history, first, c))
    || (NoSuccessBelow(history, first, 64) && OnlySurvivor(history, first, c))
  }

  // More than one hypothesis is left.
  ghost predicate Undecided(history: seq<Sighting>, first: Word32)
    requires history != []
  {
    NoSuccessBelow(history, first, 64) && !NoSurvivor(history, first) && forall c: nat :: !OnlySurvivor(history, first, c)
  }

  // None is left.
  ghost predicate Hopeless(history: seq<Sighting>, first: Word32)
    requires history != []
  {
    NoSuccessBelow(history, first, 64) && NoSurvivor(history, first)
  }

  // Counting the entries up to n that are left: the count is exact up to one, and two or more are told
  // by two different entries.
  ghost predicate Tally(entries: seq<int>, n: nat, remaining: nat, clock: nat, another: nat)
    requires n <= |entries|
  {
    && (remaining == 0 ==> forall c :: 0 <= c < n ==> entries[c] < 0)
    && (remaining > 0 ==> clock < n && entries[clock] >= 0)
    && (remaining == 1 ==> forall c :: 0 <= c < n && c != clock ==> entries[c] < 0)
    && (remaining > 1 ==> another < n && another != clock && entries[another] >= 0)
  }

  lemma Conclusion(history: seq<Sighting>, first: Word32, entries: seq<int>, remaining: nat, clock: nat, another: nat)
    requires history != [] && NoSuccessBelow(history, first, 64) && |entries| == 64
    requires forall c :: 0 <= c < 64 ==> entries[c] == Survivor(history, first, c)
    requires Tally(entries, 64, remaining, clock, another)
    ensures remaining == 0 ==> Hopeless(history, first)
    ensures remaining == 1 ==> Chosen(history, first, clock)
    ensures remaining > 1 ==> Undecided(history, first)
  {
    if remaining == 0 {
      forall c: nat | c < 64
        ensures Survivor(history, first, c) == -1
      {
        assert entries[c] < 0;
      }
    } else if remaining > 1 {
      assert Survivor(history, first, clock) >= 0 && Survivor(history, first, another) >= 0;
    } else {
      forall c: nat | c < 64 && c != clock
        ensures Survivor(history, first, c) == -1
      {
        assert entries[c] < 0;
      }
    }
  }

  // What the source makes of hypothesis c for one packet: -1 when the UAP does not fit, else the check.
  function Judged(sighting: Sighting, first: Word32, c: nat, entry: int, isFirst: bool): (crc: int)
  {
    if (isFirst || sighting.Uap(first, c) == entry) && sighting.PassesFilter(first, c) then sighting.Crc(first, c) else -1
  }

  // Judging the last packet is extending the history by it.
  lemma JudgedExtends(history: seq<Sighting>, first: Word32, c: nat, entry: int)
    requires history != []
    requires |history| > 1 ==> entry == Survivor(history[..|history| - 1], first, c)
    ensures var last := history[|history| - 1];
            var crc := Judged(last, first, c, entry, |history| == 1);
            && (1 <= crc <= 2 ==> Survivor(history, first, c) == last.Uap(first, c))
            && (-1 <= crc <= 0 ==> Survivor(history, first, c) == -1)
            && (Succeeds(history, first, c) <==> crc < -1 || crc > 2)
    ensures |history| > 1 && entry == -1 ==> Survivor(history, first, c) == -1 && !Succeeds(history, first, c)
  {
  }

  // A packet sent with this UAP at this clock, received with few enough wrong symbols in its header.
  ghost predicate SentAt(packet: Observed, data: seq<bool>, uap: Word8, clock: nat)
    requires |data| == 10
  {
    var sent := Plain(data + Hec(data, uap), clock, 0, packet.whitened);
    && (forall i: nat :: i < 18 ==> TripleErrors(packet.symbols[68..], sent, i) <= 1)
    && Errors13(packet.symbols[68..], sent, 18) <= 3
  }

  // The packet was sent by the piconet that has this UAP and had this CLK1-27 at time first, with the
  // clock that the piconet had when it was received.
  ghost predicate FromPiconet(sighting: Sighting, first: Word32, clock: nat, uap: Word8)
  {
    && (exists data: seq<bool> ::
          |data| == 10 && SentAt(sighting.packet, data, uap, (clock + sighting.packet.clkn - first) % 64))
    && (sighting.filter.None? || sighting.filter.value == uap)
  }

  // Besides, its check under the true clock is inconclusive.
  ghost predicate Genuine(sighting: Sighting, first: Word32, clock: nat, uap: Word8)
  {
    FromPiconet(sighting, first, clock, uap) && 1 <= sighting.packet.crc[(clock + sighting.packet.clkn - first) % 64] <= 2
  }

  lemma TrueUap(sighting: Sighting, first: Word32, clock: nat, uap: Word8)
    requires FromPiconet(sighting, first, clock, uap)
    ensures sighting.Uap(first, clock % 64) == uap
    ensures sighting.ClockNow(first, clock % 64) == (clock + sighting.packet.clkn - first) % 64
  {
    var packet, now := sighting.packet, (clock + sighting.packet.clkn - first) % 64;
    ClockNowIs(sighting, first, clock);
    var data: seq<bool> :| |data| == 10 && SentAt(packet, data, uap, now);
    HeaderRoundTrip(packet.symbols, data, uap, now, packet.whitened);
  }

  // The true hypothesis is never eliminated, and it stands for the true UAP.
  lemma TrueHypothesisSurvives(history: seq<Sighting>, first: Word32, clock: nat, uap: Word8)
    requires history != []
    requires forall k :: 0 <= k < |history| ==> Genuine(history[k], first, clock, uap)
    ensures Survivor(history, first, clock % 64) == uap
  {
    forall k | 0 <= k < |history|
      ensures Agrees(history[k], first, clock % 64, uap)
    {
      TrueUap(history[k], first, clock, uap);
    }
    SurvivorAgrees(history, first, clock % 64, uap);
  }

  // The packets come from the piconet; the check of the last one may succeed under the true clock,
  // but under no other that gives a UAP not excluded.
  ghost predicate Trustworthy(history: seq<Sighting>, first: Word32, clock: nat, uap: Word8)
    requires history != []
  {
    var last := history[|history| - 1];
    var now := (clock + last.packet.clkn - first) % 64;
    && (forall k :: 0 <= k < |history| - 1 ==> Genuine(history[k], first, clock, uap))
    && FromPiconet(last, first, clock, uap) && last.packet.crc[now] != 0 && last.packet.crc[now] != -1
    && (forall other: nat :: other < 64 && other != now && (last.filter == None || last.filter == Some(last.packet.TriedUap(other))) ==>
          -1 <= last.packet.crc[other] <= 2)
  }

  lemma OthersDoNotDecide(history: seq<Sighting>, first: Word32, clock: nat, uap: Word8, other: nat)
    requires history != [] && Trustworthy(history, first, clock, uap) && other < 64 && other != clock % 64
    ensures !history[|history| - 1].Decides(first, other)
  {
    hide Reception.TriedUap;
    var last := history[|history| - 1];
    ClockNowIs(last, first, clock);
    ClocksOfHypotheses(last, first, clock % 64, other);
  }

  lemma LastOpenOrDecides(history: seq<Sighting>, first: Word32, clock: nat, uap: Word8)
    requires history != [] && Trustworthy(history, first, clock, uap)
    ensures var last, c := history[|history| - 1], clock % 64;
            last.Uap(first, c) == uap && (last.LeavesOpen(first, c) || last.Decides(first, c))
  {
    hide Reception.TriedUap;
    TrueUap(history[|history| - 1], first, clock, uap);
  }

  lemma SurvivesBeforeLast(history: seq<Sighting>, first: Word32, clock: nat, uap: Word8)
    requires |history| > 1 && Trustworthy(history, first, clock, uap)
    ensures Survivor(history[..|history| - 1], first, clock % 64) == uap
  {
    hide Genuine, FromPiconet;
    TrueHypothesisSurvives(history[..|history| - 1], first, clock, uap);
  }

  // So what elimination chooses is the true clock and the true UAP.
  lemma ChosenIsTrue(history: seq<Sighting>, first: Word32, clock: nat, uap: Word8, chosen: nat)
    requires history != [] && Trustworthy(history, first, clock, uap) && Chosen(history, first, chosen)
    ensures chosen == clock % 64 && history[|history| - 1].Uap(first, chosen) == uap
  {
    hide Trustworthy, Sighting.Uap, Sighting.LeavesOpen, Sighting.Decides;
    var n, c := |history| - 1, clock % 64;
    LastOpenOrDecides(history, first, clock, uap);
    if n > 0 {
      SurvivesBeforeLast(history, first, clock, uap);
    }
    forall other: nat | other < 64 && other != c
      ensures !history[n].Decides(first, other)
    {
      OthersDoNotDecide(history, first, clock, uap, other);
    }
    if history[n].Decides(first, c) {
      assert Succeeds(history, first, c);
    } else {
      assert Survivor(history, first, c) == uap;
    }
  }

  // ---------- what elimination chooses, said without its entries ----------

  // The first n packets leave hypothesis c open, with this UAP.
  ghost predicate LeftOpen(history: seq<Sighting>, n: nat, first: Word32, c: nat, uap: int)
    requires n <= |history|
  {
    forall k :: 0 <= k < n ==>
      var (packet, filter) := (history[k].packet, history[k].filter);
      var now := (c + packet.clkn - first) % 64;
      packet.TriedUap(now) == uap && (filter == None || filter == Some(packet.TriedUap(now))) && 1 <= packet.crc[now] <= 2
  }

  // The check of the last packet succeeds under hypothesis c, which the others leave open with the same UAP.
  ghost predicate DecidedFor(history: seq<Sighting>, first: Word32, c: nat)
    requires history != []
  {
    var last := history[|history| - 1];
    var now := (c + last.packet.clkn - first) % 64;
    && last.packet.crc[now] !in {-1, 0, 1, 2} && (last.filter == None || last.filter == Some(last.packet.TriedUap(now)))
    && LeftOpen(history, |history| - 1, first, c, last.packet.TriedUap(now))
  }

  lemma OpenIsSurvivor(history: seq<Sighting>, first: Word32, c: nat)
    requires history != [] && c < 64
    ensures forall uap: Word8 :: Survivor(history, first, c) == uap <==> LeftOpen(history, |history|, first, c, uap)
  {
    forall uap: Word8
      ensures Survivor(history, first, c) == uap <==> LeftOpen(history, |history|, first, c, uap)
    {
      SurvivorExact(history, first, c, uap);
    }
  }

  lemma OpenBeforeLast(history: seq<Sighting>, first: Word32, c: nat, uap: Word8)
    requires |history| > 1 && c < 64
    ensures Survivor(history[..|history| - 1], first, c) == uap <==> LeftOpen(history, |history| - 1, first, c, uap)
  {
    hide Reception.TriedUap;
    var before := history[..|history| - 1];
    OpenIsSurvivor(before, first, c);
    assert LeftOpen(before, |before|, first, c, uap) <==> LeftOpen(history, |history| - 1, first, c, uap);
  }

  lemma DecidedIsSuccess(history: seq<Sighting>, first: Word32, c: nat)
    requires history != [] && c < 64
    ensures Succeeds(history, first, c) <==> DecidedFor(history, first, c)
  {
    hide Reception.TriedUap, LeftOpen, Survivor;
    var last := history[|history| - 1];
    ClockNowIs(last, first, c);
    if |history| > 1 {
      OpenBeforeLast(history, first, c, last.Uap(first, c));
    } else {
      NothingBefore(history, first, c, last.packet.TriedUap((c + last.packet.clkn - first) % 64));
    }
  }

  lemma NothingBefore(history: seq<Sighting>, first: Word32, c: nat, uap: int)
    ensures LeftOpen(history, 0, first, c, uap)
  {
  }

  // All packets leave hypothesis c open, with one UAP.
  ghost predicate OpenToAll(history: seq<Sighting>, first: Word32, c: nat)
  {
    exists uap: Word8 :: LeftOpen(history, |history|, first, c, uap)
  }

  lemma OpenIsLeft(history: seq<Sighting>, first: Word32, c: nat)
    requires history != [] && c < 64
    ensures Survivor(history, first, c) >= 0 <==> OpenToAll(history, first, c)
  {
    hide LeftOpen, Survivor;
    OpenIsSurvivor(history, first, c);
    if Survivor(history, first, c) >= 0 {
      var uap: Word8 := Survivor(history, first, c);
      assert LeftOpen(history, |history|, first, c, uap);
    }
  }

  // It is the least hypothesis for which the last packet decides, or, when there is none, the only one
  // that all packets leave open.
  lemma ChosenExactly(history: seq<Sighting>, first: Word32, chosen: nat)
    requires history != []
    ensures Chosen(history, first, chosen)
            <==> chosen < 64
                 && if exists c: nat :: c < 64 && DecidedFor(history, first, c) then
                      DecidedFor(history, first, chosen) && forall c: nat :: c < chosen ==> !DecidedFor(history, first, c)
                    else
                      OpenToAll(history, first, chosen) && forall c: nat :: c < 64 && c != chosen ==> !OpenToAll(history, first, c)
  {
    hide DecidedFor, OpenToAll, Succeeds, Survivor;
    forall c: nat | c < 64
      ensures Succeeds(history, first, c) <==> DecidedFor(history, first, c)
      ensures Survivor(history, first, c) >= 0 <==> OpenToAll(history, first, c)
    {
      DecidedIsSuccess(history, first, c);
      OpenIsLeft(history, first, c);
    }
  }
}
