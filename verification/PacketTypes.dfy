/** The payloads of the DM and DH types in numbers: where they start, what they carry, and which code each reception gives. */
module PacketTypes {
  import opened Wrappers
  import opened Bits
  import opened Fec
  import opened Whitening
  import opened PayloadCheck
  import opened Packets

  // Type, first payload symbol, bytes of the payload header, and longest payload in bytes.
  datatype Kind = Kind(code: nat, start: nat, headerBytes: nat, longest: nat)

  // After 68 symbols of access code and 54 of header; in a DV packet after 80 voice symbols more.
  ghost predicate Coded(kind: Kind)
  {
    kind == Kind(3, 122, 1, 20) || kind == Kind(8, 202, 1, 12) || kind == Kind(10, 122, 2, 125) || kind == Kind(14, 122, 2, 228)
  }

  ghost predicate Uncoded(kind: Kind)
  {
    kind == Kind(4, 122, 1, 30) || kind == Kind(11, 122, 2, 187) || kind == Kind(15, 122, 2, 343)
  }

  // The length in bytes that a payload header leads to: with itself and the check, but no more than the longest.
  function Bytes(header: seq<bool>, kind: Kind): nat
    requires |header| >= 13 || (kind.headerBytes == 1 && |header| >= 8)
  {
    var said := if kind.headerBytes == 1 then AirToHost(header[3..8]) + 3 else AirToHost(header[3..13]) + 4;
    if said < kind.longest then said else kind.longest
  }

  // A payload that agrees with its own header and check.
  ghost predicate Agreeing(payload: seq<bool>, kind: Kind, uap: nat)
    requires kind.headerBytes == 1 || kind.headerBytes == 2
  {
    && |payload| >= 8 * kind.headerBytes + 16 && |payload| == 8 * Bytes(payload, kind) && CrcPasses(payload, uap)
  }

  // Every block of fifteen symbols from `start` on has at most one wrong symbol; the payload was whitened
  // from position 18 of the whitening word on, and the last block was filled up somehow.
  ghost predicate CarriedCoded(symbols: seq<bool>, start: nat, payload: seq<bool>, clock: nat, whitened: bool)
    requires start + 15 * ((|payload| + 9) / 10) <= |symbols|
  {
    exists data: seq<bool> ::
      && |data| == 10 * ((|payload| + 9) / 10)
      && (forall i :: 0 <= i < |payload| ==> data[i] == (payload[i] != (whitened && Whitener(clock, 18 + i))))
      && forall k :: 0 <= k < (|payload| + 9) / 10 ==> CarriedBlock(symbols, start, data, k)
  }

  ghost predicate CarriedBlock(symbols: seq<bool>, start: nat, data: seq<bool>, k: nat)
    requires start + 15 * k + 15 <= |symbols| && 10 * k + 10 <= |data|
  {
    Distance(symbols[start + 15 * k..start + 15 * k + 15], EncodeBlock(data[10 * k..10 * k + 10])) <= 1
  }

  lemma SameBlocks(symbols: seq<bool>, start: nat, data: seq<bool>, blocks: nat)
    requires start + 15 * blocks <= |symbols| && |data| == 10 * blocks
    ensures AllNear(symbols[start..], data, blocks) <==> forall k :: 0 <= k < blocks ==> CarriedBlock(symbols, start, data, k)
  {
    forall k: nat | k < blocks
      ensures NearBlock(symbols[start..], data, k) == CarriedBlock(symbols, start, data, k)
    {
      SliceOfSuffix(symbols, start, 15 * k, 15);
      assert 15 * (k + 1) == 15 * k + 15 && 10 * (k + 1) == 10 * k + 10;
    }
    if forall k :: 0 <= k < blocks ==> CarriedBlock(symbols, start, data, k) {
      forall k: nat | k < blocks
        ensures NearBlock(symbols[start..], data, k)
      {
        assert CarriedBlock(symbols, start, data, k);
      }
    }
  }

  lemma CarriesCoded(symbols: seq<bool>, start: nat, payload: seq<bool>, clock: nat, whitened: bool)
    requires start + 15 * ((|payload| + 9) / 10) <= |symbols|
    ensures Carries(symbols[start..], payload, clock, whitened) <==> CarriedCoded(symbols, start, payload, clock, whitened)
  {
    hide NearBlock, CarriedBlock, Whitener, AllNear;
    var blocks, stream := (|payload| + 9) / 10, symbols[start..];
    forall data: seq<bool> | |data| == 10 * blocks
      ensures AllNear(stream, data, blocks) <==> forall k :: 0 <= k < blocks ==> CarriedBlock(symbols, start, data, k)
      ensures data[..|payload|] == Plain(payload, clock, 18, whitened)
              <==> forall i :: 0 <= i < |payload| ==> data[i] == (payload[i] != (whitened && Whitener(clock, 18 + i)))
    {
      SameBlocks(symbols, start, data, blocks);
      WhitenedData(data, payload, clock, whitened);
    }
  }

  lemma WhitenedData(data: seq<bool>, payload: seq<bool>, clock: nat, whitened: bool)
    requires |payload| <= |data|
    ensures data[..|payload|] == Plain(payload, clock, 18, whitened)
            <==> forall i :: 0 <= i < |payload| ==> data[i] == (payload[i] != (whitened && Whitener(clock, 18 + i)))
  {
    hide Whitener;
    var plain := Plain(payload, clock, 18, whitened);
    forall i | 0 <= i < |payload|
      ensures plain[i] == (payload[i] != (whitened && Whitener(clock, 18 + i)))
    {
    }
    if data[..|payload|] == plain {
      forall i | 0 <= i < |payload|
        ensures data[i] == plain[i]
      {
        assert data[..|payload|][i] == data[i];
      }
    }
  }

  // The layout of a coded type is the one in numbers.
  lemma CodedLayout(kind: Kind)
    requires Coded(kind)
    ensures DmLayout(kind.code) == Some(Layout(kind.start, kind.headerBytes, kind.longest, true))
    ensures MaxLength(kind.code) == kind.longest
  {
  }

  lemma UncodedLayout(kind: Kind)
    requires Uncoded(kind)
    ensures DhLayout(kind.code) == Some(Layout(kind.start, kind.headerBytes, kind.longest, false))
    ensures MaxLength(kind.code) == kind.longest && kind.code != TYPE_AUX1
  {
  }

  lemma HeaderLength(payload: seq<bool>, kind: Kind)
    requires (kind.headerBytes == 1 || kind.headerBytes == 2) && |payload| >= 8 * kind.headerBytes && MaxLength(kind.code) == kind.longest
    ensures PayloadLength(payload[..8 * kind.headerBytes], kind.headerBytes, kind.code) == Bytes(payload, kind)
  {
    if kind.headerBytes == 1 {
      assert payload[..8][3..8] == payload[3..8];
    } else {
      assert payload[..16][3..13] == payload[3..13];
    }
  }

  lemma AgreeingIsConsistent(payload: seq<bool>, kind: Kind, layout: Layout, uap: nat)
    requires (kind.headerBytes == 1 || kind.headerBytes == 2) && MaxLength(kind.code) == kind.longest
    requires layout.headerBytes == kind.headerBytes
    ensures Consistent(payload, kind.code, layout, uap) <==> Agreeing(payload, kind, uap)
  {
    hide CrcPasses;
    if |payload| >= 8 * kind.headerBytes {
      HeaderLength(payload, kind);
    }
  }

  // ---------- DM1, DV, DM3, DM5 ----------

  // DM returns 10 with a payload exactly when the payload agrees with its header and check, the first
  // block or two of its header and as many symbols as it has bits were received, and its blocks carry it.
  lemma DmInNumbers(symbols: seq<bool>, length: nat, kind: Kind, uap: nat, clock: nat, whitened: bool, payload: seq<bool>)
    requires |symbols| == 3125 && Coded(kind)
    ensures var d := Decode(symbols, length, kind.code, DmLayout(kind.code), uap, clock, whitened);
            d.code == 10 && d.payload == Some(payload)
            <==> && Agreeing(payload, kind, uap) && |payload| <= 8 * kind.longest
                 && length >= kind.start + 15 * kind.headerBytes && length >= kind.start + |payload|
                 && CarriedCoded(symbols, kind.start, payload, clock, whitened)
  {
    hide CrcPasses, CarriedCoded, Carries, Decode, Bytes, PayloadLength;
    CodedLayout(kind);
    var layout := DmLayout(kind.code).value;
    DmExact(symbols, length, kind.code, layout, uap, clock, whitened, payload);
    AgreeingIsConsistent(payload, kind, layout, uap);
    if Agreeing(payload, kind, uap) {
      AtMost(payload, kind);
      Fits(kind, |payload|);
      CarriesCoded(symbols, kind.start, payload, clock, whitened);
    }
  }

  lemma AtMost(payload: seq<bool>, kind: Kind)
    requires (kind.headerBytes == 1 || kind.headerBytes == 2) && |payload| >= 8 * kind.headerBytes
    ensures Bytes(payload, kind) <= kind.longest
  {
  }

  lemma Fits(kind: Kind, bits: nat)
    requires Coded(kind) && bits <= 8 * kind.longest
    ensures kind.start + 15 * ((bits + 9) / 10) <= 3125
  {
  }

  // So every body that fits the type arrives, with its LLID and flow bit, although one symbol in each
  // block may be wrong.
  lemma DmArrives(symbols: seq<bool>, length: nat, kind: Kind, uap: nat, clock: nat, whitened: bool, llid: nat, flow: bool,
                  body: seq<bool>)
    requires |symbols| == 3125 && Coded(kind) && llid < 4
    requires |body| % 8 == 0 && |body| / 8 + kind.headerBytes + 2 <= kind.longest
    requires var sent := SentPayload(kind.headerBytes, llid, flow, body, uap);
             kind.start + 15 * ((|sent| + 9) / 10) <= length <= 3125 && CarriedCoded(symbols, kind.start, sent, clock, whitened)
    ensures var sent := SentPayload(kind.headerBytes, llid, flow, body, uap);
            && Decode(symbols, length, kind.code, DmLayout(kind.code), uap, clock, whitened)
               == Decoded(10, Some(sent[..8 * kind.headerBytes]), Some(sent))
            && sent[8 * kind.headerBytes..|sent| - 16] == body
            && AirToHost(sent[0..2]) == llid && AirToHost(sent[2..3]) == (if flow then 1 else 0)
  {
    hide CarriedCoded, Carries, Decode;
    CodedLayout(kind);
    CarriesCoded(symbols, kind.start, SentPayload(kind.headerBytes, llid, flow, body, uap), clock, whitened);
    DmRoundTrip(symbols, length, kind.code, DmLayout(kind.code).value, uap, clock, whitened, llid, flow, body);
  }

  // The other codes: 0 when the header cannot be read or a block cannot be corrected, 1 when fewer
  // symbols are left than the payload has bits, and 2 when the check fails.
  lemma DmCodes(symbols: seq<bool>, length: nat, kind: Kind, uap: nat, clock: nat, whitened: bool)
    requires |symbols| == 3125 && Coded(kind)
    ensures var d := Decode(symbols, length, kind.code, DmLayout(kind.code), uap, clock, whitened);
            && (d.header.None? <==> length < kind.start + 15 * kind.headerBytes
                                    || exists k :: 0 <= k < kind.headerBytes && Uncorrectable(symbols, kind.start, k))
            && (d.header.Some? ==> |d.header.value| == 8 * kind.headerBytes && Bytes(d.header.value, kind) <= kind.longest)
            && (d.code == 1 <==> d.header.Some? && length < kind.start + 8 * Bytes(d.header.value, kind))
            && (d.code == 0 <==> d.header.None?
                                 || (d.code != 1 && exists k :: 0 <= k < (8 * Bytes(d.header.value, kind) + 9) / 10
                                                                && Uncorrectable(symbols, kind.start, k)))
            && (d.payload.Some? <==> d.code == 10 || d.code == 2)
            && (d.payload.Some? ==> |d.payload.value| == 8 * Bytes(d.header.value, kind)
                                    && (d.code == 10 <==> CrcPasses(d.payload.value, uap)))
  {
    hide CrcPasses, DecodeBlock, Bytes, PayloadLength, ReadPayload, Decode23;
    CodedLayout(kind);
    var layout := DmLayout(kind.code).value;
    var stream := symbols[kind.start..];
    var d := Decode(symbols, length, kind.code, Some(layout), uap, clock, whitened);
    HeaderBlocks(stream, kind.headerBytes, clock, whitened);
    FailsWith(symbols, kind.start, kind.headerBytes);
    if d.header.Some? {
      var bits := 8 * Bytes(d.header.value, kind);
      assert d.header.value[..8 * kind.headerBytes] == d.header.value;
      HeaderLength(d.header.value, kind);
      AtMost(d.header.value, kind);
      Fits(kind, bits);
      ReadFails(stream, bits, clock, whitened);
      FailsWith(symbols, kind.start, (bits + 9) / 10);
    }
  }

  // A block that no single corrected symbol makes a codeword.
  ghost predicate Uncorrectable(symbols: seq<bool>, start: nat, k: nat)
    requires start + 15 * k + 15 <= |symbols|
  {
    forall data: seq<bool> :: |data| == 10 ==> Distance(symbols[start + 15 * k..start + 15 * k + 15], EncodeBlock(data)) > 1
  }

  lemma UncorrectableExactly(symbols: seq<bool>, start: nat, k: nat)
    requires start + 15 * k + 15 <= |symbols|
    ensures Uncorrectable(symbols, start, k) <==> DecodeBlock(symbols[start..][15 * k..15 * (k + 1)]).None?
  {
    hide DecodeBlock;
    var block := symbols[start + 15 * k..start + 15 * k + 15];
    SliceOfSuffix(symbols, start, 15 * k, 15);
    forall data: seq<bool> | |data| == 10
      ensures DecodeBlock(block) == Some(data) <==> Distance(block, EncodeBlock(data)) <= 1
    {
      DecodeBlockExact(block, data);
    }
    assert 15 * (k + 1) == 15 * k + 15;
    if DecodeBlock(block).Some? {
      assert Distance(block, EncodeBlock(DecodeBlock(block).value)) <= 1;
    }
  }

  lemma FailsWith(symbols: seq<bool>, start: nat, blocks: nat)
    requires start + 15 * blocks <= |symbols|
    ensures Decode23(symbols[start..], blocks).None? <==> exists k :: 0 <= k < blocks && Uncorrectable(symbols, start, k)
  {
    hide DecodeBlock, Decode23, Uncorrectable;
    var stream := symbols[start..];
    Decode23Fails(stream, blocks);
    forall k: nat | k < blocks
      ensures Uncorrectable(symbols, start, k) <==> DecodeBlock(stream[15 * k..15 * (k + 1)]).None?
    {
      UncorrectableExactly(symbols, start, k);
    }
    if k: nat :| k < blocks && DecodeBlock(stream[15 * k..15 * (k + 1)]).None? {
      assert Uncorrectable(symbols, start, k);
    }
  }

  lemma ReadFails(stream: seq<bool>, bits: nat, clock: nat, whitened: bool)
    requires 15 * ((bits + 9) / 10) <= |stream|
    ensures ReadPayload(stream, bits, clock, true, whitened).None? <==> Decode23(stream, (bits + 9) / 10).None?
  {
    hide Decode23;
  }

  lemma HeaderBlocks(stream: seq<bool>, headerBytes: nat, clock: nat, whitened: bool)
    requires (headerBytes == 1 || headerBytes == 2) && 30 <= |stream|
    ensures ReadPayload(stream, 8 * headerBytes, clock, true, whitened).None? <==> Decode23(stream, headerBytes).None?
  {
    hide Decode23;
    ReadFails(stream, 8 * headerBytes, clock, whitened);
    assert (8 * headerBytes + 9) / 10 == headerBytes;
  }

  // ---------- DH1, DH3, DH5 ----------

  // The symbols from `start` on are the payload, whitened from position 18 of the whitening word on.
  ghost predicate CarriedPlain(symbols: seq<bool>, start: nat, payload: seq<bool>, clock: nat, whitened: bool)
    requires start + |payload| <= |symbols|
  {
    forall i :: 0 <= i < |payload| ==> symbols[start + i] == (payload[i] != (whitened && Whitener(clock, 18 + i)))
  }

  lemma CarriesPlain(symbols: seq<bool>, start: nat, payload: seq<bool>, clock: nat, whitened: bool)
    requires start + |payload| <= |symbols|
    ensures symbols[start..][..|payload|] == Plain(payload, clock, 18, whitened)
            <==> CarriedPlain(symbols, start, payload, clock, whitened)
  {
    hide Whitener;
    WhitenedData(symbols[start..], payload, clock, whitened);
    assert forall i :: 0 <= i < |payload| ==> symbols[start..][i] == symbols[start + i];
  }

  // DH returns 10 with a payload exactly when the payload agrees with its header and check, and as many
  // symbols as it has bits were received and carry it.
  lemma DhInNumbers(symbols: seq<bool>, length: nat, kind: Kind, uap: nat, clock: nat, whitened: bool, payload: seq<bool>)
    requires |symbols| == 3125 && Uncoded(kind)
    ensures var d := Decode(symbols, length, kind.code, DhLayout(kind.code), uap, clock, whitened);
            d.code == 10 && d.payload == Some(payload)
            <==> && Agreeing(payload, kind, uap) && |payload| <= 8 * kind.longest
                 && length >= kind.start + |payload| && CarriedPlain(symbols, kind.start, payload, clock, whitened)
  {
    hide CrcPasses, CarriedPlain, Decode, Bytes, PayloadLength;
    UncodedLayout(kind);
    var layout := DhLayout(kind.code).value;
    DhExact(symbols, length, kind.code, layout, uap, clock, whitened, payload);
    AgreeingIsConsistent(payload, kind, layout, uap);
    if Agreeing(payload, kind, uap) {
      AtMost(payload, kind);
      CarriesPlain(symbols, kind.start, payload, clock, whitened);
    }
  }

  lemma DhArrives(symbols: seq<bool>, length: nat, kind: Kind, uap: nat, clock: nat, whitened: bool, llid: nat, flow: bool,
                  body: seq<bool>)
    requires |symbols| == 3125 && Uncoded(kind) && llid < 4
    requires |body| % 8 == 0 && |body| / 8 + kind.headerBytes + 2 <= kind.longest
    requires var sent := SentPayload(kind.headerBytes, llid, flow, body, uap);
             kind.start + |sent| <= length <= 3125 && CarriedPlain(symbols, kind.start, sent, clock, whitened)
    ensures var sent := SentPayload(kind.headerBytes, llid, flow, body, uap);
            && Decode(symbols, length, kind.code, DhLayout(kind.code), uap, clock, whitened)
               == Decoded(10, Some(sent[..8 * kind.headerBytes]), Some(sent))
            && sent[8 * kind.headerBytes..|sent| - 16] == body
            && AirToHost(sent[0..2]) == llid && AirToHost(sent[2..3]) == (if flow then 1 else 0)
  {
    hide CarriedPlain, Decode;
    UncodedLayout(kind);
    var layout := DhLayout(kind.code).value;
    CarriesPlain(symbols, kind.start, SentPayload(kind.headerBytes, llid, flow, body, uap), clock, whitened);
    SentIsConsistent(kind.code, layout, uap, llid, flow, body);
    DhRoundTrip(symbols, length, kind.code, layout, uap, clock, whitened, llid, flow, body);
  }

  // The other codes: 0 when not even the header was received, 1 when fewer symbols are left than the
  // payload has bits, and 2 when the check fails.
  lemma DhCodes(symbols: seq<bool>, length: nat, kind: Kind, uap: nat, clock: nat, whitened: bool)
    requires |symbols| == 3125 && Uncoded(kind)
    ensures var d := Decode(symbols, length, kind.code, DhLayout(kind.code), uap, clock, whitened);
            && (d.header.None? <==> length < kind.start + 8 * kind.headerBytes)
            && (d.code == 0 <==> d.header.None?)
            && (d.header.Some? ==> |d.header.value| == 8 * kind.headerBytes && Bytes(d.header.value, kind) <= kind.longest
                                   && CarriedPlain(symbols, kind.start, d.header.value, clock, whitened))
            && (d.code == 1 <==> d.header.Some? && length < kind.start + 8 * Bytes(d.header.value, kind))
            && (d.payload.Some? <==> d.code == 10 || d.code == 2)
            && (d.payload.Some? ==> |d.payload.value| == 8 * Bytes(d.header.value, kind)
                                    && CarriedPlain(symbols, kind.start, d.payload.value, clock, whitened)
                                    && (d.code == 10 <==> CrcPasses(d.payload.value, uap)))
  {
    hide CrcPasses, Bytes, PayloadLength, Plain, CarriedPlain;
    UncodedLayout(kind);
    var layout := DhLayout(kind.code).value;
    var d := Decode(symbols, length, kind.code, Some(layout), uap, clock, whitened);
    var stream := symbols[kind.start..];
    if d.header.Some? {
      assert d.header.value[..8 * kind.headerBytes] == d.header.value;
      HeaderLength(d.header.value, kind);
      AtMost(d.header.value, kind);
      PlainTwice(stream[..8 * kind.headerBytes], clock, 18, whitened);
      CarriesPlain(symbols, kind.start, d.header.value, clock, whitened);
    }
    if d.payload.Some? {
      PlainTwice(stream[..|d.payload.value|], clock, 18, whitened);
      CarriesPlain(symbols, kind.start, d.payload.value, clock, whitened);
    }
  }
}
