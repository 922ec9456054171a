/** Decoding one received packet: its header, and the payloads of the DM and DH types. */
module Packets {
  import opened Wrappers
  import opened Bits
  import opened Fec
  import opened Whitening
  import opened HeaderCheck
  import opened PayloadCheck

  // Flags of a packet; a flag word is the set of the flags that are set.
  const WHITENED := 0
  const UAP_VALID := 2
  const CLK6_VALID := 4
  const CLK27_VALID := 5

  const MAX_SYMBOLS := 3125
  const MAX_PAYLOAD_LENGTH := 2744

  const TYPE_DM1 := 3
  const TYPE_DH1 := 4
  const TYPE_DV := 8
  const TYPE_AUX1 := 9
  const TYPE_DM3 := 10
  const TYPE_DH3 := 11
  const TYPE_DM5 := 14
  const TYPE_DH5 := 15

  // ---------- the packet header ----------

  function Plain(air: seq<bool>, clock: nat, skip: nat, whitened: bool): (plain: seq<bool>)
    ensures |plain| == |air|
  {
    if whitened then Unwhitened(air, clock, skip) else air
  }

  // The 18 header bits, or None when the triples disagree too often.
  function ReadHeader(symbols: seq<bool>, clock: nat, whitened: bool): (header: Option<seq<bool>>)
    requires |symbols| == MAX_SYMBOLS
    ensures header.Some? ==> |header.value| == 18
  {
    if Disagreements(symbols[68..], 18) < 18 / 4 then
      Some(Plain(Decode13(symbols[68..], 18), clock, 0, whitened))
    else None
  }

  function HeaderUap(header: seq<bool>): (uap: nat)
    requires |header| == 18
    ensures uap < 256
  {
    UapOf(header[..10], header[10..])
  }

  // With at most one wrong symbol in each triple, the header is read back exactly when at most
  // three triples are hit; it then carries the sender's bits and names the sender's UAP.
  lemma HeaderRoundTrip(symbols: seq<bool>, data: seq<bool>, uap: nat, clock: nat, whitened: bool)
    requires |symbols| == MAX_SYMBOLS && |data| == 10 && uap < 256
    requires var sent := Plain(data + Hec(data, uap), clock, 0, whitened);
             forall i: nat :: i < 18 ==> TripleErrors(symbols[68..], sent, i) <= 1
    ensures var sent := Plain(data + Hec(data, uap), clock, 0, whitened);
            ReadHeader(symbols, clock, whitened)
            == if Errors13(symbols[68..], sent, 18) <= 3 then Some(data + Hec(data, uap)) else None
    ensures HeaderUap(data + Hec(data, uap)) == uap
  {
    var header := data + Hec(data, uap);
    var sent := Plain(header, clock, 0, whitened);
    Decode13Exact(symbols[68..], sent);
    DisagreementsAreErrors(symbols[68..], sent, 18);
    UnwhitenTwice(header, clock, 0);
    assert header[..10] == data && header[10..] == Hec(data, uap);
    UapOfExact(data, Hec(data, uap), uap);
  }

  // ---------- the payload header ----------

  // The longest payload the source believes for a type; 0 for the types it does not list.
  function MaxLength(packetType: nat): nat
  {
    match packetType
    case TYPE_DM1 => 20
    case TYPE_DH1 => 30
    case TYPE_DV => 12
    case TYPE_DM3 => 125
    case TYPE_DH3 => 187
    case TYPE_DM5 => 228
    case TYPE_DH5 => 343
    case _ => 0
  }

  // Payload bits at the start of a stream, with or without error correction.
  function ReadPayload(stream: seq<bool>, bits: nat, clock: nat, fec: bool, whitened: bool): (payload: Option<seq<bool>>)
    requires (if fec then 15 * Rounds(bits) else bits) <= |stream|
    ensures payload.Some? ==> |payload.value| == bits
  {
    if fec then
      var data := Decode23(stream, Rounds(bits));
      if data.None? then None else Some(Plain(data.value[..bits], clock, 18, whitened))
    else Some(Plain(stream[..bits], clock, 18, whitened))
  }

  function ReadPayloadHeader(stream: seq<bool>, headerBytes: nat, size: int, clock: nat, fec: bool, whitened: bool):
    (header: Option<seq<bool>>)
    requires 1 <= headerBytes <= 2 && 30 <= |stream|
    ensures header.Some? ==> |header.value| == 8 * headerBytes
  {
    if size < 8 * headerBytes || (fec && size < 15 * headerBytes) then None
    else ReadPayload(stream, 8 * headerBytes, clock, fec, whitened)
  }

  // Body, payload header and check, in bytes, as the length field of the payload header says.
  function SaidLength(header: seq<bool>, headerBytes: nat): nat
    requires 1 <= headerBytes <= 2 && |header| >= 8 * headerBytes
  {
    if headerBytes == 2 then AirToHost(header[3..13]) + 4 else AirToHost(header[3..8]) + 3
  }

  function PayloadLength(header: seq<bool>, headerBytes: nat, packetType: nat): nat
    requires 1 <= headerBytes <= 2 && |header| >= 8 * headerBytes
  {
    var said := SaidLength(header, headerBytes);
    if said < MaxLength(packetType) then said else MaxLength(packetType)
  }

  // ---------- the DM and DH types ----------

  // Where the asynchronous data of a type start, how long their header is, and how long they may be.
  datatype Layout = Layout(start: nat, headerBytes: nat, maxLength: nat, fec: bool)

  function DmLayout(packetType: nat): (layout: Option<Layout>)
    ensures layout.Some? ==> layout.value.headerBytes == 1 || layout.value.headerBytes == 2
  {
    match packetType
    case TYPE_DV => Some(Layout(202, 1, 12, true))
    case TYPE_DM1 => Some(Layout(122, 1, 20, true))
    case TYPE_DM3 => Some(Layout(122, 2, 125, true))
    case TYPE_DM5 => Some(Layout(122, 2, 228, true))
    case _ => None
  }

  function DhLayout(packetType: nat): (layout: Option<Layout>)
    ensures layout.Some? ==> layout.value.headerBytes == 1 || layout.value.headerBytes == 2
  {
    match packetType
    case TYPE_DH1 => Some(Layout(122, 1, 30, false))
    case TYPE_AUX1 => Some(Layout(122, 1, 30, false))
    case TYPE_DH3 => Some(Layout(122, 2, 187, false))
    case TYPE_DH5 => Some(Layout(122, 2, 343, false))
    case _ => None
  }

  // The code that is returned, and what has been read by then.
  datatype Decoded = Decoded(code: int, header: Option<seq<bool>>, payload: Option<seq<bool>>)

  // The specification of DM and DH: `length` symbols were received of the packet.
  function Decode(symbols: seq<bool>, length: nat, packetType: nat, layout: Option<Layout>, uap: nat, clock: nat,
                  whitened: bool): Decoded
    requires |symbols| == MAX_SYMBOLS
    requires layout == DmLayout(packetType) || layout == DhLayout(packetType)
  {
    if layout.None? then Decoded(0, None, None)
    else
      var Layout(start, headerBytes, maxLength, fec) := layout.value;
      var stream, size := symbols[start..], length - start;
      var header := ReadPayloadHeader(stream, headerBytes, size, clock, fec, whitened);
      if header.None? then Decoded(0, None, None)
      else DecodeBody(symbols, length, packetType, layout.value, header.value, uap, clock, whitened)
  }

  // The part of Decode after the payload header.
  function DecodeBody(symbols: seq<bool>, length: nat, packetType: nat, layout: Layout, header: seq<bool>, uap: nat, clock: nat,
                      whitened: bool): (d: Decoded)
    requires |symbols| == MAX_SYMBOLS && |header| == 8 * layout.headerBytes
    requires Some(layout) == DmLayout(packetType) || Some(layout) == DhLayout(packetType)
    ensures d.header == Some(header)
  {
    var bits := 8 * PayloadLength(header, layout.headerBytes, packetType);
    if bits > 8 * layout.maxLength || bits > length - layout.start then Decoded(1, Some(header), None)
    else
      var payload := ReadPayload(symbols[layout.start..], bits, clock, layout.fec, whitened);
      if payload.None? then Decoded(0, Some(header), None)
      else if packetType == TYPE_AUX1 then Decoded(2, Some(header), payload)
      else Decoded(if CrcPasses(payload.value, uap) then 10 else 2, Some(header), payload)
  }

  // The source cuts an overlong length down to the limit of the type before it tests it against
  // the same limit, so its test for a length out of range never fires.
  lemma LengthIsClipped(header: seq<bool>, packetType: nat, layout: Layout)
    requires Some(layout) == DmLayout(packetType) || Some(layout) == DhLayout(packetType)
    requires |header| == 8 * layout.headerBytes
    ensures PayloadLength(header, layout.headerBytes, packetType) <= layout.maxLength
    ensures packetType != TYPE_AUX1 ==> layout.headerBytes + 2 <= PayloadLength(header, layout.headerBytes, packetType)
    ensures packetType != TYPE_AUX1 ==>
              (PayloadLength(header, layout.headerBytes, packetType) == SaidLength(header, layout.headerBytes)
               <==> SaidLength(header, layout.headerBytes) <= layout.maxLength)
  {
  }

  class Packet {
    var flags: set<nat>
    var uap: nat
    var packetType: nat
    var packetLtAddr: nat
    var packetFlags: nat
    var packetHec: nat
    var payloadHeaderLength: nat
    var payloadLlid: nat
    var payloadFlow: nat
    var payloadLength: nat
    var clkn: nat
    var length: nat
    const packetHeader: array<bool>
    const payloadHeader: array<bool>
    const payload: array<bool>
    const symbols: array<bool>

    ghost predicate Valid()
    {
      packetHeader.Length == 18 && payloadHeader.Length == 16
      && payload.Length == MAX_PAYLOAD_LENGTH && symbols.Length == MAX_SYMBOLS
      && packetHeader != payloadHeader && packetHeader != payload && packetHeader != symbols
      && payloadHeader != payload && payloadHeader != symbols && payload != symbols
    }

    constructor ()
      ensures Valid() && flags == {} && length == 0
      ensures fresh(packetHeader) && fresh(payloadHeader) && fresh(payload) && fresh(symbols)
    {
      flags := {};
      uap, packetType, packetLtAddr, packetFlags, packetHec := 0, 0, 0, 0, 0;
      payloadHeaderLength, payloadLlid, payloadFlow, payloadLength, clkn, length := 0, 0, 0, 0, 0, 0;
      packetHeader := new bool[18](_ => false);
      payloadHeader := new bool[16](_ => false);
      payload := new bool[MAX_PAYLOAD_LENGTH](_ => false);
      symbols := new bool[MAX_SYMBOLS](_ => false);
    }

    // Tries a value of CLK6-1 on the header; sets the type and the UAP, and returns the UAP.
    method TryClock(clock: nat) returns (found: nat)
      requires Valid()
      modifies this`uap, this`packetType
      ensures match ReadHeader(symbols[..], clock, WHITENED in flags)
              case None => found == 0 && uap == old(uap) && packetType == old(packetType)
              case Some(header) =>
                found == uap == HeaderUap(header) && packetType == AirToHost(header[3..7])
    {
      var unwhitened := new bool[18];
      var ok := HeaderInto(unwhitened, clock);
      if !ok {
        return 0;
      }
      ghost var header := unwhitened[..];
      assert unwhitened[..10] == header[..10] && unwhitened[10..18] == header[10..];
      uap := UapFromHec(unwhitened[..10], unwhitened[10..18]);
      packetType := AirToHost(unwhitened[3..7]);
      return uap;
    }

    // Decodes the triples of the header and unwhitens the result.
    method HeaderInto(output: array<bool>, clock: nat) returns (ok: bool)
      requires Valid() && output.Length == 18 && output != symbols
      modifies output
      ensures match ReadHeader(symbols[..], clock, WHITENED in flags)
              case None => !ok && output[..] == old(output[..])
              case Some(header) => ok && output[..] == header
    {
      var header := new bool[18];
      ok := Unfec13(symbols, 68, header, 18);
      assert symbols[68..] == symbols[..][68..];
      if ok {
        Unwhiten(header, 0, output, clock, 18, 0, WHITENED in flags);
        assert header[0..18] == header[..18] && output[..18] == output[..];
      }
    }

    // Decodes the header with the clock of the packet; true exactly when the header can be read and
    // names the UAP of the packet.
    method DecodeHeader() returns (ok: bool)
      requires Valid()
      modifies this`packetLtAddr, this`packetType, this`packetFlags, this`packetHec, packetHeader
      ensures var header := if CLK6_VALID in flags then ReadHeader(symbols[..], clkn, WHITENED in flags) else None;
              && ok == (header.Some? && HeaderUap(header.value) == uap)
              && packetHeader[..] == (if header.Some? then header.value else old(packetHeader[..]))
              && (ok ==> packetLtAddr == AirToHost(header.value[0..3])
                         && packetType == AirToHost(header.value[3..7])
                         && packetFlags == AirToHost(header.value[7..10])
                         && packetHec == AirToHost(header.value[10..18]))
      ensures !ok ==> packetLtAddr == old(packetLtAddr) && packetType == old(packetType)
                      && packetFlags == old(packetFlags) && packetHec == old(packetHec)
    {
      if CLK6_VALID !in flags {
        return false;
      }
      ok := HeaderInto(packetHeader, clkn);
      if !ok {
        return false;
      }
      ghost var plain := packetHeader[..];
      assert packetHeader[..10] == plain[..10] && packetHeader[10..18] == plain[10..];
      var found := UapFromHec(packetHeader[..10], packetHeader[10..18]);
      if found != uap {
        return false;
      }
      packetLtAddr := AirToHost(packetHeader[0..3]);
      packetType := AirToHost(packetHeader[3..7]);
      packetFlags := AirToHost(packetHeader[7..10]);
      packetHec := AirToHost(packetHeader[10..18]);
      return true;
    }

    // Reads the payload header at symbols[start..]; `size` symbols of the packet are left there.
    method DecodePayloadHeader(start: nat, clock: nat, headerBytes: nat, size: int, fec: bool) returns (ok: bool)
      requires Valid() && 1 <= headerBytes <= 2 && start + 30 <= MAX_SYMBOLS
      modifies this`payloadLength, this`payloadLlid, this`payloadFlow, this`payloadHeaderLength, payloadHeader
      ensures var header := ReadPayloadHeader(symbols[start..], headerBytes, size, clock, fec, WHITENED in flags);
              && ok == header.Some?
              && (ok ==> payloadHeader[..8 * headerBytes] == header.value
                         && payloadLength == PayloadLength(header.value, headerBytes, packetType)
                         && payloadLlid == AirToHost(header.value[0..2])
                         && payloadFlow == AirToHost(header.value[2..3])
                         && payloadHeaderLength == headerBytes)
      ensures !ok ==> payloadHeader[..] == old(payloadHeader[..]) && payloadLength == old(payloadLength)
                      && payloadLlid == old(payloadLlid) && payloadFlow == old(payloadFlow)
                      && payloadHeaderLength == old(payloadHeaderLength)
    {
      var bits := 8 * headerBytes;
      if size < bits || (fec && size < 15 * headerBytes) {
        return false;
      }
      ok := ReadInto(payloadHeader, start, clock, bits, fec);
      if !ok {
        return false;
      }
      ghost var header := payloadHeader[..bits];
      if headerBytes == 2 {
        assert payloadHeader[3..13] == header[3..13];
        payloadLength := AirToHost(payloadHeader[3..13]) + 4;
      } else {
        assert payloadHeader[3..8] == header[3..8];
        payloadLength := AirToHost(payloadHeader[3..8]) + 3;
      }
      if payloadLength >= MaxLength(packetType) {
        payloadLength := MaxLength(packetType);
      }
      assert payloadHeader[0..2] == header[0..2] && payloadHeader[2..3] == header[2..3];
      payloadLlid := AirToHost(payloadHeader[0..2]);
      payloadFlow := AirToHost(payloadHeader[2..3]);
      payloadHeaderLength := headerBytes;
      return true;
    }

    // Corrects (if the type is coded) and unwhitens `bits` payload bits from symbols[start..].
    method ReadInto(output: array<bool>, start: nat, clock: nat, bits: nat, fec: bool) returns (ok: bool)
      requires Valid() && output != symbols && bits <= output.Length
      requires start + (if fec then 15 * Rounds(bits) else bits) <= MAX_SYMBOLS
      modifies output
      ensures var read := ReadPayload(symbols[start..], bits, clock, fec, WHITENED in flags);
              && ok == read.Some?
              && (ok ==> output[..bits] == read.value && output[bits..] == old(output[bits..]))
              && (!ok ==> output[..] == old(output[..]))
    {
      if fec {
        var corrected := Unfec23(symbols, start, bits);
        if corrected == null {
          return false;
        }
        assert corrected[..][..bits] == corrected[0..bits];
        Unwhiten(corrected, 0, output, clock, bits, 18, WHITENED in flags);
      } else {
        assert symbols[start..][..bits] == symbols[start..start + bits];
        Unwhiten(symbols, start, output, clock, bits, 18, WHITENED in flags);
      }
      return true;
    }

    // Compares the check at the end of the payload with the one computed under the UAP.
    method CheckPayload() returns (ok: bool)
      requires Valid() && 2 <= payloadLength && 8 * payloadLength <= MAX_PAYLOAD_LENGTH
      ensures ok == CrcPasses(payload[..8 * payloadLength], uap)
    {
      var n := (payloadLength - 2) * 8;
      var crc := Crcgen(payload, n, uap);
      ghost var word := payload[..n + 16];
      assert word[..n] == payload[..n] && word[n..] == payload[n..n + 16];
      ok := crc == payload[n..n + 16];
    }

    // DM 1/3/5 packets and the data part of DV.
    method DM(clock: nat) returns (code: int)
      requires Valid()
      modifies this`payloadLength, this`payloadLlid, this`payloadFlow, this`payloadHeaderLength, payloadHeader, payload
      ensures DecodedTo(Decode(symbols[..], length, packetType, DmLayout(packetType), uap, clock, WHITENED in flags), code)
    {
      var layout := DmLayout(packetType);
      if layout.None? {
        return 0;
      }
      code := DecodeLaidOut(layout.value, clock);
    }

    // DH 1/3/5 packets and AUX1: similar, without error correction.
    method DH(clock: nat) returns (code: int)
      requires Valid()
      modifies this`payloadLength, this`payloadLlid, this`payloadFlow, this`payloadHeaderLength, payloadHeader, payload
      ensures DecodedTo(Decode(symbols[..], length, packetType, DhLayout(packetType), uap, clock, WHITENED in flags), code)
    {
      var layout := DhLayout(packetType);
      if layout.None? {
        return 0;
      }
      code := DecodeLaidOut(layout.value, clock);
    }

    // The packet holds what has been decoded, and what has not been decoded is as before.
    twostate predicate DecodedTo(d: Decoded, code: int)
      requires Valid()
      reads this, payload, payloadHeader
    {
      && code == d.code
      && (match d.header
          case Some(header) =>
            && |header| <= 16 && |header| == 8 * payloadHeaderLength && 1 <= payloadHeaderLength <= 2
            && payloadHeader[..|header|] == header
            && payloadLength == PayloadLength(header, payloadHeaderLength, packetType)
            && payloadLlid == AirToHost(header[0..2])
            && payloadFlow == AirToHost(header[2..3])
          case None =>
            && payloadHeader[..] == old(payloadHeader[..]) && payloadLength == old(payloadLength)
            && payloadLlid == old(payloadLlid) && payloadFlow == old(payloadFlow)
            && payloadHeaderLength == old(payloadHeaderLength))
      && (match d.payload
          case Some(bits) =>
            && |bits| == 8 * payloadLength && |bits| <= payload.Length
            && payload[..|bits|] == bits && payload[|bits|..] == old(payload[|bits|..])
          case None => payload[..] == old(payload[..]))
    }

    // The common part of DM and DH once the type has fixed the layout.
    method DecodeLaidOut(layout: Layout, clock: nat) returns (code: int)
      requires Valid() && (Some(layout) == DmLayout(packetType) || Some(layout) == DhLayout(packetType))
      modifies this`payloadLength, this`payloadLlid, this`payloadFlow, this`payloadHeaderLength, payloadHeader, payload
      ensures DecodedTo(Decode(symbols[..], length, packetType, Some(layout), uap, clock, WHITENED in flags), code)
    {
      hide DecodeBody, PayloadLength, ReadPayload;
      var size := length - layout.start;
      assert symbols[layout.start..] == symbols[..][layout.start..];
      var ok := DecodePayloadHeader(layout.start, clock, layout.headerBytes, size, layout.fec);
      if !ok {
        return 0;
      }
      code := DecodeRest(layout, clock, payloadHeader[..8 * layout.headerBytes]);
    }

    method DecodeRest(layout: Layout, clock: nat, ghost header: seq<bool>) returns (code: int)
      requires Valid() && (Some(layout) == DmLayout(packetType) || Some(layout) == DhLayout(packetType))
      requires |header| == 8 * layout.headerBytes && payloadLength == PayloadLength(header, layout.headerBytes, packetType)
      modifies payload
      ensures var d := DecodeBody(symbols[..], length, packetType, layout, header, uap, clock, WHITENED in flags);
              && code == d.code
              && (d.payload.Some? ==> |d.payload.value| == 8 * payloadLength <= payload.Length
                                      && payload[..8 * payloadLength] == d.payload.value
                                      && payload[8 * payloadLength..] == old(payload[8 * payloadLength..]))
              && (d.payload.None? ==> payload[..] == old(payload[..]))
    {
      hide PayloadLength;
      if payloadLength > layout.maxLength {
        return 1;
      }
      var bits := 8 * payloadLength;
      if bits > length - layout.start {
        return 1;
      }
      assert symbols[layout.start..] == symbols[..][layout.start..];
      var ok := ReadInto(payload, layout.start, clock, bits, layout.fec);
      if !ok {
        return 0;
      }
      if packetType == TYPE_AUX1 {
        return 2;
      }
      LengthIsClipped(header, packetType, layout);
      ok := CheckPayload();
      return if ok then 10 else 2;
    }
  }

  // ---------- what DM and DH decode ----------

  lemma {:induction false} Decode23Prefix(air: seq<bool>, m: nat, n: nat)
    requires m <= n && 15 * n <= |air| && Decode23(air, n).Some?
    ensures Decode23(air, m) == Some(Decode23(air, n).value[..10 * m])
  {
    if m < n {
      Decode23Prefix(air, m, n - 1);
      assert Decode23(air, n).value[..10 * m] == Decode23(air, n - 1).value[..10 * m];
    } else {
      assert Decode23(air, n).value[..10 * n] == Decode23(air, n).value;
    }
  }

  ghost predicate AllNear(air: seq<bool>, data: seq<bool>, blocks: nat)
    requires 15 * blocks <= |air| && |data| == 10 * blocks
  {
    forall k: nat :: k < blocks ==> NearBlock(air, data, k)
  }

  // The stream carries a payload: it is within one symbol a block of the code of the whitened
  // payload, whatever fills up the last block.
  ghost predicate Carries(air: seq<bool>, payload: seq<bool>, clock: nat, whitened: bool)
    requires 15 * Rounds(|payload|) <= |air|
  {
    exists data: seq<bool> ::
      && |data| == 10 * Rounds(|payload|)
      && data[..|payload|] == Plain(payload, clock, 18, whitened)
      && AllNear(air, data, Rounds(|payload|))
  }

  lemma PlainTwice(air: seq<bool>, clock: nat, skip: nat, whitened: bool)
    ensures Plain(Plain(air, clock, skip, whitened), clock, skip, whitened) == air
  {
    UnwhitenTwice(air, clock, skip);
  }

  lemma ReadPayloadExact(air: seq<bool>, payload: seq<bool>, clock: nat, whitened: bool)
    requires 15 * Rounds(|payload|) <= |air|
    ensures ReadPayload(air, |payload|, clock, true, whitened) == Some(payload) <==> Carries(air, payload, clock, whitened)
  {
    var blocks := Rounds(|payload|);
    var decoded := Decode23(air, blocks);
    PlainTwice(payload, clock, 18, whitened);
    if decoded.Some? {
      Decode23Exact(air, decoded.value, blocks);
      PlainTwice(decoded.value[..|payload|], clock, 18, whitened);
      assert AllNear(air, decoded.value, blocks);
    }
    if Carries(air, payload, clock, whitened) {
      var data :| |data| == 10 * blocks && data[..|payload|] == Plain(payload, clock, 18, whitened) && AllNear(air, data, blocks);
      Decode23Exact(air, data, blocks);
    }
  }

  // The payload header read from a coded stream is the start of the payload read from it.
  lemma HeaderStartsPayload(air: seq<bool>, n: nat, bits: nat, clock: nat, whitened: bool)
    requires n <= bits && 15 * Rounds(bits) <= |air|
    requires ReadPayload(air, bits, clock, true, whitened).Some?
    ensures ReadPayload(air, n, clock, true, whitened) == Some(ReadPayload(air, bits, clock, true, whitened).value[..n])
  {
    Decode23Prefix(air, Rounds(n), Rounds(bits));
    var data := Decode23(air, Rounds(bits)).value;
    assert data[..10 * Rounds(n)][..n] == data[..bits][..n];
    PlainPrefix(data[..bits], n, clock, 18, whitened);
  }

  lemma PlainPrefix(air: seq<bool>, n: nat, clock: nat, skip: nat, whitened: bool)
    requires n <= |air|
    ensures Plain(air[..n], clock, skip, whitened) == Plain(air, clock, skip, whitened)[..n]
  {
  }

  // A payload whose length is the one its own header leads to, and whose check is right.
  predicate Consistent(payload: seq<bool>, packetType: nat, layout: Layout, uap: nat)
    requires layout.headerBytes == 1 || layout.headerBytes == 2
  {
    && |payload| >= 8 * layout.headerBytes + 16
    && |payload| == 8 * PayloadLength(payload[..8 * layout.headerBytes], layout.headerBytes, packetType)
    && CrcPasses(payload, uap)
  }

  lemma LengthBounds(header: seq<bool>, packetType: nat, layout: Layout)
    requires DmLayout(packetType) == Some(layout) && |header| == 8 * layout.headerBytes
    ensures layout.headerBytes + 2 <= PayloadLength(header, layout.headerBytes, packetType) <= 228
    ensures layout.start + 15 * Rounds(8 * PayloadLength(header, layout.headerBytes, packetType)) <= MAX_SYMBOLS
    ensures Rounds(8 * layout.headerBytes) == layout.headerBytes
  {
  }

  // Enough symbols were received, and they carry the payload up to one wrong symbol a block.
  ghost predicate Received(symbols: seq<bool>, length: nat, layout: Layout, clock: nat, whitened: bool, payload: seq<bool>)
    requires |symbols| == MAX_SYMBOLS && layout.start <= MAX_SYMBOLS
  {
    && layout.start + 15 * layout.headerBytes <= length && layout.start + |payload| <= length
    && 15 * Rounds(|payload|) <= MAX_SYMBOLS - layout.start
    && Carries(symbols[layout.start..], payload, clock, whitened)
  }

  lemma DmSound(symbols: seq<bool>, length: nat, packetType: nat, layout: Layout, uap: nat, clock: nat, whitened: bool)
    requires |symbols| == MAX_SYMBOLS && DmLayout(packetType) == Some(layout)
    requires Decode(symbols, length, packetType, Some(layout), uap, clock, whitened).code == 10
    ensures var d := Decode(symbols, length, packetType, Some(layout), uap, clock, whitened);
            && d.payload.Some? && |d.payload.value| >= 8 * layout.headerBytes
            && d.header == Some(d.payload.value[..8 * layout.headerBytes])
            && Consistent(d.payload.value, packetType, layout, uap)
            && Received(symbols, length, layout, clock, whitened, d.payload.value)
  {
    var stream, n := symbols[layout.start..], 8 * layout.headerBytes;
    var d := Decode(symbols, length, packetType, Some(layout), uap, clock, whitened);
    LengthBounds(d.header.value, packetType, layout);
    HeaderStartsPayload(stream, n, |d.payload.value|, clock, whitened);
    ReadPayloadExact(stream, d.payload.value, clock, whitened);
  }

  lemma DmComplete(symbols: seq<bool>, length: nat, packetType: nat, layout: Layout, uap: nat, clock: nat, whitened: bool,
                   payload: seq<bool>)
    requires |symbols| == MAX_SYMBOLS && DmLayout(packetType) == Some(layout)
    requires Consistent(payload, packetType, layout, uap) && Received(symbols, length, layout, clock, whitened, payload)
    ensures Decode(symbols, length, packetType, Some(layout), uap, clock, whitened)
            == Decoded(10, Some(payload[..8 * layout.headerBytes]), Some(payload))
  {
    var stream, n := symbols[layout.start..], 8 * layout.headerBytes;
    LengthBounds(payload[..n], packetType, layout);
    ReadPayloadExact(stream, payload, clock, whitened);
    HeaderStartsPayload(stream, n, |payload|, clock, whitened);
  }

  // DM reports success with a payload exactly when enough symbols were received, they carry that
  // payload up to one wrong symbol a block, and the payload agrees with its own header and check.
  lemma DmExact(symbols: seq<bool>, length: nat, packetType: nat, layout: Layout, uap: nat, clock: nat, whitened: bool,
                payload: seq<bool>)
    requires |symbols| == MAX_SYMBOLS && DmLayout(packetType) == Some(layout)
    ensures var d := Decode(symbols, length, packetType, Some(layout), uap, clock, whitened);
            d.code == 10 && d.payload == Some(payload)
            <==> Consistent(payload, packetType, layout, uap) && Received(symbols, length, layout, clock, whitened, payload)
  {
    var d := Decode(symbols, length, packetType, Some(layout), uap, clock, whitened);
    if d.code == 10 && d.payload == Some(payload) {
      DmSound(symbols, length, packetType, layout, uap, clock, whitened);
    } else if Consistent(payload, packetType, layout, uap) && Received(symbols, length, layout, clock, whitened, payload) {
      DmComplete(symbols, length, packetType, layout, uap, clock, whitened, payload);
    }
  }

  // ---------- what a sender sends ----------

  ghost function SentPayloadHeader(headerBytes: nat, llid: nat, flow: bool, bodyBytes: nat): (header: seq<bool>)
    requires 1 <= headerBytes <= 2
    ensures |header| == 8 * headerBytes
  {
    HostToAir(llid, 2) + [flow] + if headerBytes == 1 then HostToAir(bodyBytes, 5) else HostToAir(bodyBytes, 10) + Zeros(3)
  }

  ghost function SentPayload(headerBytes: nat, llid: nat, flow: bool, body: seq<bool>, uap: nat): (payload: seq<bool>)
    requires 1 <= headerBytes <= 2
    ensures |payload| == 8 * headerBytes + |body| + 16
  {
    var data := SentPayloadHeader(headerBytes, llid, flow, |body| / 8) + body;
    data + CrcRun(CrcSeed(uap), data)
  }

  lemma SentHeaderFields(headerBytes: nat, llid: nat, flow: bool, bodyBytes: nat)
    requires 1 <= headerBytes <= 2 && llid < 4 && bodyBytes < if headerBytes == 1 then 32 else 1024
    ensures var header := SentPayloadHeader(headerBytes, llid, flow, bodyBytes);
            && AirToHost(header[0..2]) == llid
            && AirToHost(header[2..3]) == (if flow then 1 else 0)
            && SaidLength(header, headerBytes) == bodyBytes + headerBytes + 2
  {
    var header := SentPayloadHeader(headerBytes, llid, flow, bodyBytes);
    assert Pow2(2) == 4 && Pow2(5) == 32 && Pow2(10) == 1024 by { assert Pow2(5) == 32; }
    AirToHostInverts(llid, 2);
    assert header[0..2] == HostToAir(llid, 2);
    assert header[2..3] == [flow];
    if headerBytes == 1 {
      AirToHostInverts(bodyBytes, 5);
      assert header[3..8] == HostToAir(bodyBytes, 5);
    } else {
      AirToHostInverts(bodyBytes, 10);
      assert header[3..13] == HostToAir(bodyBytes, 10);
    }
  }

  // Every body that fits the type arrives unchanged, with its LLID and flow bit, although one symbol
  // in each block of fifteen may be wrong and whatever was used to fill up the last block.
  lemma DmRoundTrip(symbols: seq<bool>, length: nat, packetType: nat, layout: Layout, uap: nat, clock: nat, whitened: bool,
                    llid: nat, flow: bool, body: seq<bool>)
    requires |symbols| == MAX_SYMBOLS && DmLayout(packetType) == Some(layout) && llid < 4
    requires |body| % 8 == 0 && |body| / 8 + layout.headerBytes + 2 <= layout.maxLength
    requires var sent := SentPayload(layout.headerBytes, llid, flow, body, uap);
             layout.start + 15 * Rounds(|sent|) <= length && length <= MAX_SYMBOLS
             && Carries(symbols[layout.start..], sent, clock, whitened)
    ensures var sent := SentPayload(layout.headerBytes, llid, flow, body, uap);
            && Decode(symbols, length, packetType, Some(layout), uap, clock, whitened)
               == Decoded(10, Some(sent[..8 * layout.headerBytes]), Some(sent))
            && sent[8 * layout.headerBytes..|sent| - 16] == body
            && AirToHost(sent[0..2]) == llid && AirToHost(sent[2..3]) == (if flow then 1 else 0)
  {
    var sent := SentPayload(layout.headerBytes, llid, flow, body, uap);
    SentIsConsistent(packetType, layout, uap, llid, flow, body);
    assert Rounds(|sent|) >= layout.headerBytes;
    DmComplete(symbols, length, packetType, layout, uap, clock, whitened, sent);
  }

  lemma SentIsConsistent(packetType: nat, layout: Layout, uap: nat, llid: nat, flow: bool, body: seq<bool>)
    requires DmLayout(packetType) == Some(layout) || DhLayout(packetType) == Some(layout)
    requires packetType != TYPE_AUX1 && llid < 4
    requires |body| % 8 == 0 && |body| / 8 + layout.headerBytes + 2 <= layout.maxLength
    ensures Consistent(SentPayload(layout.headerBytes, llid, flow, body, uap), packetType, layout, uap)
    ensures var sent := SentPayload(layout.headerBytes, llid, flow, body, uap);
            && sent[..8 * layout.headerBytes] == SentPayloadHeader(layout.headerBytes, llid, flow, |body| / 8)
            && sent[8 * layout.headerBytes..|sent| - 16] == body
            && AirToHost(sent[0..2]) == llid && AirToHost(sent[2..3]) == (if flow then 1 else 0)
  {
    var hb := layout.headerBytes;
    var sent := SentPayload(hb, llid, flow, body, uap);
    var header := SentPayloadHeader(hb, llid, flow, |body| / 8);
    SentHeaderFields(hb, llid, flow, |body| / 8);
    var data := header + body;
    assert sent[..8 * hb] == header;
    assert sent[0..2] == header[0..2] && sent[2..3] == header[2..3];
    assert sent[..|sent| - 16] == data && sent[|sent| - 16..] == CrcRun(CrcSeed(uap), data);
    LengthIsClipped(header, packetType, layout);
  }

  // The uncoded types deliver every body that fits, provided no symbol is wrong.
  lemma DhRoundTrip(symbols: seq<bool>, length: nat, packetType: nat, layout: Layout, uap: nat, clock: nat, whitened: bool,
                    llid: nat, flow: bool, body: seq<bool>)
    requires |symbols| == MAX_SYMBOLS && DhLayout(packetType) == Some(layout) && packetType != TYPE_AUX1 && llid < 4
    requires |body| % 8 == 0 && |body| / 8 + layout.headerBytes + 2 <= layout.maxLength
    requires var sent := SentPayload(layout.headerBytes, llid, flow, body, uap);
             layout.start + |sent| <= length <= MAX_SYMBOLS
             && symbols[layout.start..][..|sent|] == Plain(sent, clock, 18, whitened)
    ensures var sent := SentPayload(layout.headerBytes, llid, flow, body, uap);
            Decode(symbols, length, packetType, Some(layout), uap, clock, whitened)
            == Decoded(10, Some(sent[..8 * layout.headerBytes]), Some(sent))
  {
    var sent := SentPayload(layout.headerBytes, llid, flow, body, uap);
    var stream, n := symbols[layout.start..], 8 * layout.headerBytes;
    SentIsConsistent(packetType, layout, uap, llid, flow, body);
    PlainTwice(sent, clock, 18, whitened);
    PlainPrefix(stream[..|sent|], n, clock, 18, whitened);
    SliceOfPrefix(stream, |sent|, 0, n);
    assert stream[0..n] == stream[..n] && stream[..|sent|][0..n] == stream[..|sent|][..n];
  }

  // The uncoded symbols are the payload itself, whitened.
  ghost predicate ReceivedPlain(symbols: seq<bool>, length: nat, layout: Layout, clock: nat, whitened: bool, payload: seq<bool>)
    requires |symbols| == MAX_SYMBOLS && layout.start <= MAX_SYMBOLS
  {
    && layout.start + |payload| <= length && |payload| <= MAX_SYMBOLS - layout.start
    && symbols[layout.start..][..|payload|] == Plain(payload, clock, 18, whitened)
  }

  // DH reports success with a payload exactly when that many symbols were received and are the
  // payload, and the payload agrees with its own header and check.
  lemma DhExact(symbols: seq<bool>, length: nat, packetType: nat, layout: Layout, uap: nat, clock: nat, whitened: bool,
                payload: seq<bool>)
    requires |symbols| == MAX_SYMBOLS && DhLayout(packetType) == Some(layout) && packetType != TYPE_AUX1
    ensures var d := Decode(symbols, length, packetType, Some(layout), uap, clock, whitened);
            d.code == 10 && d.payload == Some(payload)
            <==> Consistent(payload, packetType, layout, uap) && ReceivedPlain(symbols, length, layout, clock, whitened, payload)
  {
    hide CrcPasses, Plain;
    var d := Decode(symbols, length, packetType, Some(layout), uap, clock, whitened);
    var stream, n, bits := symbols[layout.start..], 8 * layout.headerBytes, |payload|;
    if d.code == 10 && d.payload == Some(payload) {
      LengthIsClipped(d.header.value, packetType, layout);
      PlainTwice(stream[..bits], clock, 18, whitened);
      PlainPrefix(stream[..bits], n, clock, 18, whitened);
      assert stream[..bits][..n] == stream[..n];
    }
    if Consistent(payload, packetType, layout, uap) && ReceivedPlain(symbols, length, layout, clock, whitened, payload) {
      LengthIsClipped(payload[..n], packetType, layout);
      PlainTwice(payload, clock, 18, whitened);
      PlainPrefix(stream[..bits], n, clock, 18, whitened);
      assert stream[..bits][..n] == stream[..n];
    }
  }

  // AUX1 has no limit in the list of MaxLength, so whatever its header says the source takes its
  // payload to be empty.
  lemma Aux1IsEmpty(symbols: seq<bool>, length: nat, uap: nat, clock: nat, whitened: bool)
    requires |symbols| == MAX_SYMBOLS && length >= 130
    ensures var d := Decode(symbols, length, TYPE_AUX1, DhLayout(TYPE_AUX1), uap, clock, whitened);
            d.code == 2 && d.header.Some? && d.payload == Some([])
  {
    var d := Decode(symbols, length, TYPE_AUX1, DhLayout(TYPE_AUX1), uap, clock, whitened);
    assert |d.payload.value| == 0;
  }
}
