/** Forward error correction: the 1/3 repetition code and the 2/3 shortened Hamming code. */
module Fec {
  import opened Wrappers
  import opened Bits

  // ---------- rate 2/3: a (15,10) shortened Hamming code ----------

  const FEC23_GEN_MATRIX: seq<nat> := [
    0x2c01, 0x5802, 0x1c04, 0x3808, 0x7010,
    0x4c20, 0x3440, 0x6880, 0x7d00, 0x5600]

  // The difference between received and computed check bits when one data symbol is wrong.
  const SYNDROMES: seq<nat> := [0x0b, 0x16, 0x07, 0x0e, 0x1c, 0x13, 0x0d, 0x1a, 0x1f, 0x15]

  function Row(k: nat): (row: seq<bool>)
    requires k < 10
    ensures |row| == 15
  {
    HostToAir(FEC23_GEN_MATRIX[k], 15)
  }

  // The sum of the rows selected by the first n data bits.
  function Fec23Upto(data: seq<bool>, n: nat): (codeword: seq<bool>)
    requires n <= |data| == 10
    ensures |codeword| == 15
  {
    if n == 0 then Zeros(15)
    else
      var codeword := Fec23Upto(data, n - 1);
      if data[n - 1] then XorBits(codeword, Row(n - 1)) else codeword
  }

  // The specification of fec23.
  function EncodeBlock(data: seq<bool>): (codeword: seq<bool>)
    requires |data| == 10
    ensures |codeword| == 15
  {
    Fec23Upto(data, 10)
  }

  method Fec23(data: seq<bool>) returns (codeword: seq<bool>)
    requires |data| == 10
    ensures codeword == EncodeBlock(data)
  {
    codeword := Zeros(15);
    for i := 0 to 10
      invariant codeword == Fec23Upto(data, i)
    {
      if data[i] {
        codeword := XorBits(codeword, Row(i));
      }
    }
  }

  // Bits 0..n of a number are those of 2^k.
  ghost predicate UnitBelow(value: nat, n: nat, k: int)
  {
    n == 0 || ((value % 2 == 1) == (k == 0) && UnitBelow(value / 2, n - 1, k - 1))
  }

  lemma {:induction false} UnitBelowBit(value: nat, n: nat, k: int, j: nat)
    requires UnitBelow(value, n, k) && j < n
    ensures BitAt(value, j) == (j == k)
  {
    if j > 0 {
      UnitBelowBit(value / 2, n - 1, k - 1, j - 1);
    }
  }

  lemma LowRowsAreUnits(k: nat)
    requires k < 5
    ensures UnitBelow(FEC23_GEN_MATRIX[k], 10, k)
  {
    if
    case k == 0 => assert UnitBelow(0x2c01, 10, 0);
    case k == 1 => assert UnitBelow(0x5802, 10, 1);
    case k == 2 => assert UnitBelow(0x1c04, 10, 2);
    case k == 3 => assert UnitBelow(0x3808, 10, 3);
    case k == 4 => assert UnitBelow(0x7010, 10, 4);
  }

  lemma HighRowsAreUnits(k: nat)
    requires 5 <= k < 10
    ensures UnitBelow(FEC23_GEN_MATRIX[k], 10, k)
  {
    if
    case k == 5 => assert UnitBelow(0x4c20, 10, 5);
    case k == 6 => assert UnitBelow(0x3440, 10, 6);
    case k == 7 => assert UnitBelow(0x6880, 10, 7);
    case k == 8 => assert UnitBelow(0x7d00, 10, 8);
    case k == 9 => assert UnitBelow(0x5600, 10, 9);
  }

  // The generator matrix is systematic: the low ten bits of row k are the unit vector of k.
  lemma RowData(k: nat)
    requires k < 10
    ensures forall j :: 0 <= j < 10 ==> Row(k)[j] == (j == k)
  {
    if k < 5 { LowRowsAreUnits(k); } else { HighRowsAreUnits(k); }
    forall j | 0 <= j < 10
      ensures Row(k)[j] == (j == k)
    {
      UnitBelowBit(FEC23_GEN_MATRIX[k], 10, k, j);
    }
  }

  // The check bits of row k are the syndrome that the decoder's table lists for data symbol k.
  lemma RowCheck(k: nat)
    requires k < 10
    ensures Row(k)[10..] == HostToAir(SYNDROMES[k], 5)
  {
    assert ShiftRight(FEC23_GEN_MATRIX[k], 10) == SYNDROMES[k] by {
      if
      case k == 0 => assert ShiftRight(0x2c01, 10) == 0x0b;
      case k == 1 => assert ShiftRight(0x5802, 10) == 0x16;
      case k == 2 => assert ShiftRight(0x1c04, 10) == 0x07;
      case k == 3 => assert ShiftRight(0x3808, 10) == 0x0e;
      case k == 4 => assert ShiftRight(0x7010, 10) == 0x1c;
      case k == 5 => assert ShiftRight(0x4c20, 10) == 0x13;
      case k == 6 => assert ShiftRight(0x3440, 10) == 0x0d;
      case k == 7 => assert ShiftRight(0x6880, 10) == 0x1a;
      case k == 8 => assert ShiftRight(0x7d00, 10) == 0x1f;
      case k == 9 => assert ShiftRight(0x5600, 10) == 0x15;
    }
    forall j | 0 <= j < 5
      ensures Row(k)[10..][j] == HostToAir(SYNDROMES[k], 5)[j]
    {
      ShiftRightBit(FEC23_GEN_MATRIX[k], 10, j);
    }
  }

  // The code is systematic.
  lemma {:induction false} CodewordData(data: seq<bool>, n: nat)
    requires n <= |data| == 10
    ensures forall j :: 0 <= j < 10 ==> Fec23Upto(data, n)[j] == (j < n && data[j])
  {
    if n > 0 {
      CodewordData(data, n - 1);
      RowData(n - 1);
    }
  }

  // The code is linear: flipping data symbol k adds row k.
  lemma {:induction false} CodewordFlip(data: seq<bool>, k: nat, n: nat)
    requires n <= |data| == 10 && k < 10
    ensures Fec23Upto(Flip(data, k), n) ==
            if k < n then XorBits(Fec23Upto(data, n), Row(k)) else Fec23Upto(data, n)
  {
    if n > 0 {
      CodewordFlip(data, k, n - 1);
    }
  }

  // ---------- decoding one block ----------

  // Received check bits against those computed from the received data.
  function Syndrome(block: seq<bool>): (s: seq<bool>)
    requires |block| == 15
    ensures |s| == 5
  {
    XorBits(block[10..], EncodeBlock(block[..10])[10..])
  }

  // The source's test `diff & (diff - 1)` on a five-bit number: two or more bits are set.
  predicate SeveralBits(diff: nat)
  {
    diff !in {0, 1, 2, 4, 8, 16}
  }

  // One round of the loop in unfec23: the corrected data, or None for an uncorrectable block.
  function DecodeBlock(block: seq<bool>): (data: Option<seq<bool>>)
    requires |block| == 15
    ensures data.Some? ==> |data.value| == 10
  {
    var diff := AirToHost(Syndrome(block));
    var data := block[..10];
    if !SeveralBits(diff) then Some(data)
    else match diff
      case 0x0b => Some(Flip(data, 0))
      case 0x16 => Some(Flip(data, 1))
      case 0x07 => Some(Flip(data, 2))
      case 0x0e => Some(Flip(data, 3))
      case 0x1c => Some(Flip(data, 4))
      case 0x13 => Some(Flip(data, 5))
      case 0x0d => Some(Flip(data, 6))
      case 0x1a => Some(Flip(data, 7))
      case 0x1f => Some(Flip(data, 8))
      case 0x15 => Some(Flip(data, 9))
      case _ => None
  }

  // A codeword has syndrome zero and carries its data.
  lemma CodewordSyndrome(data: seq<bool>)
    requires |data| == 10
    ensures EncodeBlock(data)[..10] == data
    ensures Syndrome(EncodeBlock(data)) == Zeros(5)
  {
    CodewordData(data, 10);
    assert EncodeBlock(data)[..10] == data;
  }

  // The syndrome a single wrong symbol i adds.
  function ErrorSyndrome(i: nat): (s: seq<bool>)
    requires i < 15
    ensures |s| == 5
  {
    if i < 10 then HostToAir(SYNDROMES[i], 5) else Zeros(5)[i - 10 := true]
  }

  lemma SyndromeFlip(block: seq<bool>, i: nat)
    requires |block| == 15 && i < 15
    ensures Syndrome(Flip(block, i)) == XorBits(Syndrome(block), ErrorSyndrome(i))
  {
    var flipped := Flip(block, i);
    if i < 10 {
      assert flipped[..10] == Flip(block[..10], i);
      assert flipped[10..] == block[10..];
      CodewordFlip(block[..10], i, 10);
      RowCheck(i);
      forall j | 0 <= j < 5
        ensures Syndrome(flipped)[j] == XorBits(Syndrome(block), ErrorSyndrome(i))[j]
      {
        assert Row(i)[10..][j] == ErrorSyndrome(i)[j];
      }
    } else {
      assert flipped[..10] == block[..10];
    }
  }

  // The number the source switches on when only symbol i is wrong.
  function ErrorCode(i: nat): nat
    requires i < 15
  {
    if i < 10 then SYNDROMES[i] else [1, 2, 4, 8, 16][i - 10]
  }

  lemma ErrorSyndromeCode(i: nat)
    requires i < 15
    ensures AirToHost(ErrorSyndrome(i)) == ErrorCode(i)
  {
    if i < 10 {
      assert Pow2(5) == 32;
      AirToHostInverts(SYNDROMES[i], 5);
    } else {
      AirToHostUnit(5, i - 10);
      assert Pow2(i - 10) == [1, 2, 4, 8, 16][i - 10];
    }
  }

  // What one round of the decoder does, in terms of the wrong symbol its table locates.
  lemma DecodeBlockLocates(block: seq<bool>, i: nat)
    requires |block| == 15 && i < 15
    requires AirToHost(Syndrome(block)) == ErrorCode(i)
    ensures DecodeBlock(block) == Some(Flip(block, i)[..10])
  {
    if i < 10 {
      assert Flip(block, i)[..10] == Flip(block[..10], i);
    } else {
      assert Flip(block, i)[..10] == block[..10];
    }
  }

  lemma DecodeBlockKnowsCode(block: seq<bool>) returns (i: nat)
    requires |block| == 15
    requires DecodeBlock(block).Some? && AirToHost(Syndrome(block)) != 0
    ensures i < 15 && AirToHost(Syndrome(block)) == ErrorCode(i)
  {
    var diff := AirToHost(Syndrome(block));
    var codes := [0x0b, 0x16, 0x07, 0x0e, 0x1c, 0x13, 0x0d, 0x1a, 0x1f, 0x15, 1, 2, 4, 8, 16];
    assert diff in codes;
    i :| i < 15 && codes[i] == diff;
  }

  lemma ZeroSyndromeIsCodeword(block: seq<bool>)
    requires |block| == 15 && Syndrome(block) == Zeros(5)
    ensures block == EncodeBlock(block[..10])
  {
    CodewordSyndrome(block[..10]);
    var codeword := EncodeBlock(block[..10]);
    forall j | 0 <= j < 15
      ensures block[j] == codeword[j]
    {
      if j < 10 {
        assert codeword[j] == codeword[..10][j];
      } else {
        assert !Syndrome(block)[j - 10];
      }
    }
  }

  // Streams at distance at most one are equal or differ in a single flipped symbol.
  lemma CloseStreams(a: seq<bool>, b: seq<bool>) returns (i: nat)
    requires |a| == |b| && Distance(a, b) <= 1 && a != b
    ensures i < |a| && a == Flip(b, i)
  {
    i := FirstDifference(a, b);
    DistanceFlip(a, b, i);
    DistanceZero(Flip(a, i), b);
  }

  // One block is decoded to a message exactly when it is at distance at most one from the
  // codeword of that message; so the message, when there is one, is unique.
  lemma DecodeBlockExact(block: seq<bool>, data: seq<bool>)
    requires |block| == 15 && |data| == 10
    ensures DecodeBlock(block) == Some(data) <==> Distance(block, EncodeBlock(data)) <= 1
  {
    var codeword := EncodeBlock(data);
    if Distance(block, codeword) <= 1 {
      NearCodewordDecodes(block, data);
    }
    if DecodeBlock(block) == Some(data) {
      DecodedIsNear(block, data);
    }
  }

  lemma NearCodewordDecodes(block: seq<bool>, data: seq<bool>)
    requires |block| == 15 && |data| == 10
    requires Distance(block, EncodeBlock(data)) <= 1
    ensures DecodeBlock(block) == Some(data)
  {
    var codeword := EncodeBlock(data);
    CodewordSyndrome(data);
    if block == codeword {
      AirToHostZeros(5);
    } else {
      var i := CloseStreams(block, codeword);
      SyndromeFlip(codeword, i);
      assert XorBits(Zeros(5), ErrorSyndrome(i)) == ErrorSyndrome(i);
      ErrorSyndromeCode(i);
      DecodeBlockLocates(block, i);
      assert Flip(block, i) == codeword;
    }
  }

  lemma DecodedIsNear(block: seq<bool>, data: seq<bool>)
    requires |block| == 15 && |data| == 10
    requires DecodeBlock(block) == Some(data)
    ensures Distance(block, EncodeBlock(data)) <= 1
  {
    if AirToHost(Syndrome(block)) == 0 {
      AirToHostZeros(5);
      AirToHostInjective(Syndrome(block), Zeros(5));
      ZeroSyndromeIsCodeword(block);
      DistanceZero(block, EncodeBlock(data));
    } else {
      var i := DecodeBlockKnowsCode(block);
      ErrorSyndromeCode(i);
      AirToHostInjective(Syndrome(block), ErrorSyndrome(i));
      DecodeBlockLocates(block, i);
      var fixedBlock := Flip(block, i);
      SyndromeFlip(block, i);
      assert Syndrome(fixedBlock) == Zeros(5);
      ZeroSyndromeIsCodeword(fixedBlock);
      DistanceFlip(block, fixedBlock, i);
      DistanceZero(fixedBlock, fixedBlock);
      assert Flip(block, i) == EncodeBlock(data);
    }
  }

  ghost predicate OddBits(value: nat, n: nat)
  {
    n > 0 && (value % 2 == 1) != OddBits(value / 2, n - 1)
  }

  lemma {:induction false} OddHostToAir(value: nat, n: nat)
    ensures Odd(HostToAir(value, n)) == OddBits(value, n)
  {
    if n > 0 {
      OddHostToAir(value / 2, n - 1);
      assert HostToAir(value, n)[1..] == HostToAir(value / 2, n - 1);
    }
  }

  lemma OddSyndrome(k: nat)
    requires k < 15
    ensures Odd(ErrorSyndrome(k))
  {
    assert OddBits(ErrorCode(k), 5);
    ErrorSyndromeCode(k);
    OddHostToAir(ErrorCode(k), 5);
    HostToAirInverts(ErrorSyndrome(k));
  }

  // A syndrome with an even number of ones is that of no single wrong symbol.
  lemma EvenSyndromeFails(block: seq<bool>)
    requires |block| == 15 && !Odd(Syndrome(block)) && Syndrome(block) != Zeros(5)
    ensures DecodeBlock(block) == None
  {
    AirToHostZeros(5);
    if AirToHost(Syndrome(block)) == 0 {
      AirToHostInjective(Syndrome(block), Zeros(5));
    } else if DecodeBlock(block).Some? {
      var k := DecodeBlockKnowsCode(block);
      ErrorSyndromeCode(k);
      AirToHostInjective(Syndrome(block), ErrorSyndrome(k));
      OddSyndrome(k);
    }
  }

  lemma ErrorSyndromesDiffer(i: nat, j: nat)
    requires i < 15 && j < 15 && i != j
    ensures ErrorSyndrome(i) != ErrorSyndrome(j)
  {
    ErrorSyndromeCode(i);
    ErrorSyndromeCode(j);
  }

  lemma TwoFlipsFail(data: seq<bool>, i: nat, j: nat)
    requires |data| == 10 && i < 15 && j < 15 && i != j
    ensures DecodeBlock(Flip(Flip(EncodeBlock(data), i), j)) == None
  {
    var once := Flip(EncodeBlock(data), i);
    CodewordSyndrome(data);
    SyndromeFlip(EncodeBlock(data), i);
    SyndromeFlip(once, j);
    assert Syndrome(once) == ErrorSyndrome(i);
    OddSyndrome(i);
    OddSyndrome(j);
    EvenSum(ErrorSyndrome(i), ErrorSyndrome(j));
    ErrorSyndromesDiffer(i, j);
    XorZero(ErrorSyndrome(i), ErrorSyndrome(j));
    EvenSyndromeFails(Flip(once, j));
  }

  // Two codewords never differ in one, two or three symbols, so two wrong symbols are noticed.
  lemma TwoErrorsDetected(block: seq<bool>, data: seq<bool>)
    requires |block| == 15 && |data| == 10
    requires Distance(block, EncodeBlock(data)) == 2
    ensures DecodeBlock(block) == None
  {
    var codeword := EncodeBlock(data);
    DistanceZero(block, codeword);
    var j := FirstDifference(block, codeword);
    DistanceFlip(block, codeword, j);
    DistanceZero(Flip(block, j), codeword);
    var i := CloseStreams(Flip(block, j), codeword);
    assert block == Flip(Flip(codeword, i), j);
    TwoFlipsFail(data, i, j);
  }

  // ---------- decoding a stream of blocks ----------

  ghost function Encode23(data: seq<bool>, blocks: nat): (air: seq<bool>)
    requires |data| == 10 * blocks
    ensures |air| == 15 * blocks
  {
    if blocks == 0 then []
    else Encode23(data[..10 * (blocks - 1)], blocks - 1) + EncodeBlock(data[10 * (blocks - 1)..])
  }

  function Decode23(air: seq<bool>, blocks: nat): (data: Option<seq<bool>>)
    requires 15 * blocks <= |air|
    ensures data.Some? ==> |data.value| == 10 * blocks
  {
    if blocks == 0 then Some([])
    else
      var init := Decode23(air, blocks - 1);
      var last := DecodeBlock(air[15 * (blocks - 1)..15 * blocks]);
      if init.None? || last.None? then None else Some(init.value + last.value)
  }

  ghost predicate NearBlock(air: seq<bool>, data: seq<bool>, k: nat)
    requires 15 * (k + 1) <= |air| && 10 * (k + 1) <= |data|
  {
    Distance(air[15 * k..15 * (k + 1)], EncodeBlock(data[10 * k..10 * (k + 1)])) <= 1
  }

  // The stream decodes to a message exactly when every block is within distance one of the
  // codeword of the corresponding ten message bits.
  lemma {:induction false} Decode23Exact(air: seq<bool>, data: seq<bool>, blocks: nat)
    requires 15 * blocks <= |air| && |data| == 10 * blocks
    ensures Decode23(air, blocks) == Some(data)
            <==> forall k: nat :: k < blocks ==> NearBlock(air, data, k)
  {
    if blocks > 0 {
      var init, last := data[..10 * (blocks - 1)], data[10 * (blocks - 1)..];
      Decode23Exact(air, init, blocks - 1);
      DecodeBlockExact(air[15 * (blocks - 1)..15 * blocks], last);
      assert last == data[10 * (blocks - 1)..10 * blocks];
      forall k: nat | k < blocks - 1
        ensures NearBlock(air, init, k) == NearBlock(air, data, k)
      {
        SliceOfPrefix(data, 10 * (blocks - 1), 10 * k, 10 * (k + 1));
      }
      Decode23Step(air, data, blocks);
      assert NearBlock(air, data, blocks - 1) ==
             (DecodeBlock(air[15 * (blocks - 1)..15 * blocks]) == Some(last));
    }
  }

  lemma Decode23Step(air: seq<bool>, data: seq<bool>, blocks: nat)
    requires 0 < blocks && 15 * blocks <= |air| && |data| == 10 * blocks
    ensures Decode23(air, blocks) == Some(data)
            <==> Decode23(air, blocks - 1) == Some(data[..10 * (blocks - 1)])
                 && DecodeBlock(air[15 * (blocks - 1)..15 * blocks]) == Some(data[10 * (blocks - 1)..])
  {
    assert data == data[..10 * (blocks - 1)] + data[10 * (blocks - 1)..];
  }

  lemma {:induction false} DecodeFailsFrom(air: seq<bool>, n: nat, blocks: nat)
    requires n <= blocks && 15 * blocks <= |air|
    requires Decode23(air, n).None?
    ensures Decode23(air, blocks).None?
  {
    if n < blocks {
      DecodeFailsFrom(air, n, blocks - 1);
    }
  }

  // A stream does not decode exactly when some block does not.
  lemma {:induction false} Decode23Fails(air: seq<bool>, blocks: nat)
    requires 15 * blocks <= |air|
    ensures Decode23(air, blocks).None? <==> exists k: nat :: k < blocks && DecodeBlock(air[15 * k..15 * (k + 1)]).None?
  {
    hide DecodeBlock;
    if blocks > 0 {
      Decode23Fails(air, blocks - 1);
      assert air[15 * (blocks - 1)..15 * (blocks - 1 + 1)] == air[15 * (blocks - 1)..15 * blocks];
    }
  }

  // So two wrong symbols in any block make the whole stream fail.
  lemma TwoErrorsFailStream(air: seq<bool>, blocks: nat, k: nat, data: seq<bool>)
    requires k < blocks && 15 * blocks <= |air| && |data| == 10
    requires Distance(air[15 * k..15 * (k + 1)], EncodeBlock(data)) == 2
    ensures Decode23(air, blocks).None?
  {
    TwoErrorsDetected(air[15 * k..15 * (k + 1)], data);
    Decode23Fails(air, blocks);
  }

  // Blocks of ten data bits that cover `length` bits.
  function Rounds(length: nat): nat
  {
    (length + 9) / 10
  }

  // The length after padding to a whole number of blocks.
  function Padded(length: nat): (padded: nat)
    ensures padded == 10 * Rounds(length)
  {
    if length % 10 != 0 then length + (10 - length % 10) else length
  }

  // Decodes the stream at input[from..]; null when some block cannot be corrected.
  method Unfec23(input: array<bool>, from: nat, length: nat) returns (output: array?<bool>)
    requires from + 15 * Rounds(length) <= input.Length
    ensures output == null ==> Decode23(input[from..], Rounds(length)).None?
    ensures output != null ==> fresh(output) && Decode23(input[from..], Rounds(length)) == Some(output[..])
  {
    hide DecodeBlock, Rounds;
    var padded := Padded(length);
    ghost var air := input[from..];
    var corrected := new bool[padded];
    ghost var round := 0;
    var iptr, optr := from, 0;
    while optr < padded
      invariant round <= Rounds(length) && padded == 10 * Rounds(length)
      invariant iptr == from + 15 * round && optr == 10 * round
      invariant Decode23(air, round) == Some(corrected[..optr])
      decreases padded - optr
    {
      SliceOfSuffix(input[..], from, 15 * round, 15);
      var ok := DecodeRound(input, iptr, corrected, optr);
      round := round + 1;
      if !ok {
        DecodeFailsFrom(air, round, Rounds(length));
        return null;
      }
      iptr, optr := iptr + 15, optr + 10;
    }
    assert corrected[..optr] == corrected[..];
    return corrected;
  }

  // The body of the loop of unfec23: copies the data of one block and corrects it.
  method DecodeRound(input: array<bool>, iptr: nat, output: array<bool>, optr: nat) returns (ok: bool)
    requires iptr + 15 <= input.Length && optr + 10 <= output.Length && input != output
    modifies output
    ensures ok == DecodeBlock(input[iptr..iptr + 15]).Some?
    ensures ok ==> output[..optr + 10] == old(output[..optr]) + DecodeBlock(input[iptr..iptr + 15]).value
  {
    for count := 0 to 10
      invariant output[..optr] == old(output[..optr])
      invariant output[optr..optr + count] == input[iptr..iptr + count]
    {
      output[optr + count] := input[iptr + count];
      assert output[optr..optr + count + 1] == output[optr..optr + count] + [input[iptr + count]];
    }
    ghost var block := input[iptr..iptr + 15];
    assert block[..10] == input[iptr..iptr + 10];
    assert block[10..] == input[iptr + 10..iptr + 15];
    var codeword := Fec23(input[iptr..iptr + 10]);
    var diff := AirToHost(XorBits(input[iptr + 10..iptr + 15], codeword[10..]));
    ok := CorrectBlock(output, optr, diff, block);
    assert output[..optr + 10] == output[..optr] + output[optr..optr + 10];
  }

  // The switch of unfec23: repairs the ten output bits that start at optr.
  method CorrectBlock(output: array<bool>, optr: nat, diff: nat, ghost block: seq<bool>) returns (ok: bool)
    requires optr + 10 <= output.Length && |block| == 15
    requires output[optr..optr + 10] == block[..10] && diff == AirToHost(Syndrome(block))
    modifies output
    ensures output[..optr] == old(output[..optr])
    ensures ok == DecodeBlock(block).Some?
    ensures ok ==> output[optr..optr + 10] == DecodeBlock(block).value
  {
    if !SeveralBits(diff) {
      return true;
    }
    var wrong;
    match diff {
      case 0x0b => wrong := 0;
      case 0x16 => wrong := 1;
      case 0x07 => wrong := 2;
      case 0x0e => wrong := 3;
      case 0x1c => wrong := 4;
      case 0x13 => wrong := 5;
      case 0x0d => wrong := 6;
      case 0x1a => wrong := 7;
      case 0x1f => wrong := 8;
      case 0x15 => wrong := 9;
      case _ => return false;
    }
    output[optr + wrong] := !output[optr + wrong];
    assert output[optr..optr + 10] == Flip(block[..10], wrong);
    return true;
  }

  // ---------- rate 1/3: three like symbols in a row ----------

  function Majority(a: bool, b: bool, c: bool): bool
  {
    (a && b) || (b && c) || (c && a)
  }

  function Decode13(air: seq<bool>, n: nat): (data: seq<bool>)
    requires 3 * n <= |air|
    ensures |data| == n
  {
    seq(n, i requires 0 <= i < n => Majority(air[3 * i], air[3 * i + 1], air[3 * i + 2]))
  }

  // The triples whose symbols are not all alike.
  function Disagreements(air: seq<bool>, n: nat): nat
    requires 3 * n <= |air|
  {
    if n == 0 then 0
    else
      var a, b, c := air[3 * n - 3], air[3 * n - 2], air[3 * n - 1];
      Disagreements(air, n - 1) + if a != b || b != c || c != a then 1 else 0
  }

  method Unfec13(input: array<bool>, from: nat, output: array<bool>, length: nat) returns (ok: bool)
    requires from + 3 * length <= input.Length && length <= output.Length && input != output
    modifies output
    ensures output[..length] == Decode13(input[from..], length)
    ensures output[length..] == old(output[length..])
    ensures ok == (Disagreements(input[from..], length) < length / 4)
  {
    ghost var air := input[from..];
    var be := 0;
    for i := 0 to length
      invariant be == Disagreements(air, i)
      invariant forall j :: 0 <= j < i ==> output[j] == Decode13(air, length)[j]
      invariant output[length..] == old(output[length..])
    {
      var a, b, c := input[from + 3 * i], input[from + 3 * i + 1], input[from + 3 * i + 2];
      output[i] := (a && b) || (b && c) || (c && a);
      be := be + if a != b || b != c || c != a then 1 else 0;
    }
    return be < length / 4;
  }

  ghost function Encode13(data: seq<bool>): (air: seq<bool>)
    ensures |air| == 3 * |data|
  {
    seq(3 * |data|, i requires 0 <= i < 3 * |data| => data[i / 3])
  }

  // Wrong symbols in one triple, and in the first n triples.
  ghost function TripleErrors(air: seq<bool>, data: seq<bool>, i: nat): nat
    requires i < |data| && 3 * |data| <= |air|
  {
    Distance(air[3 * i..3 * i + 3], Encode13(data)[3 * i..3 * i + 3])
  }

  ghost function Errors13(air: seq<bool>, data: seq<bool>, n: nat): nat
    requires n <= |data| && 3 * |data| <= |air|
  {
    if n == 0 then 0 else Errors13(air, data, n - 1) + TripleErrors(air, data, n - 1)
  }

  lemma TripleErrorsSum(air: seq<bool>, data: seq<bool>, i: nat)
    requires i < |data| && 3 * |data| <= |air|
    ensures TripleErrors(air, data, i) ==
            (if air[3 * i] != data[i] then 1 else 0) + (if air[3 * i + 1] != data[i] then 1 else 0)
            + (if air[3 * i + 2] != data[i] then 1 else 0)
  {
    var a, b := air[3 * i..3 * i + 3], Encode13(data)[3 * i..3 * i + 3];
    assert Distance(a[2..], b[2..]) == (if a[2] != b[2] then 1 else 0) + Distance(a[2..][1..], b[2..][1..]);
    assert a[1..][1..] == a[2..] && b[1..][1..] == b[2..];
    assert Distance(a[1..], b[1..]) == (if a[1] != b[1] then 1 else 0) + Distance(a[2..], b[2..]);
  }

  // Decoding gives the data back exactly when no triple has more than one wrong symbol.
  lemma Decode13Exact(air: seq<bool>, data: seq<bool>)
    requires 3 * |data| <= |air|
    ensures Decode13(air, |data|) == data
            <==> forall i: nat :: i < |data| ==> TripleErrors(air, data, i) <= 1
  {
    forall i: nat | i < |data|
      ensures Decode13(air, |data|)[i] == data[i] <==> TripleErrors(air, data, i) <= 1
    {
      TripleErrorsSum(air, data, i);
    }
  }

  // With at most one wrong symbol a triple, the disagreements counted are the wrong symbols.
  lemma {:induction false} DisagreementsAreErrors(air: seq<bool>, data: seq<bool>, n: nat)
    requires n <= |data| && 3 * |data| <= |air|
    requires forall i: nat :: i < |data| ==> TripleErrors(air, data, i) <= 1
    ensures Disagreements(air, n) == Errors13(air, data, n)
  {
    if n > 0 {
      DisagreementsAreErrors(air, data, n - 1);
      TripleErrorsSum(air, data, n - 1);
    }
  }
}
