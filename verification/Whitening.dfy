/** Data whitening: the tables the decoder indexes and the shift register they stand for. */
module Whitening {

  // ---------- the specification: a linear feedback shift register ----------

  // Section 7.2 of the baseband specification, generator D^7 + D^4 + 1: seven delay positions,
  // the last of which is the output and is fed back to position 0 and, by addition, to position 4.
  datatype Register = Register(s0: bool, s1: bool, s2: bool, s3: bool, s4: bool, s5: bool, s6: bool)

  function LfsrStep(s: Register): Register
  {
    Register(s.s6, s.s0, s.s1, s.s2, s.s3 != s.s6, s.s4, s.s5)
  }

  function LfsrRun(s: Register, steps: nat): Register
    decreases steps
  {
    if steps == 0 then s else LfsrRun(LfsrStep(s), steps - 1)
  }

  // The register starts with CLK1..CLK6 in positions 0 to 5 and a one in position 6.
  function LfsrSeed(clock: nat): Register
    requires clock < 64
  {
    Register(clock % 2 == 1, clock / 2 % 2 == 1, clock / 4 % 2 == 1, clock / 8 % 2 == 1,
             clock / 16 % 2 == 1, clock / 32 % 2 == 1, true)
  }

  // Symbol number `position` of the whitening word for a clock, of which CLK6-1 counts.
  function Whitener(clock: nat, position: nat): bool
  {
    LfsrRun(LfsrSeed(clock % 64), position).s6
  }

  lemma {:induction false} LfsrRunSum(s: Register, m: nat, n: nat)
    ensures LfsrRun(s, m + n) == LfsrRun(LfsrRun(s, m), n)
    decreases m
  {
    if m > 0 {
      LfsrRunSum(LfsrStep(s), m - 1, n);
    }
  }

  // The first outputs in terms of the register, and the recurrence all outputs follow.
  lemma LfsrOutputs(s: Register)
    ensures LfsrRun(s, 0).s6 == s.s6
    ensures LfsrRun(s, 1).s6 == s.s5
    ensures LfsrRun(s, 2).s6 == s.s4
    ensures LfsrRun(s, 3).s6 == (s.s3 != s.s6)
    ensures LfsrRun(s, 4).s6 == (s.s2 != s.s5)
    ensures LfsrRun(s, 5).s6 == (s.s1 != s.s4)
    ensures LfsrRun(s, 6).s6 == (s.s0 != (s.s3 != s.s6))
    ensures LfsrRun(s, 7).s6 == (LfsrRun(s, 0).s6 != LfsrRun(s, 4).s6)
  {
    var t := LfsrStep(LfsrStep(LfsrStep(LfsrStep(s))));
    assert LfsrRun(s, 4) == t;
    assert LfsrRun(t, 3) == LfsrStep(LfsrStep(LfsrStep(t)));
    LfsrRunSum(s, 4, 1);
    LfsrRunSum(s, 4, 2);
    LfsrRunSum(s, 4, 3);
  }

  // ---------- the tables of the source ----------

  // Where in the whitening data the word for each clock starts.
  function StartIndex(clock: nat): (index: nat)
    ensures index < 127
  {
    match clock % 64
    case 0 => 99 case 1 => 85 case 2 => 17 case 3 => 50 case 4 => 102 case 5 => 58 case 6 => 108 case 7 => 45
    case 8 => 92 case 9 => 62 case 10 => 32 case 11 => 118 case 12 => 88 case 13 => 11 case 14 => 80 case 15 => 2
    case 16 => 37 case 17 => 69 case 18 => 55 case 19 => 8 case 20 => 20 case 21 => 40 case 22 => 74 case 23 => 114
    case 24 => 15 case 25 => 106 case 26 => 30 case 27 => 78 case 28 => 53 case 29 => 72 case 30 => 28 case 31 => 26
    case 32 => 68 case 33 => 7 case 34 => 39 case 35 => 113 case 36 => 105 case 37 => 77 case 38 => 71 case 39 => 25
    case 40 => 84 case 41 => 49 case 42 => 57 case 43 => 44 case 44 => 61 case 45 => 117 case 46 => 10 case 47 => 1
    case 48 => 123 case 49 => 124 case 50 => 22 case 51 => 125 case 52 => 111 case 53 => 23 case 54 => 42 case 55 => 126
    case 56 => 6 case 57 => 112 case 58 => 76 case 59 => 24 case 60 => 48 case 61 => 43 case 62 => 116 case _ => 0
  }

  // One period of the whitening sequence, in rows of eight.
  function Row(r: nat): (row: seq<nat>)
    ensures |row| == if r < 15 then 8 else 7
  {
    match r
    case 0 => [1, 1, 1, 0, 0, 0, 1, 1]
    case 1 => [1, 0, 1, 1, 0, 0, 0, 1]
    case 2 => [0, 1, 0, 0, 1, 0, 1, 1]
    case 3 => [1, 1, 1, 0, 1, 0, 1, 0]
    case 4 => [1, 0, 0, 0, 0, 1, 0, 1]
    case 5 => [1, 0, 1, 1, 1, 1, 0, 0]
    case 6 => [1, 1, 1, 0, 0, 1, 0, 1]
    case 7 => [0, 1, 1, 0, 0, 1, 1, 0]
    case 8 => [0, 0, 0, 0, 1, 1, 0, 1]
    case 9 => [1, 0, 1, 0, 1, 1, 1, 0]
    case 10 => [1, 0, 0, 0, 1, 1, 0, 0]
    case 11 => [1, 0, 0, 0, 1, 0, 0, 0]
    case 12 => [0, 0, 0, 1, 0, 0, 1, 0]
    case 13 => [0, 1, 1, 0, 1, 0, 0, 1]
    case 14 => [1, 1, 1, 0, 1, 1, 1, 0]
    case _ => [0, 0, 0, 1, 1, 1, 1]
  }

  // Entry i of a table with period 127.
  function White(i: nat): bool
  {
    Row(i % 127 / 8)[i % 127 % 8] == 1
  }

  // The recurrence of the register, x(i+7) = x(i) + x(i+4), across two rows that follow each other.
  ghost predicate PairRecurs(a: seq<nat>, b: seq<nat>)
  {
    |a| == 8 && |b| >= 7
    && (a[7] == 1) == ((a[0] == 1) != (a[4] == 1))
    && (b[0] == 1) == ((a[1] == 1) != (a[5] == 1))
    && (b[1] == 1) == ((a[2] == 1) != (a[6] == 1))
    && (b[2] == 1) == ((a[3] == 1) != (a[7] == 1))
    && (b[3] == 1) == ((a[4] == 1) != (b[0] == 1))
    && (b[4] == 1) == ((a[5] == 1) != (b[1] == 1))
    && (b[5] == 1) == ((a[6] == 1) != (b[2] == 1))
    && (b[6] == 1) == ((a[7] == 1) != (b[3] == 1))
  }

  // The same across the end of the period: the last row has seven entries.
  ghost predicate SeamRecurs(a: seq<nat>, b: seq<nat>)
  {
    |a| == 7 && |b| >= 7
    && (b[0] == 1) == ((a[0] == 1) != (a[4] == 1))
    && (b[1] == 1) == ((a[1] == 1) != (a[5] == 1))
    && (b[2] == 1) == ((a[2] == 1) != (a[6] == 1))
    && (b[3] == 1) == ((a[3] == 1) != (b[0] == 1))
    && (b[4] == 1) == ((a[4] == 1) != (b[1] == 1))
    && (b[5] == 1) == ((a[5] == 1) != (b[2] == 1))
    && (b[6] == 1) == ((a[6] == 1) != (b[3] == 1))
  }

  lemma DataRecurs(r: nat)
    requires r < 15
    ensures PairRecurs(Row(r), Row(r + 1))
  {
    match r
    case 0 | 1 | 2 | 3 => assert r == 0 || r == 1 || r == 2 || r == 3;
    case 4 | 5 | 6 | 7 => assert r == 4 || r == 5 || r == 6 || r == 7;
    case 8 | 9 | 10 | 11 => assert r == 8 || r == 9 || r == 10 || r == 11;
    case _ => assert r == 12 || r == 13 || r == 14;
  }

  lemma SeamOfData()
    ensures SeamRecurs(Row(15), Row(0))
  {
  }

  // Entry k of row r and the row after it.
  function Beyond(r: nat, k: nat): bool
    requires r < 16 && k < |Row(r)| + 7
  {
    if k < |Row(r)| then Row(r)[k] == 1 else Row((r + 1) % 16)[k - |Row(r)|] == 1
  }

  lemma ModAdd(i: nat, k: nat)
    requires k < 127
    ensures (i + k) % 127 == if i % 127 + k < 127 then i % 127 + k else i % 127 + k - 127
  {
  }

  lemma RowRecursAt(r: nat, j: nat)
    requires r < 16 && j < |Row(r)|
    ensures Beyond(r, j + 7) == (Beyond(r, j) != Beyond(r, j + 4))
  {
    hide Row;
    if r < 15 {
      DataRecurs(r);
    } else {
      SeamOfData();
    }
  }

  lemma BeyondIsEntry(i: nat, r: nat, j: nat, k: nat)
    requires r < 16 && j < |Row(r)| && k < 8 && i % 127 == 8 * r + j
    requires j + k < |Row(r)| + 7
    ensures White(i + k) == Beyond(r, j + k)
  {
    hide Row;
    ModAdd(i, k);
  }

  lemma RecursAt(i: nat)
    ensures White(i + 7) == (White(i) != White(i + 4))
  {
    hide Row, Beyond;
    var m := i % 127;
    var r, j := m / 8, m % 8;
    RowRecursAt(r, j);
    BeyondIsEntry(i, r, j, 0);
    BeyondIsEntry(i, r, j, 4);
    BeyondIsEntry(i, r, j, 7);
  }

  // The first seven symbols of the word for a clock stand in the table from entry j of row r on.
  ghost predicate Begins(r: nat, j: nat, clock: nat)
    requires r < 16 && j < |Row(r)|
  {
    var s0, s1, s2 := clock % 2 == 1, clock / 2 % 2 == 1, clock / 4 % 2 == 1;
    var s3, s4, s5 := clock / 8 % 2 == 1, clock / 16 % 2 == 1, clock / 32 % 2 == 1;
    Beyond(r, j)
    && Beyond(r, j + 1) == s5
    && Beyond(r, j + 2) == s4
    && Beyond(r, j + 3) == !s3
    && Beyond(r, j + 4) == (s2 != s5)
    && Beyond(r, j + 5) == (s1 != s4)
    && Beyond(r, j + 6) == (s0 == s3)
  }

  lemma FirstSymbols(clock: nat)
    requires clock < 64
    ensures Whitener(clock, 0)
    ensures Whitener(clock, 1) == (clock / 32 % 2 == 1)
    ensures Whitener(clock, 2) == (clock / 16 % 2 == 1)
    ensures Whitener(clock, 3) == !(clock / 8 % 2 == 1)
    ensures Whitener(clock, 4) == ((clock / 4 % 2 == 1) != (clock / 32 % 2 == 1))
    ensures Whitener(clock, 5) == ((clock / 2 % 2 == 1) != (clock / 16 % 2 == 1))
    ensures Whitener(clock, 6) == ((clock % 2 == 1) == (clock / 8 % 2 == 1))
  {
    assert clock % 64 == clock;
    LfsrOutputs(LfsrSeed(clock));
  }

  lemma BeginsWord(r: nat, j: nat, clock: nat, k: nat)
    requires r < 16 && j < |Row(r)| && clock < 64 && Begins(r, j, clock) && k < 7
    ensures White(8 * r + j + k) == Whitener(clock, k)
  {
    hide Row;
    FirstSymbols(clock);
    BeyondIsEntry(8 * r + j, r, j, k);
  }

  lemma WhitenerRecurs(clock: nat, k: nat)
    ensures Whitener(clock, k + 7) == (Whitener(clock, k) != Whitener(clock, k + 4))
  {
    var s := LfsrSeed(clock % 64);
    LfsrRunSum(s, k, 7);
    LfsrRunSum(s, k, 4);
    LfsrOutputs(LfsrRun(s, k));
  }

  lemma {:induction false} BeginsWhole(r: nat, j: nat, clock: nat, k: nat)
    requires r < 16 && j < |Row(r)| && clock < 64 && Begins(r, j, clock)
    ensures White(8 * r + j + k) == Whitener(clock, k)
  {
    hide Row, Begins, White, Whitener;
    if k < 7 {
      BeginsWord(r, j, clock, k);
    } else {
      BeginsWhole(r, j, clock, k - 7);
      BeginsWhole(r, j, clock, k - 3);
      RecursAt(8 * r + j + k - 7);
      WhitenerRecurs(clock, k - 7);
    }
  }

  // Reading the table from p on gives the word for a clock, however far one reads.
  ghost predicate Reads(p: nat, clock: nat)
  {
    forall k: nat :: White(p + k) == Whitener(clock, k)
  }

  lemma ReadsFrom(r: nat, j: nat, clock: nat)
    requires r < 16 && j < |Row(r)| && clock < 64 && Begins(r, j, clock)
    ensures Reads(8 * r + j, clock)
  {
    forall k: nat
      ensures White(8 * r + j + k) == Whitener(clock, k)
    {
      BeginsWhole(r, j, clock, k);
    }
  }

  lemma Words0()
    ensures Reads(99, 0) && Reads(85, 1) && Reads(17, 2) && Reads(50, 3)
    ensures Reads(102, 4) && Reads(58, 5) && Reads(108, 6) && Reads(45, 7)
  {
    hide Reads, StartIndex, Whitener, White, LfsrRun;
    ReadsFrom(12, 3, 0); ReadsFrom(10, 5, 1); ReadsFrom(2, 1, 2); ReadsFrom(6, 2, 3);
    ReadsFrom(12, 6, 4); ReadsFrom(7, 2, 5); ReadsFrom(13, 4, 6); ReadsFrom(5, 5, 7);
  }

  lemma Words8()
    ensures Reads(92, 8) && Reads(62, 9) && Reads(32, 10) && Reads(118, 11)
    ensures Reads(88, 12) && Reads(11, 13) && Reads(80, 14) && Reads(2, 15)
  {
    hide Reads, StartIndex, Whitener, White, LfsrRun;
    ReadsFrom(11, 4, 8); ReadsFrom(7, 6, 9); ReadsFrom(4, 0, 10); ReadsFrom(14, 6, 11);
    ReadsFrom(11, 0, 12); ReadsFrom(1, 3, 13); ReadsFrom(10, 0, 14); ReadsFrom(0, 2, 15);
  }

  lemma Words16()
    ensures Reads(37, 16) && Reads(69, 17) && Reads(55, 18) && Reads(8, 19)
    ensures Reads(20, 20) && Reads(40, 21) && Reads(74, 22) && Reads(114, 23)
  {
    hide Reads, StartIndex, Whitener, White, LfsrRun;
    ReadsFrom(4, 5, 16); ReadsFrom(8, 5, 17); ReadsFrom(6, 7, 18); ReadsFrom(1, 0, 19);
    ReadsFrom(2, 4, 20); ReadsFrom(5, 0, 21); ReadsFrom(9, 2, 22); ReadsFrom(14, 2, 23);
  }

  lemma Words24()
    ensures Reads(15, 24) && Reads(106, 25) && Reads(30, 26) && Reads(78, 27)
    ensures Reads(53, 28) && Reads(72, 29) && Reads(28, 30) && Reads(26, 31)
  {
    hide Reads, StartIndex, Whitener, White, LfsrRun;
    ReadsFrom(1, 7, 24); ReadsFrom(13, 2, 25); ReadsFrom(3, 6, 26); ReadsFrom(9, 6, 27);
    ReadsFrom(6, 5, 28); ReadsFrom(9, 0, 29); ReadsFrom(3, 4, 30); ReadsFrom(3, 2, 31);
  }

  lemma Words32()
    ensures Reads(68, 32) && Reads(7, 33) && Reads(39, 34) && Reads(113, 35)
    ensures Reads(105, 36) && Reads(77, 37) && Reads(71, 38) && Reads(25, 39)
  {
    hide Reads, StartIndex, Whitener, White, LfsrRun;
    ReadsFrom(8, 4, 32); ReadsFrom(0, 7, 33); ReadsFrom(4, 7, 34); ReadsFrom(14, 1, 35);
    ReadsFrom(13, 1, 36); ReadsFrom(9, 5, 37); ReadsFrom(8, 7, 38); ReadsFrom(3, 1, 39);
  }

  lemma Words40()
    ensures Reads(84, 40) && Reads(49, 41) && Reads(57, 42) && Reads(44, 43)
    ensures Reads(61, 44) && Reads(117, 45) && Reads(10, 46) && Reads(1, 47)
  {
    hide Reads, StartIndex, Whitener, White, LfsrRun;
    ReadsFrom(10, 4, 40); ReadsFrom(6, 1, 41); ReadsFrom(7, 1, 42); ReadsFrom(5, 4, 43);
    ReadsFrom(7, 5, 44); ReadsFrom(14, 5, 45); ReadsFrom(1, 2, 46); ReadsFrom(0, 1, 47);
  }

  lemma Words48()
    ensures Reads(123, 48) && Reads(124, 49) && Reads(22, 50) && Reads(125, 51)
    ensures Reads(111, 52) && Reads(23, 53) && Reads(42, 54) && Reads(126, 55)
  {
    hide Reads, StartIndex, Whitener, White, LfsrRun;
    ReadsFrom(15, 3, 48); ReadsFrom(15, 4, 49); ReadsFrom(2, 6, 50); ReadsFrom(15, 5, 51);
    ReadsFrom(13, 7, 52); ReadsFrom(2, 7, 53); ReadsFrom(5, 2, 54); ReadsFrom(15, 6, 55);
  }

  lemma Words56()
    ensures Reads(6, 56) && Reads(112, 57) && Reads(76, 58) && Reads(24, 59)
    ensures Reads(48, 60) && Reads(43, 61) && Reads(116, 62) && Reads(0, 63)
  {
    hide Reads, StartIndex, Whitener, White, LfsrRun;
    ReadsFrom(0, 6, 56); ReadsFrom(14, 0, 57); ReadsFrom(9, 4, 58); ReadsFrom(3, 0, 59);
    ReadsFrom(6, 0, 60); ReadsFrom(5, 3, 61); ReadsFrom(14, 4, 62); ReadsFrom(0, 0, 63);
  }

  lemma TableReads(clock: nat)
    ensures Reads(StartIndex(clock), clock % 64)
  {
    hide Reads;
    match clock % 64 / 8
    case 0 => Words0();
    case 1 => Words8();
    case 2 => Words16();
    case 3 => Words24();
    case 4 => Words32();
    case 5 => Words40();
    case 6 => Words48();
    case _ => Words56();
  }

  lemma SameClock(clock: nat)
    ensures clock % 64 % 64 == clock % 64
  {
  }

  lemma ReadsAt(p: nat, clock: nat, position: nat)
    requires Reads(p, clock % 64)
    ensures White(p + position) == Whitener(clock, position)
  {
    hide LfsrRun, LfsrSeed, White;
    SameClock(clock);
    assert White(p + position) == Whitener(clock % 64, position);
  }

  // ---------- removing (or applying) the whitening ----------

  // What unwhiten makes of a whitened stream.
  function Unwhitened(air: seq<bool>, clock: nat, skip: nat): (plain: seq<bool>)
    ensures |plain| == |air|
  {
    seq(|air|, i requires 0 <= i < |air| => air[i] != Whitener(clock, skip + i))
  }

  // One look-up in the table, which is the symbol of the shift register at that position.
  method WhiteningSymbol(index: nat, ghost clock: nat, ghost position: nat) returns (white: bool)
    requires index == (StartIndex(clock) + position) % 127
    ensures white == Whitener(clock, position)
  {
    hide StartIndex, Whitener, Reads, Row;
    TableReads(clock);
    ReadsAt(StartIndex(clock), clock, position);
    white := Row(index / 8)[index % 8] == 1;
  }

  lemma NextIndex(start: nat, i: nat)
    ensures ((start + i) % 127 + 1) % 127 == (start + i + 1) % 127
  {
  }

  method Unwhiten(input: array<bool>, from: nat, output: array<bool>, clock: nat, length: nat, skip: nat, whitened: bool)
    requires from + length <= input.Length && length <= output.Length && input != output
    modifies output
    ensures output[..length] == if whitened then Unwhitened(input[from..from + length], clock, skip)
                                else input[from..from + length]
    ensures output[length..] == old(output[length..])
  {
    hide StartIndex, Whitener;
    ghost var air := input[from..from + length];
    ghost var plain := if whitened then Unwhitened(air, clock, skip) else air;
    var index := StartIndex(clock);
    ghost var start := index;
    index := index + skip;
    index := index % 127;
    for count := 0 to length
      invariant index == (start + skip + count) % 127
      invariant output[..count] == plain[..count]
      invariant output[length..] == old(output[length..])
    {
      var white := WhiteningSymbol(index, clock, skip + count);
      assert air[count] == input[from + count];
      output[count] := if whitened then input[from + count] != white else input[from + count];
      assert output[count] == plain[count];
      NextIndex(start + skip, count);
      index := index + 1;
      index := index % 127;
    }
  }

  // Whitening twice is doing nothing, so the same function whitens and unwhitens.
  lemma UnwhitenTwice(air: seq<bool>, clock: nat, skip: nat)
    ensures Unwhitened(Unwhitened(air, clock, skip), clock, skip) == air
  {
  }

  // A stream can be unwhitened in chunks, advancing the input and the skip together.
  lemma UnwhitenChunks(first: seq<bool>, second: seq<bool>, clock: nat, skip: nat)
    ensures Unwhitened(first + second, clock, skip)
            == Unwhitened(first, clock, skip) + Unwhitened(second, clock, skip + |first|)
  {
    var whole := Unwhitened(first + second, clock, skip);
    forall i | |first| <= i < |whole|
      ensures whole[i] == Unwhitened(second, clock, skip + |first|)[i - |first|]
    {
      assert skip + i == skip + |first| + (i - |first|);
    }
  }

  // Where the word starts and how it goes on: what all-zero symbols are turned into.
  lemma WordInSymbols(clock: nat, n: nat)
    requires n >= 7
    ensures var (w, c) := (Unwhitened(seq(n, _ => false), clock, 0), clock % 64);
            && w[0] && w[1] == (c / 32 % 2 == 1) && w[2] == (c / 16 % 2 == 1) && w[3] == (c / 8 % 2 == 0)
            && w[4] == ((c / 4 % 2 == 1) != (c / 32 % 2 == 1)) && w[5] == ((c / 2 % 2 == 1) != (c / 16 % 2 == 1))
            && w[6] == ((c % 2 == 1) == (c / 8 % 2 == 1))
            && forall i: nat :: i + 7 < n ==> RecursIn(w, i)
  {
    hide Whitener;
    var w := Unwhitened(seq(n, _ => false), clock, 0);
    FirstSymbols(clock % 64);
    forall k: nat
      ensures Whitener(clock % 64, k) == Whitener(clock, k)
    {
      SameWord(clock, k);
    }
    forall i: nat | i + 7 < n
      ensures RecursIn(w, i)
    {
      WhitenerRecurs(clock, i);
    }
  }

  ghost predicate RecursIn(w: seq<bool>, i: nat)
    requires i + 7 < |w|
  {
    w[i + 7] == (w[i] != w[i + 4])
  }

  lemma SameWord(clock: nat, k: nat)
    ensures Whitener(clock % 64, k) == Whitener(clock, k)
  {
    hide LfsrRun, LfsrSeed;
    SameClock(clock);
  }

  // Any stream is turned into its sum with that word, from the symbol `skip` on.
  lemma WordIsAdded(air: seq<bool>, clock: nat, skip: nat, n: nat)
    requires skip + |air| <= n
    ensures var w := Unwhitened(seq(n, _ => false), clock, 0);
            forall i :: 0 <= i < |air| ==> Unwhitened(air, clock, skip)[i] == (air[i] != w[skip + i])
  {
    hide Whitener;
  }
}
