/** Hop selection: the direct kernel, the precomputed table, and what they have in common. */
module HopKernel {
  import opened Arithmetic
  import opened Bits
  import opened Permutation

  const BT_NUM_CHANNELS: nat := 79

  // Possible values of CLK1-27.
  const SEQUENCE_LENGTH: nat := 134217728

  type RadioChannel = c: int | 0 <= c < 79

  // An entry of the hopping sequence, a `char` in the source.
  type Channel = c: int | 0 <= c < 128

  // The parts of the kernel's inputs that depend on the address alone.
  datatype Address = Address(a1: nat, b: nat, c1: nat, d1: nat, e: nat)

  // The number whose bits, from the top, are the named bits of the address.
  function Gather(address: nat, bits: seq<nat>): nat
  {
    if bits == [] then 0
    else (if BitAt(address, bits[|bits| - 1]) then 1 else 0) + 2 * Gather(address, bits[..|bits| - 1])
  }

  lemma {:induction false} GatherBound(address: nat, bits: seq<nat>)
    ensures Gather(address, bits) < Pow2(|bits|)
  {
    if bits != [] {
      GatherBound(address, bits[..|bits| - 1]);
    }
  }

  function AddressOf(address: nat): (r: Address)
    ensures r.a1 < 32 && r.b < 16 && r.c1 < 32 && r.d1 < 512 && r.e < 128
  {
    GatherBound(address, [8, 6, 4, 2, 0]);
    GatherBound(address, [13, 11, 9, 7, 5, 3, 1]);
    assert Pow2(5) == 32 && Pow2(7) == 128;
    Address(address / 8388608 % 32, address / 524288 % 16, Gather(address, [8, 6, 4, 2, 0]), address / 1024 % 512,
            Gather(address, [13, 11, 9, 7, 5, 3, 1]))
  }

  // What a hop depends on besides the clock.
  datatype Kernel = Kernel(address: Address, afh: bool, used: nat, bank: seq<nat>) {
    // The register bank has a fixed size; a used channel count of 0 would be divided by.
    predicate Valid()
    {
      && |bank| == BT_NUM_CHANNELS && 1 <= used && (afh ==> used <= BT_NUM_CHANNELS)
      && (forall i :: 0 <= i < |bank| ==> bank[i] < BT_NUM_CHANNELS)
      && address.a1 < 32 && address.b < 16 && address.c1 < 32 && address.d1 < 512 && address.e < 128
    }
  }

  // What goes into the permutation.
  function PermIn(address: Address, a: nat, x: nat): (z: nat)
    ensures z < 32
  {
    assert Pow2(5) == 32;
    Xor((x + a) % 32, address.b, 5)
  }

  // ---------- the direct kernel: section 2.6 of the baseband specification ----------

  function SingleHop(k: Kernel, clock: nat): (channel: Channel)
    requires k.Valid()
  {
    var x := clock / 4 % 32;
    var y1 := clock / 2 % 2;
    var a := Xor(k.address.a1, clock / 2097152, 5);
    var c := Xor(k.address.c1, clock / 65536, 5);
    var d := Xor(k.address.d1, clock / 128, 9);
    var baseF := 16 * (clock / 128 % 2097152);
    var f := baseF % BT_NUM_CHANNELS;
    var perm := Perm(PermIn(k.address, a, x), Xor(y1 * 0x1f, c, 5), d);
    k.bank[BankSlot(k, perm, f, Mod(baseF, k.used), y1)]
  }

  // ---------- the table ----------

  // The permuted number for x and y1 when the clock bits above are n (CLK7-27).
  function PermAt(address: Address, n: nat, x: nat, y1: nat): (perm: nat)
    ensures perm < 32
  {
    var a := Xor(address.a1, n / 16384 % 32, 5);
    var c := Xor(address.c1, n / 512 % 32, 5);
    var d := Xor(address.d1, n % 512, 9);
    Perm(PermIn(address, a, x), if y1 == 0 then c else Xor(c, 0x1f, 5), d)
  }

  // The place in the register bank for a permuted number and a frequency offset; with adaptive
  // hopping the offset is already reduced modulo the number of used channels.
  function BankSlot(k: Kernel, perm: nat, f: nat, fDash: nat, y1: nat): (slot: nat)
    requires k.Valid()
    ensures slot < BT_NUM_CHANNELS
  {
    if k.afh then Mod(perm + k.address.e + fDash + 32 * y1, k.used)
    else (perm + k.address.e + f + 32 * y1) % BT_NUM_CHANNELS
  }

  function BankIndex(k: Kernel, n: nat, x: nat, y1: nat): (index: nat)
    requires k.Valid()
    ensures index < BT_NUM_CHANNELS
  {
    var f := 16 * n % BT_NUM_CHANNELS;
    BankSlot(k, PermAt(k.address, n, x, y1), f, Mod(f, k.used), y1)
  }

  // Entry t of the table that gen_hops fills.
  function TableHop(k: Kernel, t: nat): (channel: Channel)
    requires k.Valid()
  {
    k.bank[BankIndex(k, t / 64, t % 64 / 2, t % 2)]
  }

  // The whole table.
  ghost function HopTable(k: Kernel): (table: seq<Channel>)
    requires k.Valid()
    ensures |table| == SEQUENCE_LENGTH
  {
    seq(SEQUENCE_LENGTH, t requires 0 <= t < SEQUENCE_LENGTH => TableHop(k, t))
  }

  // What the loop variables of gen_hops hold while the clock bits above x are n.
  ghost predicate BlockVars(k: Kernel, n: nat, a: nat, c: nat, cFlipped: nat, d: nat, f: nat, fDash: nat)
    requires k.Valid()
  {
    && a == Xor(k.address.a1, n / 16384 % 32, 5) && c == Xor(k.address.c1, n / 512 % 32, 5)
    && cFlipped == Xor(c, 0x1f, 5) && d == Xor(k.address.d1, n % 512, 9)
    && f == 16 * n % BT_NUM_CHANNELS && fDash == Mod(f, k.used)
  }

  // The value of one of the two assignments in the innermost loop.
  method Entry(k: Kernel, perms: PermTable, ghost n: nat, x: nat, y1: nat, a: nat, c: nat, cFlipped: nat, d: nat, f: nat, fDash: nat)
    returns (channel: Channel)
    requires k.Valid() && perms.Valid() && x < 32 && y1 < 2
    requires BlockVars(k, n, a, c, cFlipped, d, f, fDash)
    modifies perms, perms.table
    ensures perms.Valid() && channel == TableHop(k, 64 * n + 2 * x + y1)
  {
    assert Pow2(5) == 32 && Pow2(9) == 512;
    var permIn := PermIn(k.address, a, x);
    var permOut := perms.FastPerm(permIn, if y1 == 0 then c else cFlipped, d);
    EntryValue(k, n, x, y1, a, c, cFlipped, d, f, fDash);
    channel := k.bank[BankSlot(k, permOut, f, fDash, y1)];
  }

  // One of the two assignments; it extends the part of the table that is right.
  method Put(k: Kernel, perms: PermTable, sequence: array<Channel>, ghost table: seq<Channel>, index: nat, ghost n: nat, x: nat, y1: nat,
             a: nat, c: nat, cFlipped: nat, d: nat, f: nat, fDash: nat)
    requires k.Valid() && perms.Valid() && x < 32 && y1 < 2 && BlockVars(k, n, a, c, cFlipped, d, f, fDash)
    requires table == HopTable(k) && sequence.Length == |table|
    requires index == 64 * n + 2 * x + y1 < |table| && sequence[..index] == table[..index]
    modifies sequence, perms, perms.table
    ensures perms.Valid() && sequence[..index + 1] == table[..index + 1]
  {
    var channel := Entry(k, perms, n, x, y1, a, c, cFlipped, d, f, fDash);
    sequence[index] := channel;
  }

  lemma EntryValue(k: Kernel, n: nat, x: nat, y1: nat, a: nat, c: nat, cFlipped: nat, d: nat, f: nat, fDash: nat)
    requires k.Valid() && x < 32 && y1 < 2 && BlockVars(k, n, a, c, cFlipped, d, f, fDash)
    ensures var perm := Perm(PermIn(k.address, a, x), if y1 == 0 then c else cFlipped, d);
            TableHop(k, 64 * n + 2 * x + y1) == k.bank[BankSlot(k, perm, f, fDash, y1)]
  {
    BlockEntry(n, x, y1);
  }

  // The innermost loop: the 64 entries for the clock bits n.
  method FillBlock(k: Kernel, perms: PermTable, sequence: array<Channel>, ghost table: seq<Channel>, ghost n: nat,
                   a: nat, c: nat, cFlipped: nat, d: nat, f: nat, fDash: nat, index: nat)
    requires k.Valid() && perms.Valid() && BlockVars(k, n, a, c, cFlipped, d, f, fDash)
    requires table == HopTable(k) && sequence.Length == |table|
    requires index == 64 * n && index + 64 <= |table| && sequence[..index] == table[..index]
    modifies sequence, perms, perms.table
    ensures perms.Valid() && sequence[..index + 64] == table[..index + 64]
  {
    for x := 0 to 32
      invariant perms.Valid() && sequence[..index + 2 * x] == table[..index + 2 * x]
    {
      Put(k, perms, sequence, table, index + 2 * x, n, x, 0, a, c, cFlipped, d, f, fDash);
      Put(k, perms, sequence, table, index + 2 * x + 1, n, x, 1, a, c, cFlipped, d, f, fDash);
    }
  }

  // The running frequency offset, reduced modulo the channels and modulo the used channels.
  datatype Offset = Offset(baseF: nat, f: nat, fDash: nat) {
    predicate For(k: Kernel, blocks: nat)
      requires k.Valid()
    {
      baseF == 16 * blocks && f == baseF % BT_NUM_CHANNELS && fDash == Mod(f, k.used)
    }

    function Next(k: Kernel): Offset
      requires k.Valid()
    {
      var next := (baseF + 16) % BT_NUM_CHANNELS;
      Offset(baseF + 16, next, Mod(next, k.used))
    }
  }

  lemma NextOffset(k: Kernel, offset: Offset, blocks: nat)
    requires k.Valid() && offset.For(k, blocks)
    ensures offset.Next(k).For(k, blocks + 1)
  {
  }

  // The complete hopping sequence: nested loops over the clock bits, with running sums for the index
  // and for the frequency offset.
  method GenHops(k: Kernel, perms: PermTable, sequence: array<Channel>)
    requires k.Valid() && perms.Valid() && sequence.Length == SEQUENCE_LENGTH
    modifies sequence, perms, perms.table
    ensures perms.Valid() && sequence[..] == HopTable(k)
  {
    ghost var table := HopTable(k);
    var index, offset := 0, Offset(0, 0, 0);
    for h := 0 to 0x04
      invariant perms.Valid() && index == 33554432 * h && offset.For(k, 524288 * h)
      invariant sequence[..index] == table[..index]
    {
      for i := 0 to 0x20
        invariant perms.Valid() && index == 33554432 * h + 1048576 * i && offset.For(k, 524288 * h + 16384 * i)
        invariant sequence[..index] == table[..index]
      {
        var a := Xor(k.address.a1, i, 5);
        for j := 0 to 0x20
          invariant perms.Valid() && index == 33554432 * h + 1048576 * i + 32768 * j
          invariant offset.For(k, 524288 * h + 16384 * i + 512 * j)
          invariant sequence[..index] == table[..index]
        {
          var c := Xor(k.address.c1, j, 5);
          index, offset := FillRow(k, perms, sequence, table, h, i, j, a, c, index, offset);
        }
      }
    }
    assert sequence[..] == sequence[..index] && table == table[..index];
  }

  // The loop over clock bits 7-15.
  method FillRow(k: Kernel, perms: PermTable, sequence: array<Channel>, ghost table: seq<Channel>, ghost h: nat, ghost i: nat,
                 ghost j: nat, a: nat, c: nat, index0: nat, offset0: Offset)
    returns (index: nat, offset: Offset)
    requires k.Valid() && perms.Valid() && table == HopTable(k) && sequence.Length == |table|
    requires h < 4 && i < 32 && j < 32 && a == Xor(k.address.a1, i, 5) && c == Xor(k.address.c1, j, 5)
    requires index0 == 33554432 * h + 1048576 * i + 32768 * j && offset0.For(k, 524288 * h + 16384 * i + 512 * j)
    requires sequence[..index0] == table[..index0]
    modifies sequence, perms, perms.table
    ensures perms.Valid() && index == index0 + 32768 && offset.For(k, 524288 * h + 16384 * i + 512 * j + 512)
    ensures index <= |table| && sequence[..index] == table[..index]
  {
    index, offset := index0, offset0;
    var cFlipped := Xor(c, 0x1f, 5);
    ghost var n0 := 524288 * h + 16384 * i + 512 * j;
    assert index0 == 64 * n0;
    for b := 0 to 0x200
      invariant perms.Valid() && index == 64 * (n0 + b) && index <= |table|
      invariant offset.For(k, n0 + b)
      invariant sequence[..index] == table[..index]
    {
      ghost var n := n0 + b;
      var d := Xor(k.address.d1, b, 9);
      BlockVarsHold(k, h, i, j, b, n, a, c, cFlipped, d, offset);
      FillBlock(k, perms, sequence, table, n, a, c, cFlipped, d, offset.f, offset.fDash, index);
      NextOffset(k, offset, n);
      index := index + 64;
      offset := offset.Next(k);
    }
  }

  lemma BlockParts(h: nat, i: nat, j: nat, b: nat)
    requires h < 4 && i < 32 && j < 32 && b < 512
    ensures var n := 524288 * h + 16384 * i + 512 * j + b;
            n / 16384 % 32 == i && n / 512 % 32 == j && n % 512 == b && 64 * n + 64 <= SEQUENCE_LENGTH
  {
    var n := 524288 * h + 16384 * i + 512 * j + b;
    QuotientIs(n, 16384, 32 * h + i, 512 * j + b);
    QuotientIs(32 * h + i, 32, h, i);
    QuotientIs(n, 512, 1024 * h + 32 * i + j, b);
    QuotientIs(1024 * h + 32 * i + j, 32, 32 * h + i, j);
  }

  lemma BlockVarsHold(k: Kernel, h: nat, i: nat, j: nat, b: nat, n: nat, a: nat, c: nat, cFlipped: nat, d: nat, offset: Offset)
    requires k.Valid() && h < 4 && i < 32 && j < 32 && b < 512
    requires n == 524288 * h + 16384 * i + 512 * j + b && offset.For(k, n)
    requires a == Xor(k.address.a1, i, 5) && c == Xor(k.address.c1, j, 5) && d == Xor(k.address.d1, b, 9)
    requires cFlipped == Xor(c, 0x1f, 5)
    ensures 64 * n + 64 <= SEQUENCE_LENGTH && BlockVars(k, n, a, c, cFlipped, d, offset.f, offset.fDash)
  {
    BlockParts(h, i, j, b);
  }

  // ---------- the table refines the direct kernel ----------

  lemma Mask5(a: nat, value: nat)
    ensures Xor(a, value % 32, 5) == Xor(a, value, 5)
  {
    assert Pow2(5) == 32;
    XorMasks(a, value % 32, value / 32, 5);
  }

  lemma Mask9(a: nat, value: nat)
    ensures Xor(a, value % 512, 9) == Xor(a, value, 9)
  {
    assert Pow2(9) == 512;
    XorMasks(a, value % 512, value / 512, 9);
  }

  lemma FlipByXor(c: nat, y1: nat)
    requires c < 32 && y1 < 2
    ensures Xor(y1 * 0x1f, c, 5) == if y1 == 0 then c else Xor(c, 0x1f, 5)
  {
    assert Pow2(5) == 32;
    if y1 == 0 {
      XorWithZero(c, 5);
    } else {
      XorCommutes(c, 0x1f, 5);
    }
  }

  // The inner loops and the direct kernel feed the permutation with the same words.
  lemma PermRefines(address: Address, n: nat, x: nat, y1: nat)
    requires y1 < 2
    ensures var a, c, d := Xor(address.a1, n / 16384, 5), Xor(address.c1, n / 512, 5), Xor(address.d1, n, 9);
            PermAt(address, n, x, y1) == Perm(PermIn(address, a, x), Xor(y1 * 0x1f, c, 5), d)
  {
    Mask5(address.a1, n / 16384);
    Mask5(address.c1, n / 512);
    Mask9(address.d1, n);
    var c := Xor(address.c1, n / 512, 5);
    assert Pow2(5) == 32;
    FlipByXor(c, y1);
  }

  ghost predicate Fields(clock: nat, n: nat, x: nat, y1: nat)
  {
    n == clock / 128 && x == clock / 4 % 32 && y1 == clock / 2 % 2
  }

  // The direct kernel in terms of the fields of the clock.
  lemma SingleHopFields(k: Kernel, clock: nat, n: nat, x: nat, y1: nat)
    requires k.Valid() && clock < 2 * SEQUENCE_LENGTH && Fields(clock, n, x, y1)
    ensures SingleHop(k, clock)
            == k.bank[BankSlot(k, PermAt(k.address, n, x, y1), 16 * n % BT_NUM_CHANNELS, Mod(16 * n, k.used), y1)]
  {
    ClockHigh(clock);
    ClockTop(clock);
    PermRefines(k.address, n, x, y1);
  }

  lemma TableHopFields(k: Kernel, clock: nat, n: nat, x: nat, y1: nat)
    requires k.Valid() && Fields(clock, n, x, y1)
    ensures var f := 16 * n % BT_NUM_CHANNELS;
            TableHop(k, clock / 2) == k.bank[BankSlot(k, PermAt(k.address, n, x, y1), f, Mod(f, k.used), y1)]
  {
    ClockHigh(clock);
    ClockX(clock);
  }

  // Without adaptive hopping every entry of the table is the hop that the kernel computes.
  lemma TableRefinesKernel(k: Kernel, clock: nat)
    requires k.Valid() && !k.afh && clock < 2 * SEQUENCE_LENGTH
    ensures TableHop(k, clock / 2) == SingleHop(k, clock)
  {
    var n, x, y1 := clock / 128, clock / 4 % 32, clock / 2 % 2;
    SingleHopFields(k, clock, n, x, y1);
    TableHopFields(k, clock, n, x, y1);
  }

  ghost predicate DistinctUpto(s: seq<nat>, n: nat)
    requires n <= |s|
  {
    forall i, j :: 0 <= i < j < n ==> s[i] != s[j]
  }

  lemma SlotsAgree(k: Kernel, perm: nat, f: nat, fDash: nat, fDash': nat, y1: nat)
    requires k.Valid() && k.afh && fDash < k.used && fDash' < k.used
    ensures BankSlot(k, perm, f, fDash, y1) < k.used && BankSlot(k, perm, f, fDash', y1) < k.used
    ensures BankSlot(k, perm, f, fDash, y1) == BankSlot(k, perm, f, fDash', y1) <==> fDash == fDash'
  {
    var m := perm + k.address.e + 32 * y1;
    assert m + fDash == perm + k.address.e + fDash + 32 * y1;
    assert m + fDash' == perm + k.address.e + fDash' + 32 * y1;
    ModShiftInjective(m, fDash, fDash', k.used);
  }

  // With adaptive hopping the table reduces the frequency offset modulo 79 before it reduces it
  // modulo the number of used channels.  An entry is right just when that makes no difference.
  lemma AfhEntryExact(k: Kernel, clock: nat, n: nat)
    requires k.Valid() && k.afh && DistinctUpto(k.bank, k.used) && clock < 2 * SEQUENCE_LENGTH && n == clock / 128
    ensures TableHop(k, clock / 2) == SingleHop(k, clock)
            <==> Mod(16 * n % BT_NUM_CHANNELS, k.used) == Mod(16 * n, k.used)
  {
    var x, y1 := clock / 4 % 32, clock / 2 % 2;
    var f := 16 * n % BT_NUM_CHANNELS;
    TableHopFields(k, clock, n, x, y1);
    SingleHopFields(k, clock, n, x, y1);
    SlotsAgree(k, PermAt(k.address, n, x, y1), f, Mod(f, k.used), Mod(16 * n, k.used), y1);
  }

  lemma SameReduction(baseF: nat, u: nat)
    requires u == 1 || u == 79
    ensures Mod(baseF % 79, u) == Mod(baseF, u)
  {
    ModIsRemainder(baseF, u);
    ModIsRemainder(baseF % 79, u);
  }

  // So the table is right for all clocks just when 1 or 79 channels are used: clock 640, with the
  // frequency offset 80, shows the difference for every other number.
  lemma AfhTableExact(k: Kernel)
    requires k.Valid() && k.afh && DistinctUpto(k.bank, k.used)
    ensures (forall clock: nat :: clock < 2 * SEQUENCE_LENGTH ==> TableHop(k, clock / 2) == SingleHop(k, clock))
            <==> k.used == 1 || k.used == BT_NUM_CHANNELS
  {
    if k.used == 1 || k.used == BT_NUM_CHANNELS {
      forall clock: nat | clock < 2 * SEQUENCE_LENGTH
        ensures TableHop(k, clock / 2) == SingleHop(k, clock)
      {
        AfhEntryExact(k, clock, clock / 128);
        SameReduction(16 * (clock / 128), k.used);
      }
    } else {
      var clock: nat := 640;
      AfhEntryExact(k, clock, clock / 128);
      EightyIsNotOne(16 * (clock / 128), k.used);
    }
  }

  // ---------- without adaptive hopping 64 hops in a row visit 64 channels ----------

  // The bank that precalc fills without adaptive hopping: the even channels, then the odd ones.
  predicate FullBank(bank: seq<nat>)
  {
    |bank| == BT_NUM_CHANNELS && forall i :: 0 <= i < BT_NUM_CHANNELS ==> bank[i] == i * 2 % BT_NUM_CHANNELS
  }

  lemma PermInInjective(address: Address, a: nat, x: nat, other: nat)
    requires x < 32 && other < 32 && PermIn(address, a, x) == PermIn(address, a, other)
    ensures x == other
  {
    assert Pow2(5) == 32;
    XorInjective((x + a) % 32, (other + a) % 32, address.b, 5);
    if x < other {
      ResiduesDiffer(a, x, other, 32);
    } else if other < x {
      ResiduesDiffer(a, other, x, 32);
    }
  }

  lemma PermAtInjective(address: Address, n: nat, x: nat, other: nat, y1: nat)
    requires x < 32 && other < 32 && PermAt(address, n, x, y1) == PermAt(address, n, other, y1)
    ensures x == other
  {
    var a, c := Xor(address.a1, n / 16384 % 32, 5), Xor(address.c1, n / 512 % 32, 5);
    PermInjective(PermIn(address, a, x), PermIn(address, a, other), if y1 == 0 then c else Xor(c, 0x1f, 5),
                  Xor(address.d1, n % 512, 9));
    PermInInjective(address, a, x, other);
  }

  lemma SlotSum(k: Kernel, n: nat, x: nat, y1: nat)
    requires k.Valid() && !k.afh
    ensures BankIndex(k, n, x, y1)
            == (k.address.e + 16 * n % BT_NUM_CHANNELS + (PermAt(k.address, n, x, y1) + 32 * y1)) % BT_NUM_CHANNELS
  {
    hide PermAt, Mod;
  }

  // The two halves of a block use different parts of the bank, and each uses a place only once.
  lemma SlotsDiffer(k: Kernel, n: nat, x: nat, y1: nat, x': nat, y1': nat)
    requires k.Valid() && !k.afh && x < 32 && x' < 32 && y1 < 2 && y1' < 2 && (x, y1) != (x', y1')
    ensures BankIndex(k, n, x, y1) != BankIndex(k, n, x', y1')
  {
    hide PermAt, BankIndex;
    SlotSum(k, n, x, y1);
    SlotSum(k, n, x', y1');
    PlacesDiffer(k.address, n, x, y1, x', y1');
    var m := k.address.e + 16 * n % BT_NUM_CHANNELS;
    var p, q := PermAt(k.address, n, x, y1) + 32 * y1, PermAt(k.address, n, x', y1') + 32 * y1';
    if p < q {
      ResiduesDiffer(m, p, q, BT_NUM_CHANNELS);
    } else {
      ResiduesDiffer(m, q, p, BT_NUM_CHANNELS);
    }
  }

  lemma PlacesDiffer(address: Address, n: nat, x: nat, y1: nat, x': nat, y1': nat)
    requires x < 32 && x' < 32 && y1 < 2 && y1' < 2 && (x, y1) != (x', y1')
    ensures PermAt(address, n, x, y1) + 32 * y1 != PermAt(address, n, x', y1') + 32 * y1'
  {
    if y1 == y1' && PermAt(address, n, x, y1) == PermAt(address, n, x', y1) {
      PermAtInjective(address, n, x, x', y1);
    }
  }

  lemma FullBankInjective(bank: seq<nat>, i: nat, j: nat)
    requires FullBank(bank) && i < BT_NUM_CHANNELS && j < BT_NUM_CHANNELS && i != j
    ensures bank[i] != bank[j] && bank[i] < BT_NUM_CHANNELS
  {
    DoublesDiffer(if i < j then i else j, if i < j then j else i);
  }

  // In every aligned block of 64 entries of the table all channels are different.
  lemma BlockVisitsDistinctChannels(k: Kernel, t: nat, t': nat)
    requires k.Valid() && !k.afh && FullBank(k.bank)
    requires t / 64 == t' / 64 && t != t'
    ensures TableHop(k, t) != TableHop(k, t')
    ensures TableHop(k, t) < BT_NUM_CHANNELS
  {
    EntryFields(t);
    EntryFields(t');
    var n, x, y1, x', y1' := t / 64, t % 64 / 2, t % 2, t' % 64 / 2, t' % 2;
    SlotsDiffer(k, n, x, y1, x', y1');
    FullBankInjective(k.bank, BankIndex(k, n, x, y1), BankIndex(k, n, x', y1'));
  }

  // The kernel as the source runs it, with the table of permutations.
  method SingleHopFast(k: Kernel, perms: PermTable, clock: nat) returns (channel: Channel)
    requires k.Valid() && perms.Valid()
    modifies perms, perms.table
    ensures perms.Valid() && channel == SingleHop(k, clock)
  {
    assert Pow2(5) == 32 && Pow2(9) == 512;
    var x, y1 := clock / 4 % 32, clock / 2 % 2;
    var a := Xor(k.address.a1, clock / 2097152, 5);
    var c := Xor(k.address.c1, clock / 65536, 5);
    var d := Xor(k.address.d1, clock / 128, 9);
    var baseF := 16 * (clock / 128 % 2097152);
    var perm := perms.FastPerm(PermIn(k.address, a, x), Xor(y1 * 0x1f, c, 5), d);
    channel := k.bank[BankSlot(k, perm, baseF % BT_NUM_CHANNELS, Mod(baseF, k.used), y1)];
  }

  // ---------- with adaptive hopping only used channels are visited ----------

  lemma AfhVisitsUsedChannels(k: Kernel, clock: nat, t: nat)
    requires k.Valid() && k.afh
    ensures SingleHop(k, clock) in k.bank[..k.used]
    ensures TableHop(k, t) in k.bank[..k.used]
  {
  }
}
