/** What the hop selection kernel takes from an address, and the cache of generated hopping patterns. */
module HopCaches {
  import opened Bits
  import opened Sequences
  import opened Permutation
  import opened HopKernel
  import opened ChannelMap
  import opened Patterns
  import opened HopReversal

  // ---------- the address ----------

  // (value >> n) & (1 << bit)
  function MaskedBit(value: nat, n: nat, bit: nat): nat
  {
    if BitAt(ShiftRight(value, n), bit) then Pow2(bit) else 0
  }

  // The n bits of the address from bit `odd` on, every other one.
  function Alternate(odd: nat, n: nat): (bits: seq<nat>)
    ensures |bits| == n
  {
    if n == 0 then [] else [2 * (n - 1) + odd] + Alternate(odd, n - 1)
  }

  ghost function Picked(address: nat, odd: nat, n: nat): nat
    decreases n
  {
    if n == 0 then 0 else MaskedBit(address, n - 1 + odd, n - 1) + Picked(address, odd, n - 1)
  }

  lemma {:induction false} GatherFirst(address: nat, first: nat, rest: seq<nat>)
    ensures Gather(address, [first] + rest) == (if BitAt(address, first) then Pow2(|rest|) else 0) + Gather(address, rest)
  {
    var bits := [first] + rest;
    if rest == [] {
      assert bits[..0] == [];
    } else {
      assert bits[..|rest|] == [first] + rest[..|rest| - 1];
      GatherFirst(address, first, rest[..|rest| - 1]);
    }
  }

  // Shifting and masking every other bit and adding up gathers these bits into one number.
  lemma {:induction false} PickedIsGathered(address: nat, odd: nat, n: nat)
    ensures Picked(address, odd, n) == Gather(address, Alternate(odd, n))
  {
    if n > 0 {
      PickedIsGathered(address, odd, n - 1);
      GatherFirst(address, 2 * (n - 1) + odd, Alternate(odd, n - 1));
      ShiftRightBit(address, n - 1 + odd, n - 1);
    }
  }

  method AddressPrecalc(address: nat) returns (r: Address)
    ensures r == AddressOf(address)
  {
    PickedIsGathered(address, 0, 5);
    PickedIsGathered(address, 1, 7);
    assert Alternate(0, 5) == [8, 6, 4, 2, 0];
    assert Alternate(1, 7) == [13, 11, 9, 7, 5, 3, 1];
    var c1 := MaskedBit(address, 4, 4) + MaskedBit(address, 3, 3) + MaskedBit(address, 2, 2) + MaskedBit(address, 1, 1)
      + MaskedBit(address, 0, 0);
    var e := MaskedBit(address, 7, 6) + MaskedBit(address, 6, 5) + MaskedBit(address, 5, 4) + MaskedBit(address, 4, 3)
      + MaskedBit(address, 3, 2) + MaskedBit(address, 2, 1) + MaskedBit(address, 1, 0);
    assert c1 == Picked(address, 0, 5) && e == Picked(address, 1, 7);
    r := Address(address / 8388608 % 32, address / 524288 % 16, c1, address / 1024 % 512, e);
  }

  // ---------- the hopping pattern of an address ----------

  // The low 32 bits of the key: the address parts, without the flag and the number of channels.
  function Key(uap: Word8, lap: Word24): (key: nat)
    ensures key < 0x1_0000_0000
  {
    uap * 16777216 + lap
  }

  ghost function EvenThenOdd(): (bank: seq<nat>)
    ensures FullBank(bank) && forall i :: 0 <= i < |bank| ==> bank[i] < BT_NUM_CHANNELS
  {
    seq(BT_NUM_CHANNELS, i requires 0 <= i < BT_NUM_CHANNELS => i * 2 % BT_NUM_CHANNELS)
  }

  // Hopping over all channels, for the 28 bits of the address that hop selection uses.
  ghost function PlainKernel(key: nat): (k: Kernel)
    ensures k.Valid() && !k.afh
  {
    Kernel(AddressOf(key % 268435456), false, 1, EvenThenOdd())
  }

  lemma PlainHopsOverAll(k: Kernel)
    requires k.Valid() && !k.afh && FullBank(k.bank)
    ensures HopsOver(k, AllChannels())
  {
    assert 0 in AllChannels();
  }

  // The number of used channels has no influence unless adaptive hopping is on.
  lemma UsedIsIrrelevant(k: Kernel, key: nat)
    requires k.Valid() && !k.afh && FullBank(k.bank) && k.address == AddressOf(key % 268435456)
    ensures HopTable(k) == HopTable(PlainKernel(key))
  {
    hide HopTable, AddressOf;
    PlainHopsOverAll(k);
    PlainHopsOverAll(PlainKernel(key));
    SameChannelsSameTable(k, PlainKernel(key), AllChannels());
  }

  // Adaptive hopping leads to the pattern without it just when no channel is left out.
  lemma AfhPatternIsPlain(k: Kernel, key: nat, map_: seq<bool>)
    requires k.Valid() && k.afh && k.address == AddressOf(key % 268435456) && |map_| == MAP_BITS && !map_[79]
    requires k.used == |SeenSet(map_)| && k.bank[..k.used] == BankUpto(map_, 79)
    ensures HopTable(k) == HopTable(PlainKernel(key)) <==> k.used == BT_NUM_CHANNELS
  {
    hide HopTable, AddressOf, BankUpto;
    var channels := SeenSet(map_);
    MapOfSeen(map_);
    PlainHopsOverAll(PlainKernel(key));
    TablesEqual(k, channels, PlainKernel(key), AllChannels());
    BelowSize(BT_NUM_CHANNELS);
    SubsetSize(channels, AllChannels());
  }

  // The bank has a fixed size; what is beyond the used channels does not matter.
  ghost function FilledBank(channels: set<nat>): (bank: seq<nat>)
    requires IsChannelSet(channels)
    ensures |bank| == BT_NUM_CHANNELS && |channels| <= BT_NUM_CHANNELS && bank[..|channels|] == BankOf(channels)
    ensures forall i :: 0 <= i < |bank| ==> bank[i] < BT_NUM_CHANNELS
  {
    BankOfChannels(channels);
    var bank := BankOf(channels);
    assert forall i :: 0 <= i < |bank| ==> bank[i] in channels;
    bank + seq(BT_NUM_CHANNELS - |bank|, _ => 0)
  }

  // A kernel that hops over these channels, for the address in the key.
  ghost function PatternKernel(key: nat, channels: set<nat>): (k: Kernel)
    requires IsChannelSet(channels)
    ensures HopsOver(k, channels) && k.address == AddressOf(key % 268435456)
  {
    Kernel(AddressOf(key % 268435456), true, |channels|, FilledBank(channels))
  }

  // The hopping pattern of this address over these channels.
  ghost function Pattern(key: nat, channels: set<nat>): (table: seq<Channel>)
    requires IsChannelSet(channels)
  {
    HopTable(PatternKernel(key, channels))
  }

  // It is what any kernel with this address and these channels generates.
  lemma PatternIsTable(key: nat, channels: set<nat>, k: Kernel)
    requires IsChannelSet(channels) && HopsOver(k, channels) && k.address == AddressOf(key % 268435456)
    ensures HopTable(k) == Pattern(key, channels)
  {
    hide HopTable, PatternKernel, HopsOver;
    SameChannelsSameTable(k, PatternKernel(key, channels), channels);
  }

  lemma PatternsEqual(key: nat, channels: set<nat>, others: set<nat>)
    requires IsChannelSet(channels) && IsChannelSet(others)
    ensures Pattern(key, channels) == Pattern(key, others) <==> channels == others
  {
    hide HopTable, PatternKernel, HopsOver;
    TablesEqual(PatternKernel(key, channels), channels, PatternKernel(key, others), others);
  }

  lemma PlainPattern(key: nat)
    ensures IsChannelSet(AllChannels()) && Pattern(key, AllChannels()) == HopTable(PlainKernel(key))
  {
    hide HopTable, AddressOf;
    PlainHopsOverAll(PlainKernel(key));
    PatternIsTable(key, AllChannels(), PlainKernel(key));
  }

  // The table of permutations and the sequences generated so far, which all piconets share.
  class HopCache {
    const perms: PermTable
    var entries: map<nat, array<Channel>>

    // The channels that each sequence was generated for.
    ghost var channels: map<nat, set<nat>>

    ghost predicate Valid()
      reads this, perms, perms.table
    {
      perms.Valid() && forall key :: key in entries ==> entries[key].Length == SEQUENCE_LENGTH
    }

    // Every sequence is the pattern of its key over these channels.
    ghost predicate Right()
      reads this, set key | key in entries :: entries[key]
    {
      && channels.Keys == entries.Keys
      && forall key :: key in entries ==> IsChannelSet(channels[key]) && entries[key][..] == Pattern(key, channels[key])
    }

    constructor ()
      ensures Valid() && Right() && entries == map[] && fresh(perms) && fresh(perms.table)
    {
      perms := new PermTable();
      entries, channels := map[], map[];
    }
  }
}
