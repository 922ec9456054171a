/** The hopping pattern of an address over a set of channels: which channels it visits, and when two patterns are equal. */
module Patterns {
  import opened Arithmetic
  import opened Sequences
  import opened HopKernel
  import opened ChannelMap

  ghost function AllChannels(): set<nat>
  {
    Below(BT_NUM_CHANNELS)
  }

  ghost predicate IsChannelSet(channels: set<nat>)
  {
    channels != {} && channels <= AllChannels()
  }

  // The channel map with these channels, and the used part of the register bank that it leads to.
  ghost function MapOf(channels: set<nat>): (map_: seq<bool>)
    ensures |map_| == MAP_BITS
  {
    seq(MAP_BITS, c => c in channels)
  }

  ghost function BankOf(channels: set<nat>): seq<nat>
  {
    BankUpto(MapOf(channels), 79)
  }

  lemma BankOfChannels(channels: set<nat>)
    requires IsChannelSet(channels)
    ensures Distinct(BankOf(channels)) && 1 <= |BankOf(channels)| == |channels| <= BT_NUM_CHANNELS
    ensures forall c :: c in BankOf(channels) <==> c in channels
  {
    assert SeenSet(MapOf(channels)) == channels;
    BankIsMap(MapOf(channels));
    BelowSize(BT_NUM_CHANNELS);
    SubsetSize(channels, AllChannels());
  }

  lemma MapOfSeen(map_: seq<bool>)
    requires |map_| == MAP_BITS && !map_[79]
    ensures MapOf(SeenSet(map_)) == map_ && SeenSet(map_) <= AllChannels()
  {
  }

  lemma {:induction false} FullBankPrefix(bank: seq<nat>, n: nat)
    requires FullBank(bank) && n <= 79
    ensures bank[..n] == BankUpto(MapOf(AllChannels()), n)
  {
    if n > 0 {
      FullBankPrefix(bank, n - 1);
      assert bank[n - 1] in AllChannels();
    }
  }

  lemma FullBankIsBankOf(bank: seq<nat>)
    requires FullBank(bank)
    ensures bank == BankOf(AllChannels())
  {
    FullBankPrefix(bank, 79);
    assert bank == bank[..79];
  }

  // The kernel hops over these channels: the used part of its bank holds them in the usual order.
  ghost predicate HopsOver(k: Kernel, channels: set<nat>)
  {
    && k.Valid() && IsChannelSet(channels)
    && if k.afh then k.used == |channels| && k.bank[..k.used] == BankOf(channels)
       else channels == AllChannels() && FullBank(k.bank)
  }

  // The place in the bank of entry t of the table, when this many channels are used.
  function SlotOf(address: Address, used: nat, t: nat): (slot: nat)
    requires used > 0
    ensures slot < used
  {
    Mod(PermAt(address, t / 64, t % 64 / 2, t % 2) + address.e + Mod(16 * (t / 64) % BT_NUM_CHANNELS, used) + 32 * (t % 2), used)
  }

  lemma AfhEntry(k: Kernel, t: nat)
    requires k.Valid() && k.afh
    ensures TableHop(k, t) == k.bank[..k.used][SlotOf(k.address, k.used, t)]
  {
    hide PermAt, Mod;
  }

  lemma PlainEntry(k: Kernel, t: nat)
    requires k.Valid() && !k.afh
    ensures TableHop(k, t) == k.bank[SlotOf(k.address, BT_NUM_CHANNELS, t)]
  {
    hide PermAt, Mod;
    var perm, f, y1 := PermAt(k.address, t / 64, t % 64 / 2, t % 2), 16 * (t / 64) % BT_NUM_CHANNELS, t % 2;
    ModIsRemainder(f, BT_NUM_CHANNELS);
    SmallRemainder(f, BT_NUM_CHANNELS);
    ModIsRemainder(perm + k.address.e + f + 32 * y1, BT_NUM_CHANNELS);
  }

  // Hopping over all channels is the same with and without adaptive hopping.
  lemma EntryInBank(k: Kernel, channels: set<nat>, t: nat)
    requires HopsOver(k, channels)
    ensures |BankOf(channels)| == |channels| >= 1
    ensures TableHop(k, t) == BankOf(channels)[SlotOf(k.address, |channels|, t)]
  {
    hide TableHop, SlotOf, IsChannelSet, FullBank, BankOf, AllChannels;
    BankOfChannels(channels);
    if k.afh {
      AfhEntry(k, t);
    } else {
      FullBankIsBankOf(k.bank);
      PlainEntry(k, t);
    }
  }

  // ---------- two blocks of the table visit every channel ----------

  lemma PermAtOnto(address: Address, n: nat, v: nat, y1: nat) returns (x: nat)
    requires v < 32
    ensures x < 32 && PermAt(address, n, x, y1) == v
  {
    hide PermAt;
    var images := seq(32, x requires 0 <= x < 32 => PermAt(address, n, x, y1));
    forall i, j | 0 <= i < j < 32
      ensures images[i] != images[j]
    {
      if images[i] == images[j] {
        PermAtInjective(address, n, i, j, y1);
      }
    }
    DistinctIsAll(images, v);
    x :| 0 <= x < 32 && images[x] == v;
  }

  // An entry of block n for which the permuted number and the offset for y1 add up to p.
  lemma EntryFor(address: Address, used: nat, n: nat, p: nat) returns (t: nat)
    requires p < 64 && used > 0
    ensures t / 64 == n && SlotOf(address, used, t) == Mod(p + address.e + Mod(16 * n % BT_NUM_CHANNELS, used), used)
  {
    hide PermAt, Mod;
    var y1 := p / 32;
    var x := PermAtOnto(address, n, p % 32, y1);
    t := 64 * n + 2 * x + y1;
    BlockEntry(n, x, y1);
  }

  lemma SlotVisited(address: Address, used: nat, slot: nat) returns (t: nat)
    requires slot < used <= BT_NUM_CHANNELS
    ensures t < 128 && SlotOf(address, used, t) == slot
  {
    hide PermAt, SlotOf, Mod;
    var m := (slot - address.e) % used;
    WithRemainder(slot, address.e, used);
    if m < 64 {
      t := EntryFor(address, used, 0, m);
      ModIsRemainder(0, used);
      ModIsRemainder(m + address.e, used);
    } else {
      t := EntryFor(address, used, 1, m - 16);
      ModIsRemainder(16, used);
      SmallRemainder(16, used);
      ModIsRemainder(m + address.e, used);
    }
  }

  lemma WithRemainder(slot: nat, e: nat, used: nat)
    requires slot < used
    ensures ((slot - e) % used + e) % used == slot
  {
    var q := (slot - e) / used;
    QuotientIs((slot - e) % used + e, used, -q, slot);
  }

  lemma TableStays(k: Kernel, channels: set<nat>, t: nat)
    requires HopsOver(k, channels)
    ensures TableHop(k, t) in channels
  {
    hide TableHop, SlotOf, BankOf, FullBank;
    BankOfChannels(channels);
    EntryInBank(k, channels, t);
    assert TableHop(k, t) in BankOf(channels);
  }

  lemma ChannelVisited(k: Kernel, channels: set<nat>, c: nat) returns (t: nat)
    requires HopsOver(k, channels) && c in channels
    ensures t < 128 && TableHop(k, t) == c
  {
    hide TableHop, SlotOf, BankOf, FullBank;
    BankOfChannels(channels);
    var slot: nat :| slot < |BankOf(channels)| && BankOf(channels)[slot] == c;
    t := SlotVisited(k.address, |channels|, slot);
    EntryInBank(k, channels, t);
  }

  // The table visits exactly the channels it is meant to hop over, and its first 128 entries do.
  lemma TableVisits(k: Kernel, channels: set<nat>, c: nat)
    requires HopsOver(k, channels)
    ensures c in channels <==> exists t: nat :: t < SEQUENCE_LENGTH && TableHop(k, t) == c
    ensures c in channels <==> exists t: nat :: t < 128 && TableHop(k, t) == c
  {
    hide TableHop;
    if c in channels {
      var t := ChannelVisited(k, channels, c);
    }
    forall t: nat
      ensures TableHop(k, t) in channels
    {
      TableStays(k, channels, t);
    }
  }

  // ---------- two patterns of one address ----------

  lemma SameChannelsSameTable(k: Kernel, other: Kernel, channels: set<nat>)
    requires HopsOver(k, channels) && HopsOver(other, channels) && k.address == other.address
    ensures HopTable(k) == HopTable(other)
  {
    hide TableHop, SlotOf;
    forall t: nat | t < SEQUENCE_LENGTH
      ensures HopTable(k)[t] == HopTable(other)[t]
    {
      EntryInBank(k, channels, t);
      EntryInBank(other, channels, t);
    }
  }

  // They are equal exactly when they hop over the same channels, whether or not adaptive hopping is on.
  lemma TablesEqual(k: Kernel, channels: set<nat>, other: Kernel, others: set<nat>)
    requires HopsOver(k, channels) && HopsOver(other, others) && k.address == other.address
    ensures HopTable(k) == HopTable(other) <==> channels == others
  {
    hide TableHop;
    if HopTable(k) == HopTable(other) {
      forall t: nat | t < SEQUENCE_LENGTH
        ensures TableHop(k, t) == TableHop(other, t)
      {
        assert HopTable(k)[t] == HopTable(other)[t];
      }
      forall c
        ensures c in channels <==> c in others
      {
        TableVisits(k, channels, c);
        TableVisits(other, others, c);
      }
    } else if channels == others {
      SameChannelsSameTable(k, other, channels);
    }
  }
}
