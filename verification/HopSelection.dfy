/**
 Hop selection written out bit by bit, as section 2.6 of the baseband specification draws it, and the
 proof that the kernel and the table compute just that.
 */
module HopSelection {
  import opened Arithmetic
  import opened Bits
  import opened Permutation
  import opened HopKernel
  import opened HopCaches

  // ---------- five bits and their exchanges ----------

  datatype Five = Five(b0: bool, b1: bool, b2: bool, b3: bool, b4: bool) {
    function Number(): nat
    {
      (if b0 then 1 else 0) + (if b1 then 2 else 0) + (if b2 then 4 else 0) + (if b3 then 8 else 0) + if b4 then 16 else 0
    }

    function Symbols(): seq<bool>
    {
      [b0, b1, b2, b3, b4]
    }

    function Exchange01(): Five { this.(b0 := b1, b1 := b0) }
    function Exchange02(): Five { this.(b0 := b2, b2 := b0) }
    function Exchange03(): Five { this.(b0 := b3, b3 := b0) }
    function Exchange04(): Five { this.(b0 := b4, b4 := b0) }
    function Exchange12(): Five { this.(b1 := b2, b2 := b1) }
    function Exchange13(): Five { this.(b1 := b3, b3 := b1) }
    function Exchange14(): Five { this.(b1 := b4, b4 := b1) }
    function Exchange23(): Five { this.(b2 := b3, b3 := b2) }
    function Exchange24(): Five { this.(b2 := b4, b4 := b2) }
    function Exchange34(): Five { this.(b3 := b4, b4 := b3) }
  }

  // What butterfly n exchanges.
  function Butterfly(n: nat, z: Five): Five
    requires n < 14
  {
    match n
    case 0 => z.Exchange01()
    case 1 => z.Exchange23()
    case 2 => z.Exchange12()
    case 3 => z.Exchange34()
    case 4 => z.Exchange04()
    case 5 => z.Exchange13()
    case 6 => z.Exchange02()
    case 7 => z.Exchange34()
    case 8 => z.Exchange14()
    case 9 => z.Exchange03()
    case 10 => z.Exchange24()
    case 11 => z.Exchange13()
    case 12 => z.Exchange03()
    case 13 => z.Exchange12()
  }

  // The butterflies from 13 down to n whose control bits are set.
  function Exchanged(z: Five, p: seq<bool>, n: nat): Five
    requires |p| == 14 && n <= 14
    decreases 14 - n
  {
    if n == 14 then z
    else if p[n] then Butterfly(n, Exchanged(z, p, n + 1))
    else Exchanged(z, p, n + 1)
  }

  lemma ButterflyIsSwap(n: nat, z: Five)
    requires n < 14
    ensures Swap(z.Symbols(), INDEX1[n], INDEX2[n]) == Butterfly(n, z).Symbols()
  {
    match n
    case 0 | 1 | 2 | 3 => Swaps0(n, z);
    case 4 | 5 | 6 => Swaps4(n, z);
    case 7 | 8 | 9 | 10 => Swaps7(n, z);
    case _ => Swaps11(n, z);
  }

  lemma Swaps0(n: nat, z: Five)
    requires n < 4
    ensures Swap(z.Symbols(), INDEX1[n], INDEX2[n]) == Butterfly(n, z).Symbols()
  {
  }

  lemma Swaps4(n: nat, z: Five)
    requires 4 <= n < 7
    ensures Swap(z.Symbols(), INDEX1[n], INDEX2[n]) == Butterfly(n, z).Symbols()
  {
  }

  lemma Swaps7(n: nat, z: Five)
    requires 7 <= n < 11
    ensures Swap(z.Symbols(), INDEX1[n], INDEX2[n]) == Butterfly(n, z).Symbols()
  {
  }

  lemma Swaps11(n: nat, z: Five)
    requires 11 <= n < 14
    ensures Swap(z.Symbols(), INDEX1[n], INDEX2[n]) == Butterfly(n, z).Symbols()
  {
  }

  lemma {:induction false} ButterfliesExchange(z: Five, p: seq<bool>, n: nat)
    requires |p| == 14 && n <= 14
    ensures Butterflies(z.Symbols(), p, n) == Exchanged(z, p, n).Symbols()
    decreases 14 - n
  {
    hide Swap, Butterfly, Five.Symbols;
    if n < 14 {
      ButterfliesExchange(z, p, n + 1);
      ButterflyIsSwap(n, Exchanged(z, p, n + 1));
    }
  }

  lemma NumberOfSymbols(z: Five)
    ensures AirToHost(z.Symbols()) == z.Number()
  {
    var s := z.Symbols();
    assert AirToHost(s[5..]) == 0 && s[4..][1..] == s[5..];
    assert AirToHost(s[4..]) == if z.b4 then 1 else 0;
    assert s[3..][1..] == s[4..] && s[2..][1..] == s[3..] && s[1..][1..] == s[2..];
    assert AirToHost(s[2..]) == (if z.b2 then 1 else 0) + 2 * AirToHost(s[3..]);
  }

  // ---------- the selection ----------

  // Bits 0 to 4 of a number.
  function Low(value: nat): Five
  {
    Five(BitAt(value, 0), BitAt(value, 1), BitAt(value, 2), BitAt(value, 3), BitAt(value, 4))
  }

  // Input A: bits 23-27 of the address plus CLK21-25, without carries.
  function InputA(address: nat, clock: nat): Five
  {
    Five(BitAt(address, 23) != BitAt(clock, 21), BitAt(address, 24) != BitAt(clock, 22), BitAt(address, 25) != BitAt(clock, 23),
         BitAt(address, 26) != BitAt(clock, 24), BitAt(address, 27) != BitAt(clock, 25))
  }

  // Inputs X and A are added modulo 32, and then address bits 19-22 without carries.
  function PermutedBits(address: nat, clock: nat): Five
  {
    var z := Low((clock / 4 % 32 + InputA(address, clock).Number()) % 32);
    Five(z.b0 != BitAt(address, 19), z.b1 != BitAt(address, 20), z.b2 != BitAt(address, 21), z.b3 != BitAt(address, 22), z.b4)
  }

  // Control bits 0-8 are D, address bits 10-18 plus CLK7-15; bits 9-13 are C, the even address bits
  // 0-8 plus CLK16-20, complemented when CLK1 is set.
  function ControlBits(address: nat, clock: nat): (p: seq<bool>)
    ensures |p| == 14
  {
    seq(14, i requires 0 <= i < 14 => ControlBit(address, clock, i))
  }

  function ControlBit(address: nat, clock: nat, i: nat): bool
    requires i < 14
  {
    if i < 9 then BitAt(address, 10 + i) != BitAt(clock, 7 + i)
    else (BitAt(address, 2 * (i - 9)) != BitAt(clock, 16 + i - 9)) != (clock / 2 % 2 == 1)
  }

  // Input E: the odd address bits 1-13.
  function InputE(address: nat): nat
  {
    (if BitAt(address, 1) then 1 else 0) + (if BitAt(address, 3) then 2 else 0) + (if BitAt(address, 5) then 4 else 0)
    + (if BitAt(address, 7) then 8 else 0) + (if BitAt(address, 9) then 16 else 0) + (if BitAt(address, 11) then 32 else 0)
    + if BitAt(address, 13) then 64 else 0
  }

  // The number that comes out of the butterflies.
  function Permuted(address: nat, clock: nat): nat
  {
    Exchanged(PermutedBits(address, clock), ControlBits(address, clock), 0).Number()
  }

  // The channel when all are in use: the even channels come first, then the odd ones.
  function Selected(address: nat, clock: nat): nat
  {
    2 * ((Permuted(address, clock) + InputE(address) + 16 * (clock / 128 % 2097152) % 79 + 32 * (clock / 2 % 2)) % 79) % 79
  }

  // Its place in the bank of an adaptive hopping sequence with this many channels.
  function SelectedPlace(address: nat, clock: nat, used: nat): nat
    requires used > 0
  {
    (Permuted(address, clock) + InputE(address) + 16 * (clock / 128 % 2097152) % used + 32 * (clock / 2 % 2)) % used
  }

  // ---------- the kernel selects these channels ----------

  lemma {:induction false} HighBits(low: nat, high: nat, n: nat, i: nat)
    requires low < Pow2(n)
    ensures BitAt(low + Pow2(n) * high, n + i) == BitAt(high, i)
  {
    if n > 0 {
      var rest := Pow2(n - 1) * high;
      assert Pow2(n) * high == 2 * rest;
      assert (low + 2 * rest) / 2 == low / 2 + rest;
      HighBits(low / 2, high, n - 1, i);
    }
  }

  // The bits of a field that is n bits wide and stands from bit `from` on.
  lemma FieldBit(value: nat, low: nat, field: nat, high: nat, from: nat, n: nat, i: nat)
    requires low < Pow2(from) && value == low + Pow2(from) * (field + Pow2(n) * high) && i < n
    ensures BitAt(field, i) == BitAt(value, from + i)
  {
    HighBits(low, field + Pow2(n) * high, from, i);
    LowBits(field, high, n, i);
  }

  lemma Powers()
    ensures Pow2(5) == 32 && Pow2(4) == 16 && Pow2(9) == 512 && Pow2(7) == 128 && Pow2(10) == 1024
    ensures Pow2(16) == 65536 && Pow2(19) == 524288 && Pow2(21) == 2097152 && Pow2(23) == 8388608
  {
    assert Pow2(7) == 128;
    assert Pow2(10) == 1024;
    assert Pow2(13) == 8192;
    assert Pow2(16) == 65536;
    assert Pow2(19) == 524288;
    assert Pow2(21) == 2097152;
  }

  lemma FieldA1(address: nat, i: nat)
    requires i < 5
    ensures BitAt(address / 8388608 % 32, i) == BitAt(address, 23 + i)
  {
    hide Pow2;
    Powers();
    var q := address / 8388608;
    FieldBit(address, address % 8388608, q % 32, q / 32, 23, 5, i);
  }

  lemma FieldB(address: nat, i: nat)
    requires i < 4
    ensures BitAt(address / 524288 % 16, i) == BitAt(address, 19 + i)
  {
    hide Pow2;
    Powers();
    var q := address / 524288;
    FieldBit(address, address % 524288, q % 16, q / 16, 19, 4, i);
  }

  lemma FieldD1(address: nat, i: nat)
    requires i < 9
    ensures BitAt(address / 1024 % 512, i) == BitAt(address, 10 + i)
  {
    hide Pow2;
    Powers();
    var q := address / 1024;
    FieldBit(address, address % 1024, q % 512, q / 512, 10, 9, i);
  }

  lemma ClockA(clock: nat, i: nat)
    ensures BitAt(clock / 2097152, i) == BitAt(clock, 21 + i)
  {
    hide Pow2;
    Powers();
    HighBits(clock % 2097152, clock / 2097152, 21, i);
  }

  lemma ClockC(clock: nat, i: nat)
    ensures BitAt(clock / 65536, i) == BitAt(clock, 16 + i)
  {
    hide Pow2;
    Powers();
    HighBits(clock % 65536, clock / 65536, 16, i);
  }

  lemma ClockD(clock: nat, i: nat)
    ensures BitAt(clock / 128, i) == BitAt(clock, 7 + i)
  {
    hide Pow2;
    Powers();
    HighBits(clock % 128, clock / 128, 7, i);
  }

  // The even bits of the address, gathered.
  lemma FieldC1(address: nat, i: nat)
    requires i < 5
    ensures BitAt(AddressOf(address).c1, i) == BitAt(address, 2 * i)
  {
    var z := Five(BitAt(address, 0), BitAt(address, 2), BitAt(address, 4), BitAt(address, 6), BitAt(address, 8));
    EvenBits(address);
    NumberOfSymbols(z);
    HostToAirInverts(z.Symbols());
    assert HostToAir(z.Number(), 5)[i] == z.Symbols()[i];
  }

  lemma GatherNone(address: nat)
    ensures Gather(address, []) == 0
  {
  }

  lemma EvenBits(address: nat)
    ensures Gather(address, [8, 6, 4, 2, 0])
            == Five(BitAt(address, 0), BitAt(address, 2), BitAt(address, 4), BitAt(address, 6), BitAt(address, 8)).Number()
  {
    hide BitAt, Gather;
    GatherNone(address);
    GatherFirst(address, 8, [6, 4, 2, 0]);
    GatherFirst(address, 6, [4, 2, 0]);
    GatherFirst(address, 4, [2, 0]);
    GatherFirst(address, 2, [0]);
    GatherFirst(address, 0, []);
    assert [8] + [6, 4, 2, 0] == [8, 6, 4, 2, 0] && [6] + [4, 2, 0] == [6, 4, 2, 0] && [4] + [2, 0] == [4, 2, 0];
    assert [2] + [0] == [2, 0] && [0] + [] == [0];
    assert Pow2(2) == 4 && Pow2(4) == 16;
  }

  lemma LowOddBits(address: nat)
    ensures Gather(address, [5, 3, 1])
            == (if BitAt(address, 1) then 1 else 0) + (if BitAt(address, 3) then 2 else 0) + if BitAt(address, 5) then 4 else 0
  {
    hide BitAt, Gather;
    GatherNone(address);
    GatherFirst(address, 5, [3, 1]);
    GatherFirst(address, 3, [1]);
    GatherFirst(address, 1, []);
    assert [5] + [3, 1] == [5, 3, 1] && [3] + [1] == [3, 1] && [1] + [] == [1];
    assert Pow2(2) == 4;
  }

  lemma MiddleOddBits(address: nat)
    ensures Gather(address, [9, 7, 5, 3, 1])
            == Gather(address, [5, 3, 1]) + (if BitAt(address, 7) then 8 else 0) + if BitAt(address, 9) then 16 else 0
  {
    hide BitAt, Gather;
    GatherFirst(address, 9, [7, 5, 3, 1]);
    GatherFirst(address, 7, [5, 3, 1]);
    assert [9] + [7, 5, 3, 1] == [9, 7, 5, 3, 1] && [7] + [5, 3, 1] == [7, 5, 3, 1];
    assert Pow2(4) == 16;
  }

  // The odd bits of the address, gathered.
  lemma OddBitsGathered(address: nat)
    ensures Gather(address, [13, 11, 9, 7, 5, 3, 1]) == InputE(address)
  {
    hide BitAt, Gather;
    LowOddBits(address);
    MiddleOddBits(address);
    GatherFirst(address, 13, [11, 9, 7, 5, 3, 1]);
    GatherFirst(address, 11, [9, 7, 5, 3, 1]);
    assert [13] + [11, 9, 7, 5, 3, 1] == [13, 11, 9, 7, 5, 3, 1] && [11] + [9, 7, 5, 3, 1] == [11, 9, 7, 5, 3, 1];
    assert Pow2(4) == 16 && Pow2(6) == 64;
  }

  // Exclusive or, bit by bit.
  lemma XorBit(a: nat, b: nat, n: nat, i: nat)
    requires i < n
    ensures BitAt(Xor(a, b, n), i) == (BitAt(a, i) != BitAt(b, i))
  {
    var bits := XorBits(HostToAir(a, n), HostToAir(b, n));
    HostToAirInverts(bits);
    assert HostToAir(AirToHost(bits), n)[i] == bits[i];
  }

  // A five-bit number is that of its bits.
  lemma NumberOfLow(value: nat)
    requires value < 32
    ensures Low(value).Number() == value && Low(value).Symbols() == HostToAir(value, 5)
  {
    hide BitAt;
    Powers();
    assert Low(value).Symbols() == HostToAir(value, 5);
    NumberOfSymbols(Low(value));
    AirToHostInverts(value, 5);
  }

  lemma InputAIs(address: nat, clock: nat)
    ensures Xor(AddressOf(address).a1, clock / 2097152, 5) == InputA(address, clock).Number()
  {
    hide Xor, BitAt, Five.Number, Gather;
    Powers();
    var a1, a := AddressOf(address).a1, Xor(AddressOf(address).a1, clock / 2097152, 5);
    forall i: nat | i < 5
      ensures BitAt(a, i) == (BitAt(address, 23 + i) != BitAt(clock, 21 + i))
    {
      XorBit(a1, clock / 2097152, 5, i);
      FieldA1(address, i);
      ClockA(clock, i);
    }
    NumberOfLow(a);
    assert Low(a) == InputA(address, clock);
  }

  lemma ControlsAre(address: nat, clock: nat)
    ensures var c, d := Xor(AddressOf(address).c1, clock / 65536, 5), Xor(AddressOf(address).d1, clock / 128, 9);
            Control(Xor(clock / 2 % 2 * 0x1f, c, 5), d) == ControlBits(address, clock)
  {
    hide Xor, BitAt, Gather, AddressOf;
    var c, d := Xor(AddressOf(address).c1, clock / 65536, 5), Xor(AddressOf(address).d1, clock / 128, 9);
    var y1 := clock / 2 % 2;
    forall i: nat | i < 9
      ensures BitAt(d, i) == ControlBit(address, clock, i)
    {
      ControlD(address, clock, i);
    }
    forall i: nat | i < 5
      ensures BitAt(Xor(y1 * 0x1f, c, 5), i) == ControlBit(address, clock, 9 + i)
    {
      ControlC(address, clock, i);
    }
    assert Control(Xor(y1 * 0x1f, c, 5), d) == ControlBits(address, clock);
  }

  lemma ControlD(address: nat, clock: nat, i: nat)
    requires i < 9
    ensures BitAt(Xor(AddressOf(address).d1, clock / 128, 9), i) == ControlBit(address, clock, i)
  {
    hide Xor, BitAt, Gather;
    XorBit(AddressOf(address).d1, clock / 128, 9, i);
    FieldD1(address, i);
    ClockD(clock, i);
  }

  lemma ControlC(address: nat, clock: nat, i: nat)
    requires i < 5
    ensures BitAt(Xor(clock / 2 % 2 * 0x1f, Xor(AddressOf(address).c1, clock / 65536, 5), 5), i) == ControlBit(address, clock, 9 + i)
  {
    hide Xor, BitAt, Gather, AddressOf;
    var c := Xor(AddressOf(address).c1, clock / 65536, 5);
    XorBit(clock / 2 % 2 * 0x1f, c, 5, i);
    XorBit(AddressOf(address).c1, clock / 65536, 5, i);
    FieldC1(address, i);
    ClockC(clock, i);
    AllOnes(clock / 2 % 2, i);
  }

  lemma AllOnes(y1: nat, i: nat)
    requires y1 < 2 && i < 5
    ensures BitAt(y1 * 0x1f, i) == (y1 == 1)
  {
    if y1 == 0 {
      ZeroBits(i);
    } else {
      match i
      case 0 | 1 | 2 => assert BitAt(31, 0) && BitAt(31, 1) && BitAt(31, 2);
      case _ => assert BitAt(31, 3) && BitAt(31, 4) by { assert BitAt(7, 1) && BitAt(7, 2); }
    }
  }

  lemma PermInIs(address: nat, clock: nat)
    ensures var a := Xor(AddressOf(address).a1, clock / 2097152, 5);
            HostToAir(PermIn(AddressOf(address), a, clock / 4 % 32), 5) == PermutedBits(address, clock).Symbols()
  {
    hide Xor, BitAt, Gather, InputA;
    Powers();
    var a := Xor(AddressOf(address).a1, clock / 2097152, 5);
    var sum := (clock / 4 % 32 + a) % 32;
    InputAIs(address, clock);
    var b := address / 524288 % 16;
    forall i: nat | i < 5
      ensures BitAt(Xor(sum, b, 5), i) == (BitAt(sum, i) != (i < 4 && BitAt(address, 19 + i)))
    {
      XorBit(sum, b, 5, i);
      if i < 4 {
        FieldB(address, i);
      } else {
        TopOfFour(b);
      }
    }
  }

  lemma TopOfFour(b: nat)
    requires b < 16
    ensures !BitAt(b, 4)
  {
    assert BitAt(b, 4) == BitAt(b / 2, 3) == BitAt(b / 2 / 2, 2) == BitAt(b / 2 / 2 / 2, 1) == BitAt(b / 2 / 2 / 2 / 2, 0);
  }

  // The number that leaves the permutation in the kernel.
  lemma PermIsPermuted(address: nat, clock: nat)
    ensures var (a, c) := (Xor(AddressOf(address).a1, clock / 2097152, 5), Xor(AddressOf(address).c1, clock / 65536, 5));
            var d := Xor(AddressOf(address).d1, clock / 128, 9);
            Perm(PermIn(AddressOf(address), a, clock / 4 % 32), Xor(clock / 2 % 2 * 0x1f, c, 5), d) == Permuted(address, clock)
  {
    hide Xor, BitAt, Gather, AddressOf, PermIn, PermutedBits, ControlBits, Control, Butterflies, HostToAir, Exchanged, Five.Symbols;
    PermInIs(address, clock);
    ControlsAre(address, clock);
    var z, p := PermutedBits(address, clock), ControlBits(address, clock);
    ButterfliesExchange(z, p, 0);
    NumberOfSymbols(Exchanged(z, p, 0));
  }

  // With all channels in use the kernel selects the channel of the specification, for every address
  // and every clock.
  lemma KernelSelects(k: Kernel, address: nat, clock: nat)
    requires k.Valid() && !k.afh && FullBank(k.bank) && k.address == AddressOf(address)
    ensures SingleHop(k, clock) == Selected(address, clock)
  {
    hide Xor, BitAt, Gather, Perm, PermIn, Permuted, InputE;
    PermIsPermuted(address, clock);
    OddBitsGathered(address);
  }

  // With adaptive hopping it takes the channel at the place of the specification.
  lemma AdaptiveKernelSelects(k: Kernel, address: nat, clock: nat)
    requires k.Valid() && k.afh && k.address == AddressOf(address)
    ensures SelectedPlace(address, clock, k.used) < k.used && SingleHop(k, clock) == k.bank[SelectedPlace(address, clock, k.used)]
  {
    hide Xor, BitAt, Gather, Perm, PermIn, Permuted, InputE, Mod;
    PermIsPermuted(address, clock);
    OddBitsGathered(address);
    ModIsRemainder(16 * (clock / 128 % 2097152), k.used);
    ModIsRemainder(Permuted(address, clock) + InputE(address) + 16 * (clock / 128 % 2097152) % k.used + 32 * (clock / 2 % 2), k.used);
  }

  // The table takes the frequency offset modulo 79 first.
  lemma AdaptiveTableSelects(k: Kernel, address: nat, clock: nat)
    requires k.Valid() && k.afh && k.address == AddressOf(address) && clock < 2 * SEQUENCE_LENGTH
    ensures var place := (Permuted(address, clock) + InputE(address) + 16 * (clock / 128) % 79 % k.used + 32 * (clock / 2 % 2)) % k.used;
            place < k.used && TableHop(k, clock / 2) == k.bank[place]
  {
    hide Xor, BitAt, Gather, Perm, PermIn, PermAt, Permuted, InputE, Mod;
    var n, x, y1 := clock / 128, clock / 4 % 32, clock / 2 % 2;
    PermIsPermuted(address, clock);
    OddBitsGathered(address);
    ClockHigh(clock);
    PermRefines(k.address, n, x, y1);
    TableHopFields(k, clock, n, x, y1);
    ModIsRemainder(16 * n % 79, k.used);
    ModIsRemainder(Permuted(address, clock) + InputE(address) + 16 * n % 79 % k.used + 32 * y1, k.used);
  }

  // ---------- hops in numbers ----------

  // The first two hops of address 0, and one for an address of which only input B is not zero.
  lemma SampleHops()
    ensures SingleHop(PlainKernel(0), 0x10) == 8 && SingleHop(PlainKernel(0), 0x12) == 66
    ensures SingleHop(PlainKernel(0x80000), 0) == 2
  {
    hide SingleHop, Selected, AddressOf;
    KernelSelects(PlainKernel(0), 0, 0x10);
    KernelSelects(PlainKernel(0), 0, 0x12);
    KernelSelects(PlainKernel(0x80000), 0x80000, 0);
    FirstHop();
    SecondHop();
    HopWithInputB();
  }

  lemma {:induction false} NothingExchanged(z: Five, p: seq<bool>, n: nat)
    requires |p| == 14 && n <= 14 && forall i :: 0 <= i < 14 ==> !p[i]
    ensures Exchanged(z, p, n) == z
    decreases 14 - n
  {
    if n < 14 {
      NothingExchanged(z, p, n + 1);
    }
  }

  lemma ZeroAndOne()
    ensures forall i: nat :: !BitAt(0, i)
    ensures forall i: nat :: BitAt(1, i) == (i == 0)
  {
    forall i: nat
      ensures !BitAt(0, i) && BitAt(1, i) == (i == 0)
    {
      ZeroBits(i);
      if i > 0 {
        ZeroBits(i - 1);
      }
    }
  }

  lemma BitsOfSmallClock(clock: nat, i: nat)
    requires clock < 128 && i >= 7
    ensures !BitAt(clock, i)
  {
    Powers();
    ZeroBits(i - 7);
    HighBits(clock, 0, 7, i - 7);
  }

  // With address 0 and a clock below 128 only inputs X and Y1 are not zero.
  lemma ZeroAddress(clock: nat)
    requires clock < 128
    ensures PermutedBits(0, clock) == Low(clock / 4) && InputE(0) == 0
    ensures forall i :: 0 <= i < 14 ==> ControlBits(0, clock)[i] == (i >= 9 && clock / 2 % 2 == 1)
  {
    hide BitAt;
    ZeroAndOne();
    forall i: nat | i >= 7
      ensures !BitAt(clock, i)
    {
      BitsOfSmallClock(clock, i);
    }
    assert InputA(0, clock) == Five(false, false, false, false, false);
    forall i: nat | i < 14
      ensures ControlBit(0, clock, i) == (i >= 9 && clock / 2 % 2 == 1)
    {
    }
  }

  lemma LowOfFour()
    ensures Low(4) == Five(false, false, true, false, false)
  {
  }

  lemma FirstHop()
    ensures Selected(0, 0x10) == 8
  {
    hide Exchanged, BitAt, Low, PermutedBits, InputE, ControlBits;
    ZeroAddress(0x10);
    LowOfFour();
    NothingExchanged(Low(4), ControlBits(0, 0x10), 0);
    assert Permuted(0, 0x10) == 4;
  }

  // All bits of input C are complemented.
  lemma SecondHop()
    ensures Selected(0, 0x12) == 66
  {
    hide Exchanged, BitAt, Low, PermutedBits, InputE, ControlBits;
    ZeroAddress(0x12);
    LowOfFour();
    SecondHopExchanges(ControlBits(0, 0x12));
    assert Permuted(0, 0x12) == 1;
  }

  lemma SecondHopExchanges(p: seq<bool>)
    requires |p| == 14 && forall i :: 0 <= i < 14 ==> p[i] == (i >= 9)
    ensures Exchanged(Five(false, false, true, false, false), p, 0) == Five(true, false, false, false, false)
  {
    var z := Five(false, false, true, false, false);
    assert Exchanged(z, p, 13) == Five(false, true, false, false, false);
    assert Exchanged(z, p, 12) == Five(false, true, false, false, false);
    assert Exchanged(z, p, 11) == Five(false, false, false, true, false);
    assert Exchanged(z, p, 10) == Five(false, false, false, true, false);
    assert Exchanged(z, p, 9) == Five(true, false, false, false, false);
    assert Exchanged(z, p, 8) == Five(true, false, false, false, false);
    assert Exchanged(z, p, 7) == Five(true, false, false, false, false);
    assert Exchanged(z, p, 6) == Five(true, false, false, false, false);
    assert Exchanged(z, p, 5) == Five(true, false, false, false, false);
    assert Exchanged(z, p, 4) == Five(true, false, false, false, false);
    assert Exchanged(z, p, 3) == Five(true, false, false, false, false);
    assert Exchanged(z, p, 2) == Five(true, false, false, false, false);
    assert Exchanged(z, p, 1) == Five(true, false, false, false, false);
  }

  lemma HopWithInputB()
    ensures Selected(0x80000, 0) == 2
  {
    hide Exchanged, BitAt;
    ZeroAndOne();
    forall i: nat | i < 28
      ensures BitAt(0x80000, i) == (i == 19)
    {
      BitOfB(i);
    }
    var z := Five(true, false, false, false, false);
    assert InputA(0x80000, 0) == Five(false, false, false, false, false);
    assert PermutedBits(0x80000, 0) == z && InputE(0x80000) == 0;
    NothingExchanged(z, ControlBits(0x80000, 0), 0);
  }

  lemma BitOfB(i: nat)
    requires i < 28
    ensures BitAt(0x80000, i) == (i == 19)
  {
    hide BitAt;
    Powers();
    ZeroAndOne();
    if i < 19 {
      LowBits(0, 1, 19, i);
    } else {
      HighBits(0, 1, 19, i - 19);
    }
  }
}
