/** The header error check: running it forwards to send, and backwards to find the UAP. */
module HeaderCheck {
  import opened Bits

  // ---------- forwards: section 7.1.1 of the baseband specification ----------

  // One step of the register for D^8 + D^7 + D^5 + D^2 + D + 1: the low bit plus the data bit is
  // fed back, after a shift to the right, at bits 0, 2, 5, 6 and 7.
  ghost function HecStep(reg: seq<bool>, data: bool): (next: seq<bool>)
    requires |reg| == 8
    ensures |next| == 8
  {
    var feedback := reg[0] != data;
    [reg[1] != feedback, reg[2], reg[3] != feedback, reg[4], reg[5], reg[6] != feedback, reg[7] != feedback, feedback]
  }

  ghost function HecUpto(reg: seq<bool>, data: seq<bool>, n: nat): (next: seq<bool>)
    requires |reg| == 8 && n <= |data|
    ensures |next| == 8
  {
    if n == 0 then reg else HecStep(HecUpto(reg, data, n - 1), data[n - 1])
  }

  // The check sent with ten header bits in a piconet with the given UAP.
  ghost function Hec(data: seq<bool>, uap: nat): (hec: seq<bool>)
    requires |data| == 10
    ensures |hec| == 8
  {
    HecUpto(Reverse(HostToAir(uap, 8)), data, 10)
  }

  // ---------- backwards: uap_from_hec ----------

  // 0x65 is added when the top bit is one; then the register shifts left.
  function UapStep(hec: seq<bool>, data: bool): (next: seq<bool>)
    requires |hec| == 8
    ensures |next| == 8
  {
    var top := hec[7];
    [top != data, hec[0] != top, hec[1], hec[2] != top, hec[3], hec[4], hec[5] != top, hec[6] != top]
  }

  // The bits of 0x65, least significant first.
  function Bits65(): (bits: seq<bool>)
    ensures |bits| == 8
  {
    [true, false, true, false, false, true, true, false]
  }

  lemma UapStepIsShift(hec: seq<bool>, data: bool)
    requires |hec| == 8
    ensures UapStep(hec, data) ==
            var added := if hec[7] then XorBits(hec, Bits65()) else hec;
            [added[7] != data] + added[..7]
  {
  }

  // The register when the loop has used the data bits from 9 down to n.
  function UapDownto(hec: seq<bool>, data: seq<bool>, n: nat): (next: seq<bool>)
    requires |hec| == 8 && n <= |data|
    ensures |next| == 8
    decreases |data| - n
  {
    if n == |data| then hec else UapStep(UapDownto(hec, data, n + 1), data[n])
  }

  function UapOf(data: seq<bool>, hec: seq<bool>): (uap: nat)
    requires |data| == 10 && |hec| == 8
    ensures uap < 256
  {
    var register := UapDownto(hec, data, 0);
    AirToHostBound(Reverse(register));
    assert Pow2(8) == 256;
    AirToHost(Reverse(register))
  }

  method UapFromHec(data: seq<bool>, hec: seq<bool>) returns (uap: nat)
    requires |data| == 10 && |hec| == 8
    ensures uap == UapOf(data, hec)
  {
    var register := hec;
    for i := 10 downto 0
      invariant |register| == 8 && register == UapDownto(hec, data, i)
    {
      UapStepIsShift(register, data[i]);
      if register[7] {
        register := XorBits(register, Bits65());
      }
      register := [register[7] != data[i]] + register[..7];
    }
    uap := AirToHost(Reverse(register));
  }

  // ---------- the two directions are inverse to each other ----------

  lemma StepsInvert(reg: seq<bool>, data: bool)
    requires |reg| == 8
    ensures UapStep(HecStep(reg, data), data) == reg
    ensures HecStep(UapStep(reg, data), data) == reg
  {
  }

  lemma {:induction false} BackwardsInvertsForwards(reg: seq<bool>, data: seq<bool>, n: nat)
    requires |reg| == 8 && n <= |data|
    ensures UapDownto(HecUpto(reg, data, |data|), data, n) == HecUpto(reg, data, n)
    decreases |data| - n
  {
    if n < |data| {
      BackwardsInvertsForwards(reg, data, n + 1);
      StepsInvert(HecUpto(reg, data, n), data[n]);
    }
  }

  lemma {:induction false} ForwardsInvertsBackwards(hec: seq<bool>, data: seq<bool>, n: nat)
    requires |hec| == 8 && n <= |data|
    ensures HecUpto(UapDownto(hec, data, 0), data, n) == UapDownto(hec, data, n)
  {
    if n > 0 {
      ForwardsInvertsBackwards(hec, data, n - 1);
      StepsInvert(UapDownto(hec, data, n), data[n - 1]);
    }
  }

  // The decoder finds a UAP exactly when the received check is the one sent under that UAP.  So for
  // given header bits every check belongs to one UAP, and different UAPs give different checks.
  lemma UapOfExact(data: seq<bool>, hec: seq<bool>, uap: nat)
    requires |data| == 10 && |hec| == 8 && uap < 256
    ensures UapOf(data, hec) == uap <==> hec == Hec(data, uap)
  {
    var bits := HostToAir(uap, 8);
    assert Pow2(8) == 256;
    AirToHostInverts(uap, 8);
    ReverseTwice(bits);
    BackwardsInvertsForwards(Reverse(bits), data, 0);
    if UapOf(data, hec) == uap {
      var register := UapDownto(hec, data, 0);
      HostToAirInverts(Reverse(register));
      ReverseTwice(register);
      ForwardsInvertsBackwards(hec, data, 10);
    }
  }
}
