/** What a CAN-FD data frame in base format takes on the wire (ISO 11898-1:2015, MAC frame formats and frame coding),
    against the estimate of toolbusd/src/traffic_control.cpp:81-106. */
module FdFrames {
  import opened FixedWidth
  import opened NonlinearFacts
  import opened Results
  import opened BitStuffing
  import opened Traffic

  // ---------------------------------------------------------------- the fields of a frame

  /** Start of frame, identifier, RRS, IDE, FDF, res and BRS, at the arbitration rate. */
  const ARBITRATION_BITS: nat := 1 + 11 + 1 + 1 + 1 + 1 + 1

  /** ESI and the data length code. */
  const CONTROL_BITS: nat := 1 + 4

  /** CRC delimiter, the acknowledge slot at its longest, acknowledge delimiter, end of frame and intermission. */
  const TAIL_BITS: nat := 1 + 2 + 1 + 7 + 3

  /** The bits that are stuffed as they come: from the start of frame to the end of the payload. */
  function StuffedBits(wireLength: nat): nat {
    ARBITRATION_BITS + CONTROL_BITS + 8 * wireLength
  }

  /** Stuff count, CRC and a fixed stuff bit before every four of them. */
  function CrcFieldBits(wireLength: nat): nat {
    if wireLength <= 16 then 4 + 17 + 6 else 4 + 21 + 7
  }

  /** Stuff bits inserted before the data rate begins, and after. */
  function EarlyStuffing(bits: seq<bool>): int
    requires |bits| >= ARBITRATION_BITS
  {
    StuffBits(Quiet, bits[..ARBITRATION_BITS])
  }

  function LateStuffing(bits: seq<bool>): int
    requires |bits| >= ARBITRATION_BITS
  {
    StuffBits(Quiet, bits) - EarlyStuffing(bits)
  }

  function NominalBits(bits: seq<bool>): int
    requires |bits| >= ARBITRATION_BITS
  {
    ARBITRATION_BITS + EarlyStuffing(bits) + TAIL_BITS
  }

  function DataBits(wireLength: nat, bits: seq<bool>): int
    requires |bits| == StuffedBits(wireLength)
  {
    CONTROL_BITS + 8 * wireLength + LateStuffing(bits) + CrcFieldBits(wireLength)
  }

  /** So many bits at the two rates take no longer than the estimate, in nanoseconds times both rates. */
  predicate InTime(cost: Cost, nominal: int, data: int, arbitrationRate: u32, rate: u32) {
    NANOSECONDS_PER_SECOND * (nominal * rate + data * arbitrationRate) <= cost.wireTime * (arbitrationRate * rate)
  }

  // ---------------------------------------------------------------- how much stuffing

  function LineAfter(line: Line, bits: seq<bool>): Line
    decreases bits
  {
    if bits == [] then line
    else
      var sent := Emit(line, bits[0]);
      LineAfter(if sent.run >= 5 then Emit(sent, !bits[0]) else sent, bits[1..])
  }

  lemma {:induction false} StuffingAdds(line: Line, a: seq<bool>, b: seq<bool>)
    ensures StuffBits(line, a + b) == StuffBits(line, a) + StuffBits(LineAfter(line, a), b)
    decreases |a|
  {
    if a == [] {
      assert a + b == b;
    } else {
      assert (a + b)[1..] == a[1..] + b;
      var sent := Emit(line, a[0]);
      StuffingAdds(if sent.run >= 5 then Emit(sent, !a[0]) else sent, a[1..], b);
    }
  }

  lemma {:induction false} RunStaysShort(line: Line, bits: seq<bool>)
    requires RunOf(line) < 5
    ensures RunOf(LineAfter(line, bits)) < 5
    decreases |bits|
  {
    if bits != [] {
      var sent := Emit(line, bits[0]);
      RunStaysShort(if sent.run >= 5 then Emit(sent, !bits[0]) else sent, bits[1..]);
    }
  }

  /** At most four stuff bits before the data rate, two a payload byte and two more after it, and two a payload byte and
      five more in all. */
  lemma StuffingLimits(wireLength: nat, bits: seq<bool>)
    requires |bits| == StuffedBits(wireLength)
    ensures 0 <= EarlyStuffing(bits) <= 4 && 0 <= LateStuffing(bits) <= 2 * wireLength + 2
    ensures EarlyStuffing(bits) + LateStuffing(bits) <= 2 * wireLength + 5
  {
    var early, late := bits[..ARBITRATION_BITS], bits[ARBITRATION_BITS..];
    assert bits == early + late;
    StuffingAdds(Quiet, early, late);
    RunStaysShort(Quiet, early);
    StuffingBound(early);
    StuffingBound(bits);
    StuffingPaidFor(LineAfter(Quiet, early), late);
  }

  // ---------------------------------------------------------------- the worst frames

  /** A run that starts with the given bit, and is stuffed as often as can be. */
  function Worst(bit: bool, n: nat): (bits: seq<bool>)
    requires n > 0
    ensures |bits| == n
  {
    [bit] + WorstRest(bit, n - 1)
  }

  lemma WorstStuffs(line: Line, bit: bool, n: nat)
    requires n > 0 && Emit(line, bit) == Sent(bit, 1)
    ensures StuffBits(line, Worst(bit, n)) == (n - 1) / 4
  {
    assert Worst(bit, n)[1..] == WorstRest(bit, n - 1);
    WorstRestStuffs(bit, n - 1);
  }

  lemma {:induction false} WorstRestPrefix(bit: bool, n: nat, k: nat)
    requires k <= n
    ensures WorstRest(bit, n)[..k] == WorstRest(bit, k)
    decreases n
  {
    if n >= 4 && k >= 4 {
      WorstRestPrefix(!bit, n - 4, k - 4);
      assert WorstRest(bit, n)[..k] == [bit, bit, bit, bit] + WorstRest(!bit, n - 4)[..k - 4];
    }
  }

  /** Stuffed as early as can be: four stuff bits before the data rate, and in all as many as there can be. */
  function EarlyWorst(wireLength: nat): (bits: seq<bool>)
    ensures |bits| == StuffedBits(wireLength)
  {
    Worst(false, StuffedBits(wireLength))
  }

  /** One bit later, so that a run of four is pending when the data rate begins. */
  function LateWorst(wireLength: nat): (bits: seq<bool>)
    ensures |bits| == StuffedBits(wireLength)
  {
    [true] + Worst(false, StuffedBits(wireLength) - 1)
  }

  lemma EarlyWorstStuffs(wireLength: nat)
    ensures EarlyStuffing(EarlyWorst(wireLength)) == 4 && LateStuffing(EarlyWorst(wireLength)) == 2 * wireLength + 1
  {
    var n := StuffedBits(wireLength);
    WorstRestPrefix(false, n - 1, ARBITRATION_BITS - 1);
    assert EarlyWorst(wireLength)[..ARBITRATION_BITS] == Worst(false, ARBITRATION_BITS);
    WorstStuffs(Quiet, false, ARBITRATION_BITS);
    WorstStuffs(Quiet, false, n);
  }

  lemma LateWorstStuffs(wireLength: nat)
    ensures EarlyStuffing(LateWorst(wireLength)) == 3 && LateStuffing(LateWorst(wireLength)) == 2 * wireLength + 2
  {
    var n := StuffedBits(wireLength) - 1;
    WorstRestPrefix(false, n - 1, ARBITRATION_BITS - 2);
    assert LateWorst(wireLength)[..ARBITRATION_BITS] == [true] + Worst(false, ARBITRATION_BITS - 1);
    AfterOneBit(ARBITRATION_BITS - 1);
    AfterOneBit(n);
  }

  lemma AfterOneBit(n: nat)
    requires n > 0
    ensures StuffBits(Quiet, [true] + Worst(false, n)) == (n - 1) / 4
  {
    assert ([true] + Worst(false, n))[1..] == Worst(false, n);
    WorstStuffs(Sent(true, 1), false, n);
  }

  // ---------------------------------------------------------------- the estimate

  /** The estimate holds for the two worst frames of a payload length: eight nominal bits to spare against seven data
      bits too few, and nine against eight. */
  predicate WorstInTime(cost: Cost, arbitrationRate: u32, rate: u32) {
    InTime(cost, FD_NOMINAL_BITS - 8, cost.dataBits + 7, arbitrationRate, rate) &&
    InTime(cost, FD_NOMINAL_BITS - 9, cost.dataBits + 8, arbitrationRate, rate)
  }

  /** Every frame of that length takes no longer than the estimate. */
  ghost predicate AllInTime(cost: Cost, wireLength: nat, arbitrationRate: u32, rate: u32) {
    forall bits: seq<bool> | |bits| == StuffedBits(wireLength) ::
      InTime(cost, NominalBits(bits), DataBits(wireLength, bits), arbitrationRate, rate)
  }

  lemma EstimatedBits(wireLength: nat)
    ensures FdDataBits(wireLength) == CONTROL_BITS + 8 * wireLength + CrcFieldBits(wireLength) + 2 * wireLength - 6
  {
  }

  lemma FewerBitsInTime(cost: Cost, nominal: int, data: int, moreNominal: int, moreData: int, arbitrationRate: u32, rate: u32)
    requires nominal <= moreNominal && data <= moreData && InTime(cost, moreNominal, moreData, arbitrationRate, rate)
    ensures InTime(cost, nominal, data, arbitrationRate, rate)
  {
    MulMonotone(rate, 0, moreNominal - nominal);
    MulMonotone(arbitrationRate, 0, moreData - data);
    assert moreNominal * rate == nominal * rate + (moreNominal - nominal) * rate;
    assert moreData * arbitrationRate == data * arbitrationRate + (moreData - data) * arbitrationRate;
  }

  lemma AllAsTheWorst(cost: Cost, n: nat, arbitrationRate: u32, rate: u32)
    requires cost.dataBits == FdDataBits(n)
    ensures AllInTime(cost, n, arbitrationRate, rate) <==> WorstInTime(cost, arbitrationRate, rate)
  {
    if AllInTime(cost, n, arbitrationRate, rate) {
      AllCoverWorst(cost, n, arbitrationRate, rate);
    }
    if WorstInTime(cost, arbitrationRate, rate) {
      forall bits: seq<bool> | |bits| == StuffedBits(n)
        ensures InTime(cost, NominalBits(bits), DataBits(n, bits), arbitrationRate, rate)
      {
        WorstIsWorst(cost, n, bits, arbitrationRate, rate);
      }
    }
  }

  lemma AllCoverWorst(cost: Cost, n: nat, arbitrationRate: u32, rate: u32)
    requires cost.dataBits == FdDataBits(n) && AllInTime(cost, n, arbitrationRate, rate)
    ensures WorstInTime(cost, arbitrationRate, rate)
  {
    WorstFramesBits(n, cost);
    assert InTime(cost, NominalBits(EarlyWorst(n)), DataBits(n, EarlyWorst(n)), arbitrationRate, rate);
    assert InTime(cost, NominalBits(LateWorst(n)), DataBits(n, LateWorst(n)), arbitrationRate, rate);
  }

  /** The CAN-FD estimate covers every base-format frame of a payload length if and only if it covers two: what a caller
      can check from the rates alone. */
  lemma FdFrameCoveredExactly(payload: nat, arbitrationRate: u32, dataRate: u32, rateSwitch: bool)
    requires payload <= 64 && arbitrationRate > 0 && dataRate > 0
    ensures var cost := FrameCost(CanFd, payload, arbitrationRate, dataRate, rateSwitch);
            var rate := if rateSwitch then dataRate else arbitrationRate;
            cost.Ok? && payload <= cost.value.wireLength &&
            (AllInTime(cost.value, cost.value.wireLength, arbitrationRate, rate) <==>
               WorstInTime(cost.value, arbitrationRate, rate))
  {
    var cost := FrameCost(CanFd, payload, arbitrationRate, dataRate, rateSwitch).value;
    AllAsTheWorst(cost, cost.wireLength, arbitrationRate, if rateSwitch then dataRate else arbitrationRate);
  }

  lemma WorstIsWorst(cost: Cost, n: nat, bits: seq<bool>, arbitrationRate: u32, rate: u32)
    requires |bits| == StuffedBits(n) && cost.dataBits == FdDataBits(n) && WorstInTime(cost, arbitrationRate, rate)
    ensures InTime(cost, NominalBits(bits), DataBits(n, bits), arbitrationRate, rate)
  {
    EstimatedBits(n);
    StuffingLimits(n, bits);
    if EarlyStuffing(bits) == 4 {
      FewerBitsInTime(cost, NominalBits(bits), DataBits(n, bits), FD_NOMINAL_BITS - 8, cost.dataBits + 7,
                      arbitrationRate, rate);
    } else {
      FewerBitsInTime(cost, NominalBits(bits), DataBits(n, bits), FD_NOMINAL_BITS - 9, cost.dataBits + 8,
                      arbitrationRate, rate);
    }
  }

  lemma WorstFramesBits(n: nat, cost: Cost)
    requires cost.dataBits == FdDataBits(n)
    ensures NominalBits(EarlyWorst(n)) == FD_NOMINAL_BITS - 8 && DataBits(n, EarlyWorst(n)) == cost.dataBits + 7
    ensures NominalBits(LateWorst(n)) == FD_NOMINAL_BITS - 9 && DataBits(n, LateWorst(n)) == cost.dataBits + 8
  {
    EstimatedBits(n);
    EarlyWorstStuffs(n);
    LateWorstStuffs(n);
  }

  /** With a data rate that is not below the arbitration rate the estimate covers every base-format frame. */
  lemma FdFrameCovered(payload: nat, arbitrationRate: u32, dataRate: u32, rateSwitch: bool)
    requires payload <= 64 && 0 < arbitrationRate <= dataRate
    ensures var cost := FrameCost(CanFd, payload, arbitrationRate, dataRate, rateSwitch);
            var rate := if rateSwitch then dataRate else arbitrationRate;
            cost.Ok? && AllInTime(cost.value, cost.value.wireLength, arbitrationRate, rate)
  {
    var cost := FrameCost(CanFd, payload, arbitrationRate, dataRate, rateSwitch).value;
    var rate := if rateSwitch then dataRate else arbitrationRate;
    FdFrameCoveredExactly(payload, arbitrationRate, dataRate, rateSwitch);
    EstimateInTime(cost, arbitrationRate, rate);
    TradedBitsInTime(cost, 8, 7, arbitrationRate, rate);
    TradedBitsInTime(cost, 9, 8, arbitrationRate, rate);
  }

  /** The estimated bits themselves are in time. */
  lemma EstimateInTime(cost: Cost, arbitrationRate: u32, rate: u32)
    requires arbitrationRate > 0 && rate > 0
    requires cost.wireTime == Nanoseconds(FD_NOMINAL_BITS, arbitrationRate) + Nanoseconds(cost.dataBits, rate)
    ensures InTime(cost, FD_NOMINAL_BITS, cost.dataBits, arbitrationRate, rate)
  {
    var a, d := Nanoseconds(FD_NOMINAL_BITS, arbitrationRate), Nanoseconds(cost.dataBits, rate);
    RoundUpCovers(FD_NOMINAL_BITS * NANOSECONDS_PER_SECOND, arbitrationRate);
    RoundUpCovers(cost.dataBits * NANOSECONDS_PER_SECOND, rate);
    MulMonotone(rate, FD_NOMINAL_BITS * NANOSECONDS_PER_SECOND, a * arbitrationRate);
    MulMonotone(arbitrationRate, cost.dataBits * NANOSECONDS_PER_SECOND, d * rate);
    assert (a + d) * (arbitrationRate * rate) == rate * (a * arbitrationRate) + arbitrationRate * (d * rate);
    assert NANOSECONDS_PER_SECOND * (FD_NOMINAL_BITS * rate + cost.dataBits * arbitrationRate) ==
           rate * (FD_NOMINAL_BITS * NANOSECONDS_PER_SECOND) + arbitrationRate * (cost.dataBits * NANOSECONDS_PER_SECOND);
  }

  /** Data bits that stand in for more nominal bits save time when the data rate is no lower. */
  lemma TradedBitsInTime(cost: Cost, spared: nat, lacking: nat, arbitrationRate: u32, rate: u32)
    requires lacking <= spared && arbitrationRate <= rate
    requires InTime(cost, FD_NOMINAL_BITS, cost.dataBits, arbitrationRate, rate)
    ensures InTime(cost, FD_NOMINAL_BITS - spared, cost.dataBits + lacking, arbitrationRate, rate)
  {
    MulMonotone(arbitrationRate, lacking, spared);
    MulMonotone(spared, arbitrationRate, rate);
    assert (FD_NOMINAL_BITS - spared) * rate + (cost.dataBits + lacking) * arbitrationRate ==
           FD_NOMINAL_BITS * rate + cost.dataBits * arbitrationRate - spared * rate + lacking * arbitrationRate;
  }

  /** The configuration may ask for a lower data rate, and then the estimate can be too low: half of it, and no
      payload. */
  lemma SlowDataRateFallsShort()
    ensures var cost := FrameCost(CanFd, 0, 1000000, 500000, true);
            cost.Ok? && !AllInTime(cost.value, cost.value.wireLength, 1000000, 500000)
  {
    FdFrameCoveredExactly(0, 1000000, 500000, true);
  }
}
