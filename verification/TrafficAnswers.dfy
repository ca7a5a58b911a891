/** What admission answers to each packet and what it leaves behind, on the balances themselves
    (toolbusd/src/traffic_control.cpp:197-275). */
module TrafficAnswers {
  import opened FixedWidth
  import opened NonlinearFacts
  import opened Results
  import opened Traffic

  // ---------------------------------------------------------------- refilling

  /** Every bucket gains its rate for the time that has passed, up to its capacity; time does not go back. */
  lemma RefillExactly(s: State, now: int)
    ensures var next := Refill(s, now);
            var elapsed := if now > s.lastRefill then now - s.lastRefill else 0;
            && next.lastRefill == s.lastRefill + elapsed && next.counters == s.counters
            && |next.classes| == |s.classes|
            && Gains(s.global, next.global, elapsed)
            && forall i | 0 <= i < |s.classes| :: Gains(s.classes[i], next.classes[i], elapsed)
  {
  }

  /** Balances are in thousandths of a nanosecond and rates in permille: a nanosecond adds the rate. */
  ghost predicate Gains(before: Bucket, after: Bucket, elapsed: nat) {
    && after.capacity == before.capacity && after.refill == before.refill
    && (elapsed == 0 ==> after == before)
    && (elapsed > 0 ==>
          (before.available + elapsed * before.refill <= before.capacity ==>
             after.available == before.available + elapsed * before.refill) &&
          (before.available + elapsed * before.refill > before.capacity ==> after.available == before.capacity))
  }

  /** Every bucket holds what it can earn in the burst window, on the whole bus and in each class. */
  ghost predicate Configured(c: Config, s: State) {
    ValidConfig(c) && Inv(s) && Holds(c, s.global, c.maximumUtilization) &&
    forall i | 0 <= i < CLASS_COUNT :: Holds(c, s.classes[i], c.classLimits[i])
  }

  ghost predicate Holds(c: Config, b: Bucket, permille: u16) {
    b.refill == permille && b.capacity == c.burstWindowMs * 1_000_000 * permille
  }

  lemma StartsConfigured(c: Config, now: int)
    requires ValidConfig(c)
    ensures Configured(c, Initial(c, now))
    ensures Initial(c, now).lastRefill == now && Initial(c, now).global.available == Initial(c, now).global.capacity
    ensures forall i | 0 <= i < CLASS_COUNT ::
              Initial(c, now).classes[i].available == Initial(c, now).classes[i].capacity &&
              Initial(c, now).counters.classes[i] == ClassCounters(0, 0, 0, 0)
    ensures var n := Initial(c, now).counters;
            n.admitted == 0 && n.rejected == 0 && n.overruns == 0 && n.frames == 0 && n.wireTime == 0
  {
    assert forall permille: u16 :: c.burstWindowMs * NANOSECONDS_PER_MILLISECOND * permille >= 0;
  }

  lemma AdmitKeepsConfigured(c: Config, s: State, r: Request)
    requires Configured(c, s)
    ensures Configured(c, AdmitRequest(c, s, r).0)
  {
    AdmitKeepsInv(c, s, r.k, r.lengths, r.policy, r.now);
    RefillGains(s, r.now);
  }

  lemma WindowFills(c: Config, b: Bucket, permille: u16, elapsed: nat)
    requires Holds(c, b, permille) && ValidBucket(b) && c.burstWindowMs > 0
    requires elapsed >= c.burstWindowMs * 1_000_000
    ensures RefillBucket(b, elapsed).available == b.capacity
  {
    MulMonotone(permille, c.burstWindowMs * 1_000_000, elapsed);
  }

  /** An idle burst window fills every bucket, so that any packet that fits the capacities is admitted after it. */
  lemma IdleWindowAdmits(c: Config, s: State, r: Request)
    requires Configured(c, s) && r.k < CLASS_COUNT && WireTime(c, r.lengths).Ok?
    requires r.now >= s.lastRefill + c.burstWindowMs * 1_000_000
    requires 1000 * WireTime(c, r.lengths).value <= s.global.capacity
    requires 1000 * WireTime(c, r.lengths).value <= s.classes[r.k].capacity
    ensures AdmitRequest(c, s, r).1 == Ok(true)
  {
    var elapsed := r.now - s.lastRefill;
    WindowFills(c, s.global, c.maximumUtilization, elapsed);
    WindowFills(c, s.classes[r.k], c.classLimits[r.k], elapsed);
  }

  // ---------------------------------------------------------------- admission

  /** A packet takes its wire time out of the bus and its class, down to nothing; no other class pays. */
  ghost predicate Paid(full: State, next: State, k: nat, wireTime: nat) {
    && k < |full.classes| == |next.classes| && next.lastRefill == full.lastRefill
    && Takes(full.global, next.global, 1000 * wireTime)
    && Takes(full.classes[k], next.classes[k], 1000 * wireTime)
    && forall i | 0 <= i < |full.classes| && i != k :: next.classes[i] == full.classes[i]
  }

  ghost predicate Takes(before: Bucket, after: Bucket, cost: nat) {
    && after.capacity == before.capacity && after.refill == before.refill
    && (cost <= before.available ==> after.available == before.available - cost)
    && (cost > before.available ==> after.available == 0)
  }

  /** What the packet adds to the counters, in all and for its class. */
  ghost predicate Counted(n: Counters, next: Counters, k: nat, admitted: nat, rejected: nat, overruns: nat, frames: nat,
                          wireTime: nat)
  {
    && next.admitted == n.admitted + admitted && next.rejected == n.rejected + rejected
    && next.overruns == n.overruns + overruns && next.frames == n.frames + frames
    && next.wireTime == n.wireTime + wireTime
    && k < |n.classes| == |next.classes|
    && next.classes[k] == ClassCounters(n.classes[k].admitted + admitted, n.classes[k].rejected + rejected,
                                        n.classes[k].frames + frames, n.classes[k].wireTime + wireTime)
    && forall i | 0 <= i < |n.classes| && i != k :: next.classes[i] == n.classes[i]
  }

  /** Every answer to a packet: one of a class that does not exist is refused outright; one whose cost cannot be told, on
      the refilled controller; any other is admitted if and only if it is guaranteed or both balances cover its wire time. */
  lemma AdmitExactly(c: Config, s: State, k: nat, lengths: seq<nat>, policy: Policy, now: int)
    requires WellFormed(s)
    ensures var (next, r) := Admit(c, s, k, lengths, policy, now);
            var full := Refill(s, now);
            if k >= CLASS_COUNT then next == s && r == Err(InvalidConfiguration)
            else
              match WireTime(c, lengths)
              case Err(error) => next == full && r == Err(error)
              case Ok(wireTime) =>
                var covered := 1000 * wireTime <= full.global.available && 1000 * wireTime <= full.classes[k].available;
                if policy.Guaranteed? || covered then
                  r == Ok(true) && Paid(full, next, k, wireTime) &&
                  Counted(s.counters, next.counters, k, 1, 0, if covered then 0 else 1, |lengths|, wireTime)
                else
                  r == Ok(false) && next == full.(counters := next.counters) &&
                  Counted(s.counters, next.counters, k, 0, 1, 0, 0, 0)
  {
  }

  // ---------------------------------------------------------------- the cost

  /** The lengths that a CAN-FD frame can have. */
  const LEGAL: set<nat> := {0, 1, 2, 3, 4, 5, 6, 7, 8, 12, 16, 20, 24, 32, 48, 64}

  lemma CanonicalIsLeast(length: nat)
    ensures var wire := CanonicalFdLength(length);
            && (wire.Some? <==> exists n :: n in LEGAL && length <= n)
            && (wire.Some? ==> length <= wire.value && wire.value in LEGAL &&
                               forall n | n in LEGAL && length <= n :: wire.value <= n)
  {
    if length <= 64 {
      assert 64 in LEGAL;
    }
  }

  /** A base frame: start bit, identifier, three control flags, length, payload and CRC are subject to stuffing; the
      delimiters, the acknowledgement, the end of the frame and the pause after it are not. */
  lemma ClassicalFields(payload: nat)
    ensures ClassicalStuffedBits(payload) == 1 + 11 + 3 + 4 + 8 * payload + 15
    ensures ClassicalBits(payload) ==
              ClassicalStuffedBits(payload) + (ClassicalStuffedBits(payload) - 1) / 4 + (1 + 1 + 1 + 7 + 3)
  {
  }

  /** The least whole number of nanoseconds in which so many bits fit at the rate. */
  ghost predicate Rounded(time: int, bits: nat, rate: nat) {
    time * rate >= bits * 1_000_000_000 > (time - 1) * rate
  }

  lemma NanosecondsExactly(bits: nat, rate: nat)
    requires rate > 0
    ensures Rounded(Nanoseconds(bits, rate), bits, rate)
  {
    var time := Nanoseconds(bits, rate);
    RoundUpCovers(bits * NANOSECONDS_PER_SECOND, rate);
    assert (time - 1) * rate == time * rate - rate;
  }

  /** A frame has a cost unless a rate is zero or the frame is too long for the bus: its bits before the data rate and
      within it, each in whole nanoseconds. */
  lemma FrameCostExactly(mode: BusMode, payload: nat, arbitrationRate: u32, dataRate: u32, rateSwitch: bool)
    ensures var cost := FrameCost(mode, payload, arbitrationRate, dataRate, rateSwitch);
            if arbitrationRate == 0 || dataRate == 0 then cost == Err(InvalidConfiguration)
            else if payload > (if mode.Classical? then 8 else 64) then cost == Err(InvalidFrameLength)
            else cost.Ok? && CostOk(cost.value, mode, payload, arbitrationRate, if rateSwitch then dataRate else arbitrationRate)
  {
    if arbitrationRate > 0 && dataRate > 0 {
      var cost := FrameCost(mode, payload, arbitrationRate, dataRate, rateSwitch);
      if cost.Ok? {
        var rate := if rateSwitch then dataRate else arbitrationRate;
        NanosecondsExactly(cost.value.nominalBits, arbitrationRate);
        NanosecondsExactly(cost.value.dataBits, rate);
      }
    }
  }

  ghost predicate CostOk(cost: Cost, mode: BusMode, payload: nat, arbitrationRate: u32, rate: u32) {
    if mode.Classical? then
      cost.wireLength == payload && cost.dataBits == 0 && Rounded(cost.wireTime, cost.nominalBits, arbitrationRate)
    else
      CanonicalFdLength(payload) == Some(cost.wireLength) &&
      exists nominal: nat, data: nat ::
        nominal + data == cost.wireTime && Rounded(nominal, cost.nominalBits, arbitrationRate) &&
        Rounded(data, cost.dataBits, rate)
  }

  function FrameTime(c: Config, payload: nat): Result<u64, TrafficError> {
    var cost := FrameCost(c.mode, payload, c.arbitrationRate, c.dataRate, true);
    if cost.Ok? then Ok(cost.value.wireTime) else Err(cost.error)
  }

  predicate AllCosted(c: Config, lengths: seq<nat>) {
    forall i | 0 <= i < |lengths| :: FrameTime(c, lengths[i]).Ok?
  }

  function Summed(c: Config, lengths: seq<nat>): nat
    requires AllCosted(c, lengths)
  {
    if lengths == [] then 0 else FrameTime(c, lengths[0]).value + Summed(c, lengths[1..])
  }

  lemma {:induction false} SummedAppends(c: Config, lengths: seq<nat>, last: nat)
    requires AllCosted(c, lengths) && FrameTime(c, last).Ok?
    ensures AllCosted(c, lengths + [last])
    ensures Summed(c, lengths + [last]) == Summed(c, lengths) + FrameTime(c, last).value
  {
    if lengths == [] {
      assert lengths + [last] == [last];
    } else {
      assert (lengths + [last])[1..] == lengths[1..] + [last];
      SummedAppends(c, lengths[1..], last);
    }
  }

  /** The wire time of a packet is the sum over its frames; there is none if a frame has no cost or the sum leaves 64 bits. */
  lemma {:induction false} WireTimeExactly(c: Config, lengths: seq<nat>)
    ensures var r := WireTime(c, lengths);
            && (r.Ok? <==> AllCosted(c, lengths) && Summed(c, lengths) <= U64_MAX)
            && (r.Ok? ==> r.value == Summed(c, lengths))
            && (r.Err? ==> r.error == if c.arbitrationRate == 0 || c.dataRate == 0 then InvalidConfiguration
                                      else InvalidFrameLength)
  {
    if lengths != [] {
      var front, last := lengths[..|lengths| - 1], lengths[|lengths| - 1];
      assert lengths == front + [last];
      WireTimeExactly(c, front);
      FrameCostExactly(c.mode, last, c.arbitrationRate, c.dataRate, true);
      assert AllCosted(c, lengths) <==> AllCosted(c, front) && FrameTime(c, last).Ok? by {
        assert lengths[|front|] == last;
        assert forall i | 0 <= i < |front| :: lengths[i] == front[i];
      }
      if AllCosted(c, lengths) {
        SummedAppends(c, front, last);
      }
    }
  }
}
