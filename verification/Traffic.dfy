/** CAN admission control (toolbusd/src/traffic_control.cpp): the cost of a frame and the token buckets. Balances are
    kept in thousandths of a nanosecond, so that the source's permille refills are exact. */
module Traffic {
  import opened FixedWidth
  import opened NonlinearFacts
  import opened Results
  import BitStuffing

  const CLASS_COUNT: nat := 6
  const NANOSECONDS_PER_SECOND: nat := 1_000_000_000
  const NANOSECONDS_PER_MILLISECOND: nat := 1_000_000

  datatype BusMode = Classical | CanFd

  datatype TrafficError = InvalidConfiguration | InvalidFrameLength

  datatype Config = Config(
    mode: BusMode, arbitrationRate: u32, dataRate: u32, maximumUtilization: u16, burstWindowMs: int,
    classLimits: seq<u16>)

  datatype Cost = Cost(nominalBits: u16, dataBits: u16, wireTime: u64, wireLength: u8)

  datatype Bucket = Bucket(available: int, capacity: int, refill: u16)

  datatype ClassCounters = ClassCounters(admitted: nat, rejected: nat, frames: nat, wireTime: nat)

  datatype Counters = Counters(
    admitted: nat, rejected: nat, overruns: nat, frames: nat, wireTime: nat, classes: seq<ClassCounters>)

  datatype State = State(lastRefill: int, global: Bucket, classes: seq<Bucket>, counters: Counters)

  datatype Policy = Enforce | Guaranteed

  // ---------------------------------------------------------------- the cost of a frame

  function DivideRoundUp(n: nat, d: nat): nat
    requires d > 0
  {
    n / d + (if n % d != 0 then 1 else 0)
  }

  lemma RoundUpCovers(n: nat, d: nat)
    requires d > 0
    ensures n <= DivideRoundUp(n, d) * d < n + d
    ensures DivideRoundUp(n, d) <= n
  {
    DivMod(n, d);
    assert (n / d + 1) * d == (n / d) * d + d;
    if n % d == 0 {
      MulMonotone(n / d, 1, d);
    } else {
      MulMonotone(n / d, 1, d);
    }
  }

  function CanonicalFdLength(length: nat): Option<nat> {
    if length <= 8 then Some(length)
    else if length <= 12 then Some(12)
    else if length <= 16 then Some(16)
    else if length <= 20 then Some(20)
    else if length <= 24 then Some(24)
    else if length <= 32 then Some(32)
    else if length <= 48 then Some(48)
    else if length <= 64 then Some(64)
    else None
  }

  /** The stuffed part of a classical frame: start of frame to the CRC sequence. */
  function ClassicalStuffedBits(payload: nat): nat {
    34 + 8 * payload
  }

  function ClassicalBits(payload: nat): nat {
    47 + 8 * payload + (ClassicalStuffedBits(payload) - 1) / 4
  }

  /** Payload and CRC of a CAN-FD frame before stuffing. */
  function FdRawBits(wireLength: nat): nat {
    8 * wireLength + if wireLength <= 16 then 17 else 21
  }

  function FdDataBits(wireLength: nat): nat {
    FdRawBits(wireLength) + DivideRoundUp(FdRawBits(wireLength), 4) + 4
  }

  const FD_NOMINAL_BITS: nat := 43

  function Nanoseconds(bits: nat, rate: nat): nat
    requires rate > 0
  {
    DivideRoundUp(bits * NANOSECONDS_PER_SECOND, rate)
  }

  lemma CostFits(bits: nat, rate: nat)
    requires bits <= 1000 && rate > 0
    ensures Nanoseconds(bits, rate) <= 1000 * NANOSECONDS_PER_SECOND
  {
    RoundUpCovers(bits * NANOSECONDS_PER_SECOND, rate);
  }

  function FrameCost(mode: BusMode, payload: nat, arbitrationRate: u32, dataRate: u32, rateSwitch: bool):
      Result<Cost, TrafficError>
  {
    if arbitrationRate == 0 || dataRate == 0 then Err(InvalidConfiguration)
    else if mode.Classical? then
      if payload > 8 then Err(InvalidFrameLength)
      else
        CostFits(ClassicalBits(payload), arbitrationRate);
        Ok(Cost(ClassicalBits(payload), 0, Nanoseconds(ClassicalBits(payload), arbitrationRate), payload))
    else
      var wire := CanonicalFdLength(payload);
      if wire.None? then Err(InvalidFrameLength)
      else
        var rate := if rateSwitch then dataRate else arbitrationRate;
        CostFits(FD_NOMINAL_BITS, arbitrationRate);
        CostFits(FdDataBits(wire.value), rate);
        Ok(Cost(FD_NOMINAL_BITS, FdDataBits(wire.value),
                Nanoseconds(FD_NOMINAL_BITS, arbitrationRate) + Nanoseconds(FdDataBits(wire.value), rate), wire.value))
  }

  /** The classical estimate covers the frame whatever its bits are. */
  lemma ClassicalCostCovers(payload: nat, arbitrationRate: u32, dataRate: u32, bits: seq<bool>)
    requires payload <= 8 && arbitrationRate > 0 && dataRate > 0 && |bits| == ClassicalStuffedBits(payload)
    ensures var cost := FrameCost(Classical, payload, arbitrationRate, dataRate, true);
            cost.Ok? &&
            47 + 8 * payload + BitStuffing.StuffBits(BitStuffing.Quiet, bits) <= cost.value.nominalBits &&
            cost.value.nominalBits * NANOSECONDS_PER_SECOND <= cost.value.wireTime * arbitrationRate
  {
    BitStuffing.StuffingBound(bits);
    RoundUpCovers(ClassicalBits(payload) * NANOSECONDS_PER_SECOND, arbitrationRate);
  }

  /** And it is no more than some frame of that length needs. */
  lemma ClassicalCostIsReached(payload: nat, arbitrationRate: u32, dataRate: u32)
    requires payload <= 8 && arbitrationRate > 0 && dataRate > 0
    ensures var cost := FrameCost(Classical, payload, arbitrationRate, dataRate, true);
            cost.Ok? && exists bits: seq<bool> ::
              |bits| == ClassicalStuffedBits(payload) &&
              47 + 8 * payload + BitStuffing.StuffBits(BitStuffing.Quiet, bits) == cost.value.nominalBits
  {
    BitStuffing.StuffingBoundIsTight(ClassicalStuffedBits(payload));
  }

  /** The CAN-FD estimate: payload and CRC with every stuff bit they can need, and four bits to spare. */
  lemma FdCostCovers(payload: nat, arbitrationRate: u32, dataRate: u32, bits: seq<bool>)
    requires payload <= 64 && arbitrationRate > 0 && dataRate > 0
    requires |bits| == FdRawBits(CanonicalFdLength(payload).value)
    ensures var cost := FrameCost(CanFd, payload, arbitrationRate, dataRate, true);
            cost.Ok? && payload <= cost.value.wireLength &&
            |BitStuffing.Stuff(BitStuffing.Quiet, bits)| + 4 <= cost.value.dataBits &&
            cost.value.dataBits * NANOSECONDS_PER_SECOND <=
              (cost.value.wireTime - Nanoseconds(FD_NOMINAL_BITS, arbitrationRate)) * dataRate
  {
    var wire := CanonicalFdLength(payload).value;
    BitStuffing.StuffingBound(bits);
    RoundUpCovers(FdDataBits(wire) * NANOSECONDS_PER_SECOND, dataRate);
  }

  // ---------------------------------------------------------------- the buckets

  predicate ValidConfig(c: Config) {
    c.arbitrationRate > 0 && c.dataRate > 0 && 0 < c.maximumUtilization <= 1000 && c.burstWindowMs > 0 &&
    |c.classLimits| == CLASS_COUNT && forall i | 0 <= i < CLASS_COUNT :: 0 < c.classLimits[i] <= 1000
  }

  function Full(c: Config, permille: u16): Bucket {
    var capacity := c.burstWindowMs * NANOSECONDS_PER_MILLISECOND * permille;
    Bucket(capacity, capacity, permille)
  }

  function Initial(c: Config, now: int): State
    requires |c.classLimits| == CLASS_COUNT
  {
    State(now, Full(c, c.maximumUtilization),
          seq(CLASS_COUNT, i requires 0 <= i < CLASS_COUNT => Full(c, c.classLimits[i])),
          Counters(0, 0, 0, 0, 0, seq(CLASS_COUNT, _ => ClassCounters(0, 0, 0, 0))))
  }

  function RefillBucket(b: Bucket, elapsed: nat): Bucket {
    b.(available := Min(b.capacity, b.available + elapsed * b.refill))
  }

  function RefillAll(buckets: seq<Bucket>, elapsed: nat): (refilled: seq<Bucket>)
    ensures |refilled| == |buckets|
  {
    seq(|buckets|, i requires 0 <= i < |buckets| => RefillBucket(buckets[i], elapsed))
  }

  function Refill(s: State, now: int): State {
    if now <= s.lastRefill then s
    else
      s.(lastRefill := now, global := RefillBucket(s.global, now - s.lastRefill),
         classes := RefillAll(s.classes, now - s.lastRefill))
  }

  function Spend(b: Bucket, wireTime: nat): Bucket {
    b.(available := Max(0, b.available - 1000 * wireTime))
  }

  /** The summed cost of a packet's frames. */
  function WireTime(c: Config, lengths: seq<nat>): Result<u64, TrafficError> {
    if lengths == [] then Ok(0)
    else
      var front := WireTime(c, lengths[..|lengths| - 1]);
      if front.Err? then front
      else
        var cost := FrameCost(c.mode, lengths[|lengths| - 1], c.arbitrationRate, c.dataRate, true);
        if cost.Err? then Err(cost.error)
        else if front.value > U64_MAX - cost.value.wireTime then Err(InvalidFrameLength)
        else Ok(front.value + cost.value.wireTime)
  }

  predicate Fits(s: State, k: nat, wireTime: nat)
    requires k < |s.classes|
  {
    s.global.available >= 1000 * wireTime && s.classes[k].available >= 1000 * wireTime
  }

  function CountRejected(n: Counters, k: nat): Counters
    requires k < |n.classes|
  {
    n.(rejected := n.rejected + 1, classes := n.classes[k := n.classes[k].(rejected := n.classes[k].rejected + 1)])
  }

  function CountAdmitted(n: Counters, k: nat, overrun: bool, frames: nat, wireTime: nat): Counters
    requires k < |n.classes|
  {
    var m := n.classes[k];
    n.(overruns := n.overruns + (if overrun then 1 else 0), admitted := n.admitted + 1, frames := n.frames + frames,
       wireTime := n.wireTime + wireTime,
       classes := n.classes[k := m.(admitted := m.admitted + 1, frames := m.frames + frames,
                                    wireTime := m.wireTime + wireTime)])
  }

  ghost predicate WellFormed(s: State) {
    |s.classes| == CLASS_COUNT && |s.counters.classes| == CLASS_COUNT
  }

  /** The decision on a refilled controller. */
  function Charge(full: State, k: nat, wireTime: nat, frames: nat, policy: Policy): (State, bool)
    requires WellFormed(full) && k < CLASS_COUNT
  {
    if !Fits(full, k, wireTime) && policy.Enforce? then
      (full.(counters := CountRejected(full.counters, k)), false)
    else
      (full.(global := Spend(full.global, wireTime),
             classes := full.classes[k := Spend(full.classes[k], wireTime)],
             counters := CountAdmitted(full.counters, k, !Fits(full, k, wireTime), frames, wireTime)),
       true)
  }

  function Admit(c: Config, s: State, k: nat, lengths: seq<nat>, policy: Policy, now: int):
      (State, Result<bool, TrafficError>)
    requires WellFormed(s)
  {
    if k >= CLASS_COUNT then (s, Err(InvalidConfiguration))
    else
      var full := Refill(s, now);
      var wireTime := WireTime(c, lengths);
      if wireTime.Err? then (full, Err(wireTime.error))
      else
        var (charged, admitted) := Charge(full, k, wireTime.value, |lengths|, policy);
        (charged, Ok(admitted))
  }

  // ---------------------------------------------------------------- refilling

  ghost predicate ValidBucket(b: Bucket) {
    0 <= b.available <= b.capacity
  }

  ghost predicate Inv(s: State) {
    WellFormed(s) && ValidBucket(s.global) && forall i | 0 <= i < CLASS_COUNT :: ValidBucket(s.classes[i])
  }

  lemma BucketRefillsOnce(b: Bucket, first: nat, second: nat)
    ensures RefillBucket(RefillBucket(b, first), second) == RefillBucket(b, first + second)
  {
    assert (first + second) * b.refill == first * b.refill + second * b.refill;
    assert second * b.refill >= 0;
  }

  /** Refilling in pieces is refilling once. */
  lemma RefillsAdd(s: State, first: int, second: int)
    ensures Refill(Refill(s, first), second) == Refill(s, Max(first, second))
  {
    if s.lastRefill < first < second {
      var d1, d2 := first - s.lastRefill, second - first;
      BucketRefillsOnce(s.global, d1, d2);
      forall i | 0 <= i < |s.classes|
        ensures RefillAll(RefillAll(s.classes, d1), d2)[i] == RefillAll(s.classes, d1 + d2)[i]
      {
        BucketRefillsOnce(s.classes[i], d1, d2);
      }
      assert RefillAll(RefillAll(s.classes, d1), d2) == RefillAll(s.classes, d1 + d2);
    }
  }

  lemma RefillKeepsInv(s: State, now: int)
    requires Inv(s)
    ensures Inv(Refill(s, now))
  {
    if now > s.lastRefill {
      var d := now - s.lastRefill;
      assert d * s.global.refill >= 0;
      forall i | 0 <= i < CLASS_COUNT
        ensures ValidBucket(RefillAll(s.classes, d)[i])
      {
        assert d * s.classes[i].refill >= 0;
      }
    }
  }

  lemma AdmitKeepsInv(c: Config, s: State, k: nat, lengths: seq<nat>, policy: Policy, now: int)
    requires Inv(s)
    ensures Inv(Admit(c, s, k, lengths, policy, now).0)
  {
    RefillKeepsInv(s, now);
  }

  /** A rejected packet changes no balance beyond the refill. */
  lemma RejectionLeavesBalances(c: Config, s: State, k: nat, lengths: seq<nat>, policy: Policy, now: int)
    requires WellFormed(s) && Admit(c, s, k, lengths, policy, now).1 == Ok(false)
    ensures var next := Admit(c, s, k, lengths, policy, now).0;
            next.(counters := s.counters) == Refill(s, now) && policy.Enforce?
  {
  }

  // ---------------------------------------------------------------- the bound over any interval

  datatype Request = Request(k: nat, lengths: seq<nat>, policy: Policy, now: int)

  function AdmitRequest(c: Config, s: State, r: Request): (State, Result<bool, TrafficError>)
    requires WellFormed(s)
  {
    Admit(c, s, r.k, r.lengths, r.policy, r.now)
  }

  /** A balance that the packet needs does not cover it. */
  predicate Short(s: State, k: nat, wireTime: nat)
    requires k < |s.classes|
  {
    s.global.available < 1000 * wireTime || s.classes[k].available < 1000 * wireTime
  }

  /** Wire time of a request that was admitted, unless it was guaranteed and its balances fell short. */
  function Budgeted(c: Config, s: State, r: Request): nat
    requires WellFormed(s)
  {
    var wireTime := WireTime(c, r.lengths);
    if AdmitRequest(c, s, r).1 != Ok(true) || wireTime.Err? || r.k >= CLASS_COUNT then 0
    else if r.policy.Guaranteed? && Short(Refill(s, r.now), r.k, wireTime.value) then 0
    else wireTime.value
  }

  function GlobalTotal(c: Config, s: State, requests: seq<Request>): nat
    requires WellFormed(s)
    decreases requests
  {
    if requests == [] then 0
    else Budgeted(c, s, requests[0]) + GlobalTotal(c, AdmitRequest(c, s, requests[0]).0, requests[1..])
  }

  function ClassTotal(c: Config, s: State, requests: seq<Request>, k: nat): nat
    requires WellFormed(s)
    decreases requests
  {
    if requests == [] then 0
    else
      (if requests[0].k == k then Budgeted(c, s, requests[0]) else 0) +
      ClassTotal(c, AdmitRequest(c, s, requests[0]).0, requests[1..], k)
  }

  function Final(c: Config, s: State, requests: seq<Request>): (final: State)
    requires WellFormed(s)
    ensures WellFormed(final)
    decreases requests
  {
    if requests == [] then s else Final(c, AdmitRequest(c, s, requests[0]).0, requests[1..])
  }

  lemma RefillGains(s: State, now: int)
    ensures var next := Refill(s, now);
            s.lastRefill <= next.lastRefill && |next.classes| == |s.classes| &&
            next.global.refill == s.global.refill && next.global.capacity == s.global.capacity &&
            next.global.available <= s.global.available + (next.lastRefill - s.lastRefill) * s.global.refill &&
            forall i | 0 <= i < |s.classes| ::
              next.classes[i].refill == s.classes[i].refill && next.classes[i].capacity == s.classes[i].capacity &&
              next.classes[i].available <=
                s.classes[i].available + (next.lastRefill - s.lastRefill) * s.classes[i].refill
  {
  }

  /** One request: what it spends within the budget comes out of the balance and the refill. */
  lemma RequestPaid(c: Config, s: State, r: Request, k: nat)
    requires Inv(s) && k < CLASS_COUNT
    ensures var next := AdmitRequest(c, s, r).0;
            var spent := Budgeted(c, s, r);
            s.lastRefill <= next.lastRefill &&
            next.global.refill == s.global.refill && next.classes[k].refill == s.classes[k].refill &&
            1000 * spent + next.global.available <=
              s.global.available + (next.lastRefill - s.lastRefill) * s.global.refill &&
            1000 * (if r.k == k then spent else 0) + next.classes[k].available <=
              s.classes[k].available + (next.lastRefill - s.lastRefill) * s.classes[k].refill
  {
    RefillGains(s, r.now);
    RefillKeepsInv(s, r.now);
  }

  lemma {:induction false} RequestsPaid(c: Config, s: State, requests: seq<Request>, k: nat)
    requires Inv(s) && k < CLASS_COUNT
    ensures var final := Final(c, s, requests);
            Inv(final) && s.lastRefill <= final.lastRefill &&
            1000 * GlobalTotal(c, s, requests) + final.global.available <=
              s.global.available + (final.lastRefill - s.lastRefill) * s.global.refill &&
            1000 * ClassTotal(c, s, requests, k) + final.classes[k].available <=
              s.classes[k].available + (final.lastRefill - s.lastRefill) * s.classes[k].refill
    decreases requests
  {
    if requests != [] {
      var next := AdmitRequest(c, s, requests[0]).0;
      RequestPaid(c, s, requests[0], k);
      AdmitKeepsInv(c, s, requests[0].k, requests[0].lengths, requests[0].policy, requests[0].now);
      RequestsPaid(c, next, requests[1..], k);
      var final := Final(c, s, requests);
      SplitProduct(s.lastRefill, next.lastRefill, final.lastRefill, s.global.refill);
      SplitProduct(s.lastRefill, next.lastRefill, final.lastRefill, s.classes[k].refill);
    }
  }

  lemma SplitProduct(a: int, b: int, c: int, rate: int)
    ensures (c - a) * rate == (b - a) * rate + (c - b) * rate
  {
  }

  /** Refilling before a request that comes no earlier changes nothing. */
  lemma RefillFirst(c: Config, s: State, r: Request)
    requires WellFormed(s) && r.k < CLASS_COUNT
    ensures AdmitRequest(c, Refill(s, r.now), r) == AdmitRequest(c, s, r)
    ensures Budgeted(c, Refill(s, r.now), r) == Budgeted(c, s, r)
  {
    RefillsAdd(s, r.now, r.now);
  }

  /** Over any interval, from the first request to the last, the packets that are answered with an admission, less the
      guaranteed ones that overran, take at most the capacity and the refill of the interval, on the bus as a whole and in
      each class. */
  lemma TokenBucketBound(c: Config, s: State, requests: seq<Request>, k: nat)
    requires Inv(s) && k < CLASS_COUNT && requests != [] && requests[0].k < CLASS_COUNT
    ensures var elapsed := Final(c, s, requests).lastRefill - Max(s.lastRefill, requests[0].now);
            elapsed >= 0 &&
            1000 * GlobalTotal(c, s, requests) <= s.global.capacity + elapsed * s.global.refill &&
            1000 * ClassTotal(c, s, requests, k) <= s.classes[k].capacity + elapsed * s.classes[k].refill
  {
    var r := requests[0];
    var start := Refill(s, r.now);
    RefillGains(s, r.now);
    RefillKeepsInv(s, r.now);
    RefillFirst(c, s, r);
    RequestsPaid(c, start, requests, k);
  }
}
