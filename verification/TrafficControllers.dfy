/** The admission controller of toolbusd/src/traffic_control.cpp as the class it is. */
module TrafficControllers {
  import opened FixedWidth
  import opened Results
  import opened Traffic

  class TrafficController {
    const config: Config
    var lastRefill: int
    var global: Bucket
    var classes: seq<Bucket>
    var counters: Counters

    ghost function View(): State
      reads this
    {
      State(lastRefill, global, classes, counters)
    }

    ghost predicate Valid()
      reads this
    {
      ValidConfig(config) && Inv(View())
    }

    constructor (config: Config, now: int)
      requires ValidConfig(config)
      ensures Valid() && View() == Initial(config, now) && this.config == config
    {
      this.config := config;
      lastRefill := now;
      global := Full(config, config.maximumUtilization);
      classes := seq(CLASS_COUNT, i requires 0 <= i < CLASS_COUNT => Full(config, config.classLimits[i]));
      counters := Counters(0, 0, 0, 0, 0, seq(CLASS_COUNT, _ => ClassCounters(0, 0, 0, 0)));
      new;
      assert forall permille: u16 :: config.burstWindowMs * NANOSECONDS_PER_MILLISECOND * permille >= 0;
    }

    /** refill */
    method RefillBuckets(now: int)
      requires Valid()
      modifies this
      ensures Valid() && View() == Refill(old(View()), now)
    {
      RefillKeepsInv(View(), now);
      if now <= lastRefill {
        return;
      }
      var elapsed := now - lastRefill;
      ghost var before := classes;
      global := global.(available := Min(global.capacity, global.available + elapsed * global.refill));
      var i := 0;
      while i < |classes|
        invariant 0 <= i <= |classes| == |before|
        invariant global == RefillBucket(old(global), elapsed) && lastRefill == old(lastRefill)
        invariant counters == old(counters)
        invariant forall j | 0 <= j < i :: classes[j] == RefillBucket(before[j], elapsed)
        invariant forall j | i <= j < |classes| :: classes[j] == before[j]
      {
        var b := classes[i];
        classes := classes[i := b.(available := Min(b.capacity, b.available + elapsed * b.refill))];
        i := i + 1;
      }
      assert classes == RefillAll(before, elapsed);
      lastRefill := now;
    }

    /** The sum over a packet's frames, with its overflow check. */
    method SumWireTime(lengths: seq<nat>) returns (r: Result<u64, TrafficError>)
      ensures r == WireTime(config, lengths)
    {
      var sum: u64 := 0;
      var i := 0;
      while i < |lengths|
        invariant 0 <= i <= |lengths| && WireTime(config, lengths[..i]) == Ok(sum)
      {
        assert lengths[..i + 1][..i] == lengths[..i];
        var cost := FrameCost(config.mode, lengths[i], config.arbitrationRate, config.dataRate, true);
        if cost.Err? || sum > U64_MAX - cost.value.wireTime {
          var error := if cost.Err? then cost.error else InvalidFrameLength;
          ErrorStays(config, lengths, i + 1, error);
          return Err(error);
        }
        sum := sum + cost.value.wireTime;
        i := i + 1;
      }
      assert lengths[..|lengths|] == lengths;
      r := Ok(sum);
    }

    method ChargePacket(k: nat, wireTime: u64, frames: nat, policy: Policy) returns (admitted: bool)
      requires WellFormed(View()) && k < CLASS_COUNT
      modifies this
      ensures WellFormed(old(View()))
      ensures (View(), admitted) == Charge(old(View()), k, wireTime, frames, policy)
    {
      var cost := 1000 * wireTime;
      var available := global.available >= cost && classes[k].available >= cost;
      if !available && policy.Enforce? {
        counters := CountRejected(counters, k);
        return false;
      }
      global := global.(available := Max(0, global.available - cost));
      classes := classes[k := classes[k].(available := Max(0, classes[k].available - cost))];
      counters := CountAdmitted(counters, k, !available, frames, wireTime);
      admitted := true;
    }

    method AdmitPacket(k: nat, lengths: seq<nat>, policy: Policy, now: int) returns (r: Result<bool, TrafficError>)
      requires Valid()
      modifies this
      ensures Valid() && (View(), r) == Admit(config, old(View()), k, lengths, policy, now)
    {
      AdmitKeepsInv(config, View(), k, lengths, policy, now);
      if k >= CLASS_COUNT {
        return Err(InvalidConfiguration);
      }
      RefillBuckets(now);
      var wireTime := SumWireTime(lengths);
      if wireTime.Err? {
        return Err(wireTime.error);
      }
      var admitted := ChargePacket(k, wireTime.value, |lengths|, policy);
      r := Ok(admitted);
    }

    /** snapshot: the balance it reports is in whole nanoseconds. */
    method Snapshot(now: int) returns (snapshot: Counters, globalAvailable: nat)
      requires Valid()
      modifies this
      ensures Valid() && View() == Refill(old(View()), now) && snapshot == counters
      ensures 1000 * globalAvailable <= global.available < 1000 * (globalAvailable + 1)
    {
      RefillBuckets(now);
      snapshot := counters;
      globalAvailable := global.available / 1000;
    }
  }

  /** The C++ constructor, which refuses an invalid configuration. */
  method CreateController(config: Config, now: int) returns (r: Result<TrafficController, TrafficError>)
    ensures r.Ok? <==> ValidConfig(config)
    ensures r.Err? ==> r.error == InvalidConfiguration
    ensures r.Ok? ==> fresh(r.value) && r.value.Valid() && r.value.config == config && r.value.View() == Initial(config, now)
  {
    if !ValidConfig(config) {
      return Err(InvalidConfiguration);
    }
    var controller := new TrafficController(config, now);
    r := Ok(controller);
  }

  lemma {:induction false} ErrorStays(c: Config, lengths: seq<nat>, n: nat, error: TrafficError)
    requires n <= |lengths| && WireTime(c, lengths[..n]) == Err(error)
    ensures WireTime(c, lengths) == Err(error)
    decreases |lengths| - n
  {
    if n == |lengths| {
      assert lengths[..n] == lengths;
    } else {
      assert lengths[..n + 1][..n] == lengths[..n];
      ErrorStays(c, lengths, n + 1, error);
    }
  }
}
