/** The division-free DDA refines exact interpolation, and admission makes its arithmetic fit in
    64 bits (firmware/src/motion.c:265-355). */
module FirmwareMotionDda {
  import opened FixedWidth
  import opened NonlinearFacts
  import opened FirmwareMotion
  import opened FirmwareMotionPasses
  import opened FirmwareMotionRing

  /** After a time t of a segment of length `duration`, an axis with `target` steps has spread the
      product target * t over whole emitted steps and the phase left over. */
  predicate OnTrack(a: Axis, target: nat, duration: nat, t: nat) {
    a.emitted * duration + a.phase == target * t && a.emitted <= target
  }

  /** Neither the product nor the sum of the phase update leaves 64 bits. */
  predicate ArithmeticFits(a: Axis, target: nat, delta: nat) {
    target * delta <= U64_MAX && a.phase + target * delta <= U64_MAX
  }

  /** The sums behind one phase update.  A full phase means that a step is still owed, so the bound on
      `emitted` in the source's emission guard follows from the other half of the guard. */
  lemma PhaseUpdate(emitted: nat, phase: nat, target: nat, duration: nat, t: nat, delta: nat)
    requires duration > 0 && t + delta <= duration
    requires emitted * duration + phase == target * t && emitted <= target
    ensures emitted * duration + phase + target * delta == target * (t + delta)
    ensures 0 <= target * delta <= target * duration
    ensures phase + target * delta <= target * duration
    ensures phase + target * delta >= duration ==> emitted < target
    ensures (emitted + 1) * duration == emitted * duration + duration
  {
    MulMonotone(target, t + delta, duration);
    MulMonotone(target, delta, duration);
    assert target * (t + delta) == target * t + target * delta;
    MulMonotone(duration, 0, emitted);
  }

  lemma StepAxisExact(a: Axis, target: u64, duration: u64, delta: u64, lowWorks: bool, highWorks: bool, t: nat)
    requires 0 < duration && target * duration <= U64_MAX && t + delta <= duration
    requires OnTrack(a, target, duration, t)
    ensures ArithmeticFits(a, target, delta)
    ensures a.phase + target * delta >= duration ==> a.emitted < target
    ensures var s := StepAxis(a, target, duration, delta, lowWorks, highWorks);
            && s.fault != Underrun
            && (s.fault == NoFault ==> OnTrack(s.axis, target, duration, t + delta))
            && (s.fault == NoFault && a.phase < duration && target * delta <= duration ==>
                  s.axis.phase < duration)
  {
    PhaseUpdate(a.emitted, a.phase, target, duration, t, delta);
    var increment := target * delta;
    assert Wrap64(increment) == increment;
    var s := StepAxis(a, target, duration, delta, lowWorks, highWorks);
    if s.fault == NoFault {
      assert s.axis.emitted == a.emitted ==> s.axis.phase == a.phase + increment;
      assert s.axis.emitted != a.emitted ==>
          s.axis.emitted == a.emitted + 1 && s.axis.phase == a.phase + increment - duration;
    }
  }

  /** In a running segment every axis is on track at the last tick, which `clock` names. */
  ghost predicate DdaInv(q: Queue, clock: u64) {
    q.mode == Running && |q.segments| > 0 ==>
      var s := q.segments[0];
      && |s.steps| == |q.axes|
      && s.start <= clock
      && q.lastTick == Min(clock, s.End())
      && forall i | 0 <= i < |q.axes| ::
           OnTrack(q.axes[i], AbsoluteSteps(s.steps[i]), s.duration, q.lastTick - s.start)
  }

  /** The tick serves the front segment: no fault, no limit, the segment has begun or begins now. */
  predicate Serves(q: Queue, io: Io, now: u64)
    requires Shaped(q)
  {
    && q.fault == NoFault
    && (io.hasLimits ==> CheckLimits(q.mode, io, |q.axes|, 0).Clear?)
    && |q.segments| > 0
    && (q.mode == Armed ==>
          now >= q.segments[0].start && BeginSegment(q, io, q.segments[0]).fault == NoFault)
  }

  /** The queue as the DDA loop of a serving tick finds it. */
  function AtDda(q: Queue, io: Io, now: u64): (r: Queue)
    requires Shaped(q) && Serves(q, io, now)
    ensures |r.axes| == |q.axes|
  {
    if q.mode == Armed then BeginSegment(q, io, q.segments[0]).queue else q
  }

  function DeltaAt(q: Queue, io: Io, now: u64): (delta: u64)
    requires Shaped(q) && Serves(q, io, now)
  {
    var tickTime := TickTime(q.segments[0], now);
    var last := AtDda(q, io, now).lastTick;
    if tickTime > last then tickTime - last else 0
  }

  function PassAt(q: Queue, io: Io, now: u64): Pass
    requires Shaped(q) && Serves(q, io, now)
  {
    RunAxes(AtDda(q, io, now).(lastTick := TickTime(q.segments[0], now)), io, q.segments[0],
            DeltaAt(q, io, now), 0)
  }

  lemma ServingTick(c: Config, q: Queue, io: Io, now: u64)
    requires RingInv(c, q)
    ensures Serves(q, io, now) ==>
              && AtDda(q, io, now).segments == q.segments
              && Tick(c, q, io, now) == RunTick(c, AtDda(q, io, now), io, q.segments[0], now)
    ensures !Serves(q, io, now) ==>
              var after := Tick(c, q, io, now).queue;
              after.mode != Running
  {
    if |q.segments| > 0 {
      BeginSegmentPointwise(q, io, q.segments[0]);
    }
  }

  /** A tick that leaves the segment running leaves the queue as the DDA loop made it. */
  lemma ServedRunning(c: Config, q: Queue, io: Io, now: u64)
    requires RingInv(c, q) && Serves(q, io, now)
    requires Tick(c, q, io, now).queue.mode == Running
    ensures PassAt(q, io, now).fault == NoFault
    ensures Tick(c, q, io, now).queue == PassAt(q, io, now).queue
  {
    ServingTick(c, q, io, now);
    var pass := PassAt(q, io, now);
    assert pass.fault == NoFault;
    assert Tick(c, q, io, now).queue == Finish(c, pass.queue, q.segments[0], now);
  }

  /** Where the time since the start of the front segment stood before the tick: at zero for a segment
      that begins now. */
  lemma AtDdaOnTrack(c: Config, q: Queue, io: Io, now: u64, clock: u64)
    requires RingInv(c, q) && DdaInv(q, clock) && clock <= now && Serves(q, io, now)
    ensures var s := q.segments[0]; var r := AtDda(q, io, now);
            && s.start <= r.lastTick <= TickTime(s, now) <= s.End()
            && DeltaAt(q, io, now) == TickTime(s, now) - r.lastTick
            && TickTime(s, now) == Min(now, s.End())
            && forall i | 0 <= i < |r.axes| ::
                 OnTrack(r.axes[i], AbsoluteSteps(s.steps[i]), s.duration, r.lastTick - s.start)
  {
    var s := q.segments[0];
    if q.mode == Armed {
      BeginSegmentPointwise(q, io, s);
    }
  }

  lemma AdmittedProduct(c: Config, s: Segment, i: nat)
    requires Admitted(c, s) && i < |s.steps|
    ensures AbsoluteSteps(s.steps[i]) * s.duration <= U64_MAX
  {
    var n := AbsoluteSteps(s.steps[i]);
    assert n != 0 ==> s.duration <= U64_MAX / n by {
      assert AxisFits(c, s.steps[i], s.duration);
    }
    if n != 0 {
      AtMostQuotient(s.duration, U64_MAX, n);
    }
  }

  /** Under a clock that does not run backwards, the phase update of every served axis fits in 64
      bits, a full phase implies an owed step, and the overflow branch is never taken. */
  lemma ServedArithmeticFits(c: Config, q: Queue, io: Io, now: u64, clock: u64)
    requires RingInv(c, q) && DdaInv(q, clock) && clock <= now && Serves(q, io, now)
    ensures var s := q.segments[0]; var r := AtDda(q, io, now); var delta := DeltaAt(q, io, now);
            forall i | 0 <= i < |r.axes| ::
              && ArithmeticFits(r.axes[i], AbsoluteSteps(s.steps[i]), delta)
              && (r.axes[i].phase + AbsoluteSteps(s.steps[i]) * delta >= s.duration ==>
                    r.axes[i].emitted < AbsoluteSteps(s.steps[i]))
    ensures PassAt(q, io, now).fault != Underrun
    ensures var s := q.segments[0]; var p := PassAt(q, io, now);
            p.fault == NoFault ==>
              forall i | 0 <= i < |p.queue.axes| ::
                OnTrack(p.queue.axes[i], AbsoluteSteps(s.steps[i]), s.duration, TickTime(s, now) - s.start)
  {
    var s := q.segments[0];
    var r := AtDda(q, io, now);
    var delta := DeltaAt(q, io, now);
    AtDdaOnTrack(c, q, io, now, clock);
    assert Admitted(c, s);
    var served := r.(lastTick := TickTime(s, now));
    forall i | 0 <= i < |r.axes|
      ensures ArithmeticFits(r.axes[i], AbsoluteSteps(s.steps[i]), delta)
      ensures r.axes[i].phase + AbsoluteSteps(s.steps[i]) * delta >= s.duration ==>
                r.axes[i].emitted < AbsoluteSteps(s.steps[i])
      ensures var x := StepAxisAt(served, io, s, delta, i);
              x.fault != Underrun &&
              (x.fault == NoFault ==>
                 OnTrack(x.axis, AbsoluteSteps(s.steps[i]), s.duration, TickTime(s, now) - s.start))
    {
      AdmittedProduct(c, s, i);
      StepAxisExact(r.axes[i], AbsoluteSteps(s.steps[i]), s.duration, delta,
                    io.stepWorks(i, false), io.stepWorks(i, true), r.lastTick - s.start);
    }
    RunAxesPointwise(served, io, s, delta, 0);
  }

  lemma TickKeepsDda(c: Config, q: Queue, io: Io, now: u64, clock: u64)
    requires RingInv(c, q) && DdaInv(q, clock) && clock <= now
    ensures DdaInv(Tick(c, q, io, now).queue, now)
  {
    ServingTick(c, q, io, now);
    if Serves(q, io, now) {
      ServedArithmeticFits(c, q, io, now, clock);
      AtDdaOnTrack(c, q, io, now, clock);
      if Tick(c, q, io, now).queue.mode == Running {
        ServedRunning(c, q, io, now);
      }
    }
  }

  function Clock(events: seq<Event>): u64 {
    if events == [] then 0
    else
      var last := events[|events| - 1];
      if last.TickEvent? then last.now else Clock(events[..|events| - 1])
  }

  ghost predicate MonotoneClock(events: seq<Event>) {
    forall k | 0 <= k < |events| && events[k].TickEvent? :: Clock(events[..k]) <= events[k].now
  }

  lemma StepKeepsDda(c: Config, q: Queue, e: Event, clock: u64)
    requires RingInv(c, q) && DdaInv(q, clock)
    requires e.TickEvent? ==> clock <= e.now
    ensures DdaInv(Step(c, q, e), if e.TickEvent? then e.now else clock)
  {
    match e
    case TickEvent(io, now) => TickKeepsDda(c, q, io, now, clock);
    case EnqueueEvent(request, now) =>
    case AbortEvent(fault) =>
    case ClearFaultEvent(now) =>
    case CompleteEvent =>
  }

  lemma {:induction false} RunKeepsDda(c: Config, axisCount: u8, states: seq<Queue>, events: seq<Event>, k: nat)
    requires IsRun(c, axisCount, states, events) && MonotoneClock(events) && k <= |events|
    ensures DdaInv(states[k], Clock(events[..k]))
  {
    if k > 0 {
      RunKeepsRing(c, axisCount, states, events, k - 1);
      RunKeepsDda(c, axisCount, states, events, k - 1);
      assert events[..k][..k - 1] == events[..k - 1];
      StepKeepsDda(c, states[k - 1], events[k - 1], Clock(events[..k - 1]));
    }
  }

  /** The number of whole steps due after a time t is the integer part of target * t / duration.  The
      DDA never runs ahead of it, and equals it exactly when its phase is below one duration. */
  lemma EmittedIsInterpolated(a: Axis, target: nat, duration: nat, t: nat)
    requires duration > 0 && OnTrack(a, target, duration, t)
    ensures a.emitted <= target * t / duration
    ensures a.emitted == target * t / duration <==> a.phase < duration
  {
    QuotientOf(a.emitted, a.phase, target * t, duration);
  }

  lemma RunningAxis(c: Config, q: Queue, clock: u64, i: nat)
    requires RingInv(c, q) && DdaInv(q, clock) && q.mode == Running && i < |q.axes|
    ensures |q.segments| > 0 && |q.segments[0].steps| == |q.axes|
    ensures Interpolated(q, i) && q.lastTick == Min(clock, q.segments[0].End())
  {
    var s := q.segments[0];
    EmittedIsInterpolated(q.axes[i], AbsoluteSteps(s.steps[i]), s.duration, q.lastTick - s.start);
  }

  /** Axis i of a running queue against exact interpolation at the last tick. */
  ghost predicate Interpolated(q: Queue, i: nat)
    requires |q.segments| > 0 && |q.segments[0].steps| == |q.axes| && i < |q.axes|
  {
    var s := q.segments[0];
    && s.duration > 0 && s.start <= q.lastTick
    && var n := AbsoluteSteps(s.steps[i]); var t := q.lastTick - s.start;
       && q.axes[i].emitted * s.duration + q.axes[i].phase == n * t
       && q.axes[i].emitted <= n
       && q.axes[i].emitted <= n * t / s.duration
       && (q.axes[i].phase < s.duration <==> q.axes[i].emitted == n * t / s.duration)
  }

  /** In every run whose ticks do not go back in time, each axis of a running segment has emitted at
      most the whole steps that exact interpolation asks for at the last tick. */
  lemma RunRefinesInterpolation(c: Config, axisCount: u8, states: seq<Queue>, events: seq<Event>, k: nat, i: nat)
    requires IsRun(c, axisCount, states, events) && MonotoneClock(events) && k <= |events|
    requires states[k].mode == Running && i < |states[k].axes|
    ensures var q := states[k];
            && |q.segments| > 0 && |q.segments[0].steps| == |q.axes|
            && q.lastTick == Min(Clock(events[..k]), q.segments[0].End())
            && Interpolated(q, i)
  {
    RunKeepsRing(c, axisCount, states, events, k);
    RunKeepsDda(c, axisCount, states, events, k);
    RunningAxis(c, states[k], Clock(events[..k]), i);
  }

  /** A tick comes soon enough for axis i: it advances the axis by no more than one step. */
  ghost predicate FineTick(q: Queue, e: Event, i: nat)
    requires Shaped(q) && i < |q.axes|
  {
    e.TickEvent? && Serves(q, e.io, e.now) ==>
      AbsoluteSteps(q.segments[0].steps[i]) * DeltaAt(q, e.io, e.now) <= q.segments[0].duration
  }

  predicate PhaseSmall(q: Queue, i: nat)
    requires i < |q.axes|
  {
    q.mode == Running && |q.segments| > 0 ==> q.axes[i].phase < q.segments[0].duration
  }

  lemma FineTickKeepsPhaseSmall(c: Config, q: Queue, io: Io, now: u64, clock: u64, i: nat)
    requires RingInv(c, q) && DdaInv(q, clock) && clock <= now && i < |q.axes|
    requires PhaseSmall(q, i) && FineTick(q, TickEvent(io, now), i)
    ensures i < |Tick(c, q, io, now).queue.axes| && PhaseSmall(Tick(c, q, io, now).queue, i)
  {
    TickKeepsAxes(c, q, io, now);
    ServingTick(c, q, io, now);
    if Serves(q, io, now) && Tick(c, q, io, now).queue.mode == Running {
      var s := q.segments[0];
      var r := AtDda(q, io, now);
      var delta := DeltaAt(q, io, now);
      AtDdaOnTrack(c, q, io, now, clock);
      BeginSegmentPointwise(q, io, s);
      ServedRunning(c, q, io, now);
      var served := r.(lastTick := TickTime(s, now));
      AdmittedProduct(c, s, i);
      StepAxisExact(r.axes[i], AbsoluteSteps(s.steps[i]), s.duration, delta,
                    io.stepWorks(i, false), io.stepWorks(i, true), r.lastTick - s.start);
      RunAxesPointwise(served, io, s, delta, 0);
      assert Stepped(served, io, s, delta, i, PassAt(q, io, now).queue.axes[i]);
    }
  }

  lemma FineStepKeepsPhaseSmall(c: Config, q: Queue, e: Event, clock: u64, i: nat)
    requires RingInv(c, q) && DdaInv(q, clock) && i < |q.axes|
    requires e.TickEvent? ==> clock <= e.now
    requires PhaseSmall(q, i) && FineTick(q, e, i)
    ensures i < |Step(c, q, e).axes| && PhaseSmall(Step(c, q, e), i)
  {
    match e
    case TickEvent(io, now) => FineTickKeepsPhaseSmall(c, q, io, now, clock, i);
    case EnqueueEvent(request, now) =>
    case AbortEvent(fault) =>
    case ClearFaultEvent(now) =>
    case CompleteEvent =>
  }

  /** The ticks from event `from` up to event k are fine for axis i. */
  ghost predicate FineSince(states: seq<Queue>, events: seq<Event>, from: nat, k: nat, i: nat) {
    && from <= k < |states| && |states| == |events| + 1
    && forall m {:trigger FineAt(states[m], events[m], i)} | from <= m < k :: FineAt(states[m], events[m], i)
  }

  ghost predicate FineAt(q: Queue, e: Event, i: nat) {
    Shaped(q) && i < |q.axes| && FineTick(q, e, i)
  }

  /** Once the ticks since the running segment was last armed are fine for an axis, its emitted count
      equals the interpolated count, whatever happened before and to the other axes. */
  lemma {:induction false} FineRunIsExact(c: Config, axisCount: u8, states: seq<Queue>, events: seq<Event>,
                                          from: nat, k: nat, i: nat)
    requires IsRun(c, axisCount, states, events) && MonotoneClock(events) && k <= |events|
    requires FineSince(states, events, from, k, i) && states[from].mode != Running
    requires states[k].mode == Running && i < axisCount
    ensures |states[k].segments| > 0 && |states[k].segments[0].steps| == |states[k].axes| == axisCount
    ensures var q := states[k]; var s := q.segments[0];
            && s.duration > 0
            && q.axes[i].emitted == AbsoluteSteps(s.steps[i]) * (q.lastTick - s.start) / s.duration
  {
    RunKeepsAxes(c, axisCount, states, events, from);
    RunKeepsAxes(c, axisCount, states, events, k);
    RunKeepsPhaseSmall(c, axisCount, states, events, from, k, k, i);
    RunRefinesInterpolation(c, axisCount, states, events, k, i);
  }

  lemma {:induction false} RunKeepsPhaseSmall(c: Config, axisCount: u8, states: seq<Queue>, events: seq<Event>,
                                              from: nat, k: nat, m: nat, i: nat)
    requires IsRun(c, axisCount, states, events) && MonotoneClock(events) && k <= |events|
    requires FineSince(states, events, from, k, i) && states[from].mode != Running
    requires from <= m <= k && i < |states[from].axes|
    ensures i < |states[m].axes| && PhaseSmall(states[m], i)
    decreases m
  {
    if m > from {
      RunKeepsPhaseSmall(c, axisCount, states, events, from, k, m - 1, i);
      FineRunStep(c, axisCount, states, events, from, k, m, i);
    }
  }

  lemma FineRunStep(c: Config, axisCount: u8, states: seq<Queue>, events: seq<Event>,
                    from: nat, k: nat, m: nat, i: nat)
    requires IsRun(c, axisCount, states, events) && MonotoneClock(events) && k <= |events|
    requires FineSince(states, events, from, k, i)
    requires from < m <= k && i < |states[m - 1].axes| && PhaseSmall(states[m - 1], i)
    ensures i < |states[m].axes| && PhaseSmall(states[m], i)
  {
    RunKeepsRing(c, axisCount, states, events, m - 1);
    RunKeepsDda(c, axisCount, states, events, m - 1);
    assert FineAt(states[m - 1], events[m - 1], i);
    FineStepKeepsPhaseSmall(c, states[m - 1], events[m - 1], Clock(events[..m - 1]), i);
  }
}
