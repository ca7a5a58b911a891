/** What stops a move in firmware/src/motion.c: a limit switch, a switch that cannot be read, and an output that does
    not obey (firmware/src/motion.c:231-355). */
module FirmwareMotionStops {
  import opened FixedWidth
  import opened FirmwareMotion
  import opened FirmwareMotionPasses
  import opened FirmwareMotionRing
  import opened FirmwareMotionDda
  import opened FirmwareMotionEdges

  // ---------------------------------------------------------------- limit switches

  /** The switch of axis i stops the tick: it cannot be read, or it is active during a move. */
  predicate SwitchStops(mode: Mode, io: Io, i: nat) {
    io.limit(i) == ReadFails || (io.limit(i) == Reads(true) && mode == Running)
  }

  lemma {:induction false} FirstSwitchTrips(mode: Mode, io: Io, axisCount: nat, from: nat, i: nat)
    requires from <= i < axisCount && SwitchStops(mode, io, i)
    requires forall j | from <= j < i :: !SwitchStops(mode, io, j)
    ensures CheckLimits(mode, io, axisCount, from) == Trip(if io.limit(i) == ReadFails then Aborted else LimitHit)
    decreases i - from
  {
    if from < i {
      assert !SwitchStops(mode, io, from);
      FirstSwitchTrips(mode, io, axisCount, from + 1, i);
    }
  }

  lemma {:induction false} NoSwitchTrips(mode: Mode, io: Io, axisCount: nat, from: nat)
    requires from <= axisCount && forall j | from <= j < axisCount :: !SwitchStops(mode, io, j)
    ensures CheckLimits(mode, io, axisCount, from) == Clear
    decreases axisCount - from
  {
    if from < axisCount {
      assert !SwitchStops(mode, io, from);
      NoSwitchTrips(mode, io, axisCount, from + 1);
    }
  }

  /** The queue is dropped, the fault latched and every output off; no axis has moved. */
  ghost predicate Stopped(before: Queue, after: Queue, fault: Fault) {
    && after.segments == [] && after.mode == Faulted && after.fault == fault
    && after.safetyStops == Wrap64(before.safetyStops + 1)
    && after.limitStops == (if fault == LimitHit then Wrap64(before.limitStops + 1) else before.limitStops)
    && OutputsOff(after.axes) && |after.axes| == |before.axes|
    && forall i | 0 <= i < |before.axes| ::
         after.axes[i].position == before.axes[i].position && after.axes[i].emittedSteps == before.axes[i].emittedSteps
  }

  lemma SafeStopStops(q: Queue, fault: Fault)
    requires fault != NoFault
    ensures Stopped(q, SafeStop(q, fault), fault)
  {
    StopOutputsPointwise(Abort(q, fault), 0);
  }

  /** The first switch that stops the tick stops everything: one that cannot be read as an abort that the tick reports,
      an active one during a move as a limit.  It makes no step first. */
  lemma SwitchStopsEverything(c: Config, q: Queue, io: Io, now: u64, i: nat)
    requires RingInv(c, q) && q.fault == NoFault && io.hasLimits && i < |q.axes|
    requires SwitchStops(q.mode, io, i) && forall j | 0 <= j < i :: !SwitchStops(q.mode, io, j)
    ensures var r := Tick(c, q, io, now);
            if io.limit(i) == ReadFails then Stopped(q, r.queue, Aborted) && !r.ok
            else Stopped(q, r.queue, LimitHit) && r.ok
  {
    FirstSwitchTrips(q.mode, io, |q.axes|, 0, i);
    SafeStopStops(q, if io.limit(i) == ReadFails then Aborted else LimitHit);
  }

  lemma {:induction false} SetDirectionsIgnoreLimits(q: Queue, io: Io, segment: Segment, i: nat)
    requires i <= |q.axes| == |segment.steps|
    ensures SetDirections(q, io.(hasLimits := false), segment, i) == SetDirections(q, io, segment, i)
    decreases |q.axes| - i
  {
    if i < |q.axes| {
      SetDirectionsIgnoreLimits(
        q.(axes := q.axes[i := q.axes[i].(positive := segment.steps[i] >= 0)]), io, segment, i + 1);
    }
  }

  lemma {:induction false} SetEnablesIgnoreLimits(q: Queue, io: Io, segment: Segment, i: nat)
    requires i <= |q.axes| == |segment.steps|
    ensures SetEnables(q, io.(hasLimits := false), segment, i) == SetEnables(q, io, segment, i)
    decreases |q.axes| - i
  {
    if i < |q.axes| {
      SetEnablesIgnoreLimits(q, io, segment, i + 1);
      SetEnablesIgnoreLimits(
        q.(axes := q.axes[i := q.axes[i].(enabled := segment.steps[i] != 0)]), io, segment, i + 1);
    }
  }

  lemma {:induction false} RunAxesIgnoreLimits(q: Queue, io: Io, segment: Segment, delta: u64, i: nat)
    requires i <= |q.axes| == |segment.steps|
    ensures RunAxes(q, io.(hasLimits := false), segment, delta, i) == RunAxes(q, io, segment, delta, i)
    decreases |q.axes| - i
  {
    if i < |q.axes| {
      var s := StepAxisAt(q, io, segment, delta, i);
      RunAxesIgnoreLimits(
        q.(axes := q.axes[i := s.axis], edges := Wrap64(q.edges + s.edges)), io, segment, delta, i + 1);
    }
  }

  lemma BeginSegmentIgnoresLimits(q: Queue, io: Io, segment: Segment)
    requires |q.axes| == |segment.steps|
    ensures BeginSegment(q, io.(hasLimits := false), segment) == BeginSegment(q, io, segment)
  {
    var cleared := q.(axes := ClearProgress(q.axes), lastTick := segment.start);
    SetDirectionsIgnoreLimits(cleared, io, segment, 0);
    SetEnablesIgnoreLimits(SetDirections(cleared, io, segment, 0).queue, io, segment, 0);
  }

  lemma RunTickIgnoresLimits(c: Config, q: Queue, io: Io, segment: Segment, now: u64)
    requires |q.axes| == |segment.steps| && segment.End() <= U64_MAX
    ensures RunTick(c, q, io.(hasLimits := false), segment, now) == RunTick(c, q, io, segment, now)
  {
    var tickTime := TickTime(segment, now);
    var delta := if tickTime > q.lastTick then tickTime - q.lastTick else 0;
    RunAxesIgnoreLimits(q.(lastTick := tickTime), io, segment, delta, 0);
  }

  /** Switches none of which stops the tick make no difference to it. */
  lemma OtherSwitchesDoNothing(c: Config, q: Queue, io: Io, now: u64)
    requires RingInv(c, q) && forall i | 0 <= i < |q.axes| :: !SwitchStops(q.mode, io, i)
    ensures Tick(c, q, io, now) == Tick(c, q, io.(hasLimits := false), now)
  {
    NoSwitchTrips(q.mode, io, |q.axes|, 0);
    if |q.segments| > 0 {
      var segment := q.segments[0];
      BeginSegmentIgnoresLimits(q, io, segment);
      RunTickIgnoresLimits(c, q, io, segment, now);
      RunTickIgnoresLimits(c, BeginSegment(q, io, segment).queue, io, segment, now);
    }
  }

  // ---------------------------------------------------------------- outputs that do not obey

  /** Starting the segment asks axis i for something it does not do: its direction, or an enable that changes. */
  predicate StartFails(a: Axis, steps: i32, io: Io, i: nat) {
    !io.directionWorks(i, steps >= 0) || (a.enabled != (steps != 0) && !io.enableWorks(i, steps != 0))
  }

  lemma {:induction false} SetDirectionsExactly(q: Queue, io: Io, segment: Segment, i: nat)
    requires i <= |q.axes| == |segment.steps|
    ensures SetDirections(q, io, segment, i).fault == NoFault <==>
              forall j | i <= j < |q.axes| :: io.directionWorks(j, segment.steps[j] >= 0)
    decreases |q.axes| - i
  {
    if i < |q.axes| && io.directionWorks(i, segment.steps[i] >= 0) {
      SetDirectionsExactly(
        q.(axes := q.axes[i := q.axes[i].(positive := segment.steps[i] >= 0)]), io, segment, i + 1);
    }
  }

  lemma {:induction false} SetEnablesExactly(q: Queue, io: Io, segment: Segment, i: nat)
    requires i <= |q.axes| == |segment.steps|
    ensures SetEnables(q, io, segment, i).fault == NoFault <==>
              forall j | i <= j < |q.axes| ::
                q.axes[j].enabled == (segment.steps[j] != 0) || io.enableWorks(j, segment.steps[j] != 0)
    decreases |q.axes| - i
  {
    if i < |q.axes| {
      var on := segment.steps[i] != 0;
      if q.axes[i].enabled == on {
        SetEnablesExactly(q, io, segment, i + 1);
      } else if io.enableWorks(i, on) {
        var next := q.(axes := q.axes[i := q.axes[i].(enabled := on)]);
        SetEnablesExactly(next, io, segment, i + 1);
        assert forall j | i < j < |q.axes| :: next.axes[j] == q.axes[j];
      }
    }
  }

  lemma BeginFailsExactly(q: Queue, io: Io, segment: Segment)
    requires |q.axes| == |segment.steps|
    ensures BeginSegment(q, io, segment).fault == NoFault <==>
              forall i | 0 <= i < |q.axes| :: !StartFails(q.axes[i], segment.steps[i], io, i)
  {
    var cleared := q.(axes := ClearProgress(q.axes), lastTick := segment.start);
    SetDirectionsExactly(cleared, io, segment, 0);
    SetDirectionsPointwise(cleared, io, segment, 0);
    var directed := SetDirections(cleared, io, segment, 0);
    if directed.fault == NoFault {
      SetEnablesExactly(directed.queue, io, segment, 0);
    }
  }

  /** The DDA asks the STEP line of axis i for something it does not do: to fall, or to rise for a step that is due. */
  predicate LineFails(a: Axis, target: nat, duration: nat, delta: nat, io: Io, i: nat) {
    || (a.stepHigh && !io.stepWorks(i, false))
    || (a.emitted < target && a.phase + target * delta >= duration && !io.stepWorks(i, true))
  }

  lemma StepFailsExactly(a: Axis, target: u64, duration: u64, delta: u64, io: Io, i: nat)
    requires ArithmeticFits(a, target, delta)
    ensures var s := StepAxis(a, target, duration, delta, io.stepWorks(i, false), io.stepWorks(i, true));
            s.fault == (if LineFails(a, target, duration, delta, io, i) then Aborted else NoFault)
  {
    assert target == 0 || delta == 0 ==> target * delta == 0;
    assert target * delta >= 0 ==> Wrap64(target * delta) == target * delta;
  }

  /** Some output that a tick of the front segment needs fails. */
  ghost predicate OutputFails(q: Queue, io: Io, now: u64)
    requires Shaped(q) && |q.segments| > 0
  {
    var s := q.segments[0];
    if q.mode == Armed && exists i :: 0 <= i < |q.axes| && StartFails(q.axes[i], s.steps[i], io, i) then true
    else
      var delta := TickTime(s, now) - (if q.mode == Armed then s.start else q.lastTick);
      exists i :: 0 <= i < |q.axes| && delta >= 0 &&
        LineFails(if q.mode == Armed then StartedAxis(q.axes[i], s.steps[i]) else q.axes[i],
                  AbsoluteSteps(s.steps[i]), s.duration, delta, io, i)
  }

  lemma PassFailsExactly(c: Config, q: Queue, io: Io, now: u64, clock: u64)
    requires RingInv(c, q) && DdaInv(q, clock) && clock <= now && Serves(q, io, now)
    ensures var s := q.segments[0]; var r := AtDda(q, io, now); var delta := DeltaAt(q, io, now);
            && (PassAt(q, io, now).fault == NoFault <==>
                  forall i | 0 <= i < |r.axes| ::
                    !LineFails(r.axes[i], AbsoluteSteps(s.steps[i]), s.duration, delta, io, i))
            && PassAt(q, io, now).fault in {NoFault, Aborted}
  {
    var s := q.segments[0];
    var r := AtDda(q, io, now);
    var delta := DeltaAt(q, io, now);
    var served := r.(lastTick := TickTime(s, now));
    ServedArithmeticFits(c, q, io, now, clock);
    RunAxesPointwise(served, io, s, delta, 0);
    forall i | 0 <= i < |r.axes|
      ensures StepAxisAt(served, io, s, delta, i).fault ==
                (if LineFails(r.axes[i], AbsoluteSteps(s.steps[i]), s.duration, delta, io, i) then Aborted else NoFault)
    {
      StepFailsExactly(r.axes[i], AbsoluteSteps(s.steps[i]), s.duration, delta, io, i);
    }
    if PassAt(q, io, now).fault == NoFault {
      forall i | 0 <= i < |r.axes|
        ensures !LineFails(r.axes[i], AbsoluteSteps(s.steps[i]), s.duration, delta, io, i)
      {
        assert Stepped(served, io, s, delta, i, PassAt(q, io, now).queue.axes[i]);
      }
    }
  }

  /** Dropped, latched and off; axes before the one that failed may have made their steps. */
  ghost predicate AbortedTick(after: Queue) {
    after.segments == [] && after.mode == Faulted && after.fault == Aborted && OutputsOff(after.axes)
  }

  lemma ServingFails(c: Config, q: Queue, io: Io, now: u64)
    requires RingInv(c, q) && Serves(q, io, now)
    ensures PassAt(q, io, now).fault == NoFault ==> Tick(c, q, io, now).ok
    ensures PassAt(q, io, now).fault == Aborted ==> !Tick(c, q, io, now).ok && AbortedTick(Tick(c, q, io, now).queue)
  {
    ServingTick(c, q, io, now);
    StopOutputsPointwise(Abort(PassAt(q, io, now).queue, Aborted), 0);
  }

  lemma UnstartedFails(c: Config, q: Queue, io: Io, now: u64)
    requires RingInv(c, q) && q.fault == NoFault && !io.hasLimits && q.mode == Armed && now >= q.segments[0].start
    requires BeginSegment(q, io, q.segments[0]).fault != NoFault
    ensures !Tick(c, q, io, now).ok && AbortedTick(Tick(c, q, io, now).queue)
  {
    BeginSegmentPointwise(q, io, q.segments[0]);
    StopOutputsPointwise(Abort(BeginSegment(q, io, q.segments[0]).queue, Aborted), 0);
  }

  /** A tick of a segment that has begun or begins now, with a clock that does not run backwards and no switch in the
      way, fails if and only if an output that it needs does not obey, and then drops everything. */
  lemma OutputFailureStops(c: Config, q: Queue, io: Io, now: u64, clock: u64)
    requires RingInv(c, q) && DdaInv(q, clock) && clock <= now && q.fault == NoFault && !io.hasLimits
    requires |q.segments| > 0 && (q.mode == Armed ==> now >= q.segments[0].start)
    ensures Tick(c, q, io, now).ok <==> !OutputFails(q, io, now)
    ensures OutputFails(q, io, now) ==> AbortedTick(Tick(c, q, io, now).queue)
  {
    BeginFailsExactly(q, io, q.segments[0]);
    if Serves(q, io, now) {
      ServedOutputFails(c, q, io, now, clock);
      ServingFails(c, q, io, now);
    } else {
      UnstartedFails(c, q, io, now);
    }
  }

  /** In a tick that gets to its DDA loop only a STEP line can fail. */
  lemma ServedOutputFails(c: Config, q: Queue, io: Io, now: u64, clock: u64)
    requires RingInv(c, q) && DdaInv(q, clock) && clock <= now && Serves(q, io, now)
    ensures OutputFails(q, io, now) <==> PassAt(q, io, now).fault == Aborted
    ensures PassAt(q, io, now).fault in {NoFault, Aborted}
  {
    var s := q.segments[0];
    AtDdaOnTrack(c, q, io, now, clock);
    PassFailsExactly(c, q, io, now, clock);
    if q.mode == Armed {
      BeginFailsExactly(q, io, s);
      BeginSegmentPointwise(q, io, s);
    }
  }

  /** A tick of a faulted queue, whatever its switches and outputs do, or of an empty one, keeps every output off and changes
      nothing else. */
  lemma IdleTickKeepsOff(c: Config, q: Queue, io: Io, now: u64)
    requires RingInv(c, q) && (q.fault != NoFault || (|q.segments| == 0 && !io.hasLimits))
    ensures var r := Tick(c, q, io, now);
            && r.ok && SameButAxes(q, r.queue)
            && forall i | 0 <= i < |q.axes| :: r.queue.axes[i] == q.axes[i].(stepHigh := false, enabled := false)
  {
    StopOutputsPointwise(q, 0);
  }

  /** Before its first segment begins, a tick changes nothing. */
  lemma WaitsForStart(c: Config, q: Queue, io: Io, now: u64)
    requires RingInv(c, q) && !io.hasLimits && q.mode == Armed && now < q.segments[0].start
    ensures Tick(c, q, io, now) == TickOutcome(q, true)
  {
  }
}
