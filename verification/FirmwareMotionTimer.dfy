/** The timer-rate guarantee: an admitted program whose segments can carry the lag of a timer that keeps
    its rate completes, exactly, and never meets the late branch (firmware/src/motion.c:29-43, 292-371). */
module FirmwareMotionTimer {
  import opened FixedWidth
  import opened NonlinearFacts
  import opened FirmwareMotion
  import opened FirmwareMotionPasses
  import opened FirmwareMotionRing
  import opened FirmwareMotionDda
  import opened FirmwareMotionDisplacement

  // ---------------------------------------------------------------- the admitted rate

  /** The admission limit keeps two steps at least two timer periods apart on average. */
  lemma AdmittedRate(c: Config, s: Segment, i: nat)
    requires Admitted(c, s) && i < |s.steps|
    ensures 2 * AbsoluteSteps(s.steps[i]) * Period(c) <= s.duration
  {
    var n := AbsoluteSteps(s.steps[i]);
    assert n <= MaximumSteps(c, s.duration) by {
      assert AxisFits(c, s.steps[i], s.duration);
    }
    MaximumStepsBound(c, s.duration, n);
    DivMod(1000000000, c.timerHz);
    RateArithmetic(n, Period(c), c.timerHz, s.duration);
  }

  lemma RateArithmetic(n: nat, p: nat, hz: nat, duration: nat)
    requires hz > 0 && p * hz <= 1000000000 && 2000000000 * n <= duration * hz
    ensures 2 * n * p <= duration
  {
    MulMonotone(2 * n, p * hz, 1000000000);
    assert (2 * n * p) * hz == 2 * n * (p * hz);
    AtMostQuotient(2 * n * p, duration * hz, hz);
    assert duration * hz / hz == duration by {
      QuotientOf(duration, 0, duration * hz, hz);
    }
  }

  lemma MaximumStepsBound(c: Config, duration: u64, n: nat)
    requires n <= MaximumSteps(c, duration) && n <= 0x8000_0000
    ensures 2000000000 * n <= duration * c.timerHz
  {
    var half := c.timerHz / 2;
    var whole := duration / 1000000000;
    var rest := duration % 1000000000;
    assert duration == whole * 1000000000 + rest;
    MulMonotone(whole, 2 * half, c.timerHz);
    assert duration * c.timerHz == 1000000000 * (whole * c.timerHz) + rest * c.timerHz;
    assert whole * (2 * half) == 2 * (whole * half);
    MulMonotone(c.timerHz, 0, rest);
    if whole > U64_MAX / half {
      DivMod(U64_MAX, half);
      MulMonotone(half, U64_MAX / half + 1, whole);
      assert half * (U64_MAX / half + 1) == (U64_MAX / half) * half + half;
    } else {
      WholeSecondsFit(whole, half);
      var partial := (rest * c.timerHz) / 2000000000;
      DivMod(rest * c.timerHz, 2000000000);
      assert n <= whole * half + partial;
    }
  }

  // ---------------------------------------------------------------- the lag of a program

  /** The step count of the busiest axis. */
  function MostSteps(steps: seq<i32>): (n: nat)
    ensures forall i | 0 <= i < |steps| :: AbsoluteSteps(steps[i]) <= n
    ensures n > 0 ==> exists i | 0 <= i < |steps| :: AbsoluteSteps(steps[i]) == n
  {
    if steps == [] then 0
    else Max(AbsoluteSteps(steps[|steps| - 1]), MostSteps(steps[..|steps| - 1]))
  }

  /** How long before its end segment s has to be served first.  One tick makes at most one step an axis. */
  function Chase(c: Config, s: Segment): int {
    (MostSteps(s.steps) - 1) * Period(c)
  }

  /** The last tick came so long after the start of the segment; a tick before the start can be followed
      by the one that serves the segment first up to a nanosecond less than a period late. */
  function Lag(s: Segment, last: u64): int {
    Max(last - s.start, -1)
  }

  /** A segment that has steps can still catch up with a lag. */
  predicate Bears(c: Config, s: Segment, lag: int) {
    MostSteps(s.steps) > 0 ==> lag + Chase(c, s) <= s.duration
  }

  /** The lag that a segment taken up with `lag` can hand on to the next one.  A segment that has steps
      takes one tick more than the last step, which only lowers the line. */
  function LagAfter(c: Config, s: Segment, lag: int): int {
    if MostSteps(s.steps) == 0 then Period(c) + Max(lag - s.duration, -1)
    else 2 * Period(c) + Max(lag + Chase(c, s) - s.duration, -1)
  }

  /** Every segment of the program can bear the lag that those before it leave. */
  predicate KeepsUp(c: Config, segments: seq<Segment>, lag: int) {
    segments == [] ||
    (Bears(c, segments[0], lag) && KeepsUp(c, segments[1..], LagAfter(c, segments[0], lag)))
  }

  /** How long after its end the program is complete, at the latest. */
  function FinalLag(c: Config, segments: seq<Segment>, lag: int): int {
    if segments == [] then lag else FinalLag(c, segments[1..], LagAfter(c, segments[0], lag))
  }

  /** The lateness limit of every segment fits in 64 bits. */
  predicate LimitsFit(c: Config, segments: seq<Segment>) {
    forall s <- segments :: s.duration + Period(c) <= U64_MAX
  }

  lemma {:induction false} LessLagIsBetter(c: Config, segments: seq<Segment>, less: int, more: int)
    requires less <= more
    ensures KeepsUp(c, segments, more) ==> KeepsUp(c, segments, less)
    ensures FinalLag(c, segments, less) <= FinalLag(c, segments, more)
  {
    if segments != [] {
      LessLagIsBetter(c, segments[1..], LagAfter(c, segments[0], less), LagAfter(c, segments[0], more));
    }
  }

  /** The lag past the end of a program, on the clock, never shrinks. */
  lemma {:induction false} EndsWithLag(c: Config, segments: seq<Segment>, lag: int)
    requires Chained(segments) && |segments| > 0
    ensures var newest := segments[|segments| - 1];
            segments[0].End() + lag <= newest.End() + FinalLag(c, segments[1..], lag)
  {
    if |segments| > 1 {
      var rest := segments[1..];
      assert Follows(segments[0], rest[0]);
      assert Chained(rest) by {
        forall i, j | 0 <= i && j == i + 1 && j < |rest|
          ensures Follows(rest[i], rest[j])
        {
          assert Follows(segments[i + 1], segments[j + 1]);
        }
      }
      LagAfterAtLeast(c, rest[0], lag);
      EndsWithLag(c, rest, LagAfter(c, rest[0], lag));
    }
  }

  lemma ChaseCounts(c: Config, s: Segment)
    ensures MostSteps(s.steps) > 0 ==> Chase(c, s) >= 0
  {
    if MostSteps(s.steps) > 0 {
      MulMonotone(Period(c), 0, MostSteps(s.steps) - 1);
    }
  }

  /** The least lag that a segment hands on. */
  lemma LagAfterAtLeast(c: Config, s: Segment, lag: int)
    ensures LagAfter(c, s, lag) >= Period(c) - 1
    ensures LagAfter(c, s, lag) >= Period(c) + lag - s.duration
    ensures MostSteps(s.steps) > 0 ==> LagAfter(c, s, lag) >= 2 * Period(c) - 1
  {
    if MostSteps(s.steps) > 0 {
      ChaseCounts(c, s);
    }
  }

  /** Segments that all last at least one period keep up with any lag of up to two. */
  lemma {:induction false} LongSegmentsKeepUp(c: Config, segments: seq<Segment>, lag: int)
    requires forall k | 0 <= k < |segments| :: Admitted(c, segments[k]) && Period(c) <= segments[k].duration
    requires lag <= 2 * Period(c)
    ensures KeepsUp(c, segments, lag) && FinalLag(c, segments, lag) <= 2 * Period(c)
  {
    if segments != [] {
      OneSegmentKeepsUp(c, segments[0], lag);
      LongSegmentsKeepUp(c, segments[1..], LagAfter(c, segments[0], lag));
    }
  }

  /** An admitted segment of any length bears a lag of up to two periods. */
  lemma OneSegmentKeepsUp(c: Config, s: Segment, lag: int)
    requires Admitted(c, s) && lag <= 2 * Period(c)
    ensures KeepsUp(c, [s], lag)
    ensures MostSteps(s.steps) > 0 || Period(c) <= s.duration ==> LagAfter(c, s, lag) <= 2 * Period(c)
  {
    var n := MostSteps(s.steps);
    if n > 0 {
      var i :| 0 <= i < |s.steps| && AbsoluteSteps(s.steps[i]) == n;
      AdmittedRate(c, s, i);
      TwoPeriodsSpare(n, Period(c), s.duration);
    }
  }

  lemma TwoPeriodsSpare(n: nat, p: nat, duration: nat)
    requires n >= 1 && 2 * n * p <= duration
    ensures 2 * p + (n - 1) * p <= duration
  {
    MulMonotone(p, 1, n);
    assert 2 * n * p == p * n + p * n;
    assert (n - 1) * p == p * n - p;
  }

  // ---------------------------------------------------------------- one axis

  predicate InDirection(a: Axis, steps: i32) {
    a.positive == (steps >= 0)
  }

  /** The part of an axis's position that its present pass has not produced. */
  function Base(a: Axis, steps: i32, running: bool): int {
    a.position - (if running then Signed(steps >= 0, a.emitted) else 0)
  }

  /** The time that the steps an axis still owes can take, one a tick, and the tick that lowers the
      line after them. */
  function Owed(c: Config, target: nat, emitted: nat): int {
    (target - emitted + 1) * Period(c)
  }

  lemma OwedCounts(c: Config, target: nat, emitted: nat)
    ensures Owed(c, target, emitted) == Owed(c, target, emitted + 1) + Period(c)
    ensures emitted == target ==> Owed(c, target, emitted) == Period(c)
    ensures emitted <= target ==> Owed(c, target, emitted) >= Period(c)
  {
    assert (target - emitted + 1) * Period(c) == (target - emitted) * Period(c) + Period(c);
    if emitted <= target {
      MulMonotone(Period(c), 0, target - emitted);
    }
  }

  /** An axis that owes steps but none at time t has time to make them. */
  lemma NothingDue(c: Config, target: nat, duration: nat, emitted: nat, phase: nat, t: nat)
    requires 2 * target * Period(c) <= duration && emitted < target
    requires emitted * duration + phase == target * t && phase < duration
    ensures t + Owed(c, target, emitted) < duration + 2 * Period(c)
  {
    NothingDueArithmetic(target, duration, emitted, phase, t, Period(c), target - emitted - 1);
    assert Owed(c, target, emitted) == (target - emitted - 1) * Period(c) + 2 * Period(c);
  }

  lemma NothingDueArithmetic(n: nat, d: nat, e: nat, phase: nat, t: nat, p: nat, left: nat)
    requires 2 * n * p <= d && e + 1 + left == n
    requires e * d + phase == n * t && phase < d
    ensures t + left * p < d
  {
    MulMonotone(left, 0, p);
    var total: nat := t + left * p;
    assert n * total == n * t + n * (left * p);
    MulMonotone(left, 2 * n * p, d);
    assert left * (2 * n * p) == 2 * (n * (left * p));
    assert n * d == e * d + d + left * d;
    MulMonotone(d, 0, left);
    assert n * total < n * d;
    if total >= d {
      MulMonotone(n, d, total);
    }
  }

  lemma AllSpent(emitted: nat, phase: nat, n: nat, duration: nat)
    requires phase < duration && emitted <= n && emitted * duration + phase == n * duration
    ensures emitted == n
  {
    QuotientOf(emitted, phase, n * duration, duration);
    QuotientOf(n, 0, n * duration, duration);
  }

  /** The last step is not due before the end. */
  lemma LastStepAtEnd(n: nat, duration: nat, phase: nat, t: nat)
    requires n > 0 && n * duration + phase == n * t
    ensures t >= duration
  {
    assert n * (t + 1) == n * t + n;
    if t < duration {
      MulMonotone(n, t + 1, duration);
    }
  }

  /** One axis in one tick whose outputs work: it makes a step, or it has none to make. */
  lemma TimerAxis(a: Axis, steps: i32, duration: u64, delta: u64, t: nat)
    requires var n := AbsoluteSteps(steps);
             && 0 < duration && n * duration <= U64_MAX && t + delta <= duration
             && OnTrack(a, n, duration, t)
    requires InDirection(a, steps)
    ensures var s := StepAxis(a, AbsoluteSteps(steps), duration, delta, true, true); var n := AbsoluteSteps(steps);
            && s.fault == NoFault
            && OnTrack(s.axis, n, duration, t + delta)
            && InDirection(s.axis, steps)
            && Base(s.axis, steps, true) == Base(a, steps, true)
            && (s.axis.stepHigh ==> steps != 0 && s.axis.emitted == a.emitted + 1)
            && (!s.axis.stepHigh ==> s.axis.phase < duration && s.axis.emitted == a.emitted)
  {
    var n := AbsoluteSteps(steps);
    PhaseUpdate(a.emitted, a.phase, n, duration, t, delta);
    StepAxisExact(a, n, duration, delta, true, true, t);
    var increment := n * delta;
    assert Wrap64(increment) == increment;
  }

  // ---------------------------------------------------------------- the invariant

  ghost predicate Works(io: Io) {
    && (forall i: nat, level: bool :: io.enableWorks(i, level))
    && (forall i: nat, level: bool :: io.directionWorks(i, level))
    && (forall i: nat, level: bool :: io.stepWorks(i, level))
    && (forall i: nat :: io.limit(i) == Reads(false))
  }

  /** Axis i of a running segment: the steps it owes and the tick after them fit before the bound. */
  ghost predicate InTime(c: Config, s: Segment, a: Axis, i: nat, last: u64, bound: int)
    requires i < |s.steps|
  {
    s.steps[i] != 0 ==>
      last + Owed(c, AbsoluteSteps(s.steps[i]), a.emitted) <= s.End() + Min(bound, 2 * Period(c))
  }

  /** The front segment just after a tick at `last`, or before the first, can complete in time for the
      next one to be taken up with a lag of at most `bound`. */
  ghost predicate FrontInTime(c: Config, q: Queue, last: u64, bound: int)
    requires Shaped(q) && |q.segments| > 0
  {
    var s := q.segments[0];
    if q.mode == Armed then
      Bears(c, s, Lag(s, last)) && LagAfter(c, s, Lag(s, last)) <= bound
    else
      && (forall i | 0 <= i < |q.axes| :: InTime(c, s, q.axes[i], i, last, bound))
      && (MostSteps(s.steps) == 0 ==> last < s.End() && Period(c) - 1 <= bound)
      && (MostSteps(s.steps) > 0 ==> 2 * Period(c) - 1 <= bound)
  }

  /** No fault so far, and every axis of a running segment goes its way. */
  ghost predicate Steady(c: Config, q: Queue, last: u64) {
    && RingInv(c, q) && DdaInv(q, last)
    && q.fault == NoFault
    && (q.mode == Running ==>
          forall i | 0 <= i < |q.axes| :: InDirection(q.axes[i], q.segments[0].steps[i]))
  }

  ghost predicate FrontInv(c: Config, q: Queue, last: u64, bound: int) {
    && Steady(c, q, last)
    && (|q.segments| > 0 ==> q.segments[0].duration + Period(c) <= U64_MAX && FrontInTime(c, q, last, bound))
  }

  ghost predicate TimerInv(c: Config, q: Queue, last: u64, bound: int) {
    && FrontInv(c, q, last, bound)
    && LimitsFit(c, q.segments)
    && (|q.segments| > 0 ==> KeepsUp(c, q.segments[1..], bound))
  }

  function StepsQueued(segments: seq<Segment>, i: nat): int
    requires forall s <- segments :: i < |s.steps|
  {
    if segments == [] then 0 else segments[0].steps[i] + StepsQueued(segments[1..], i)
  }

  /** Where axis i will stand when everything queued has been executed. */
  function Goal(q: Queue, i: nat): int
    requires Shaped(q) && i < |q.axes|
  {
    q.axes[i].position + StepsQueued(q.segments, i) -
    (if q.mode == Running && |q.segments| > 0
     then Signed(q.segments[0].steps[i] >= 0, q.axes[i].emitted) else 0)
  }

  lemma WorksClear(mode: Mode, io: Io, axisCount: nat, i: nat)
    requires i <= axisCount && Works(io)
    ensures CheckLimits(mode, io, axisCount, i) == Clear
    decreases axisCount - i
  {
    if i < axisCount {
      assert io.limit(i) == Reads(false);
      WorksClear(mode, io, axisCount, i + 1);
    }
  }

  lemma {:induction false} WorksSets(q: Queue, io: Io, segment: Segment, i: nat)
    requires i <= |q.axes| == |segment.steps| && Works(io)
    ensures SetDirections(q, io, segment, i).fault == NoFault
    ensures SetEnables(q, io, segment, i).fault == NoFault
    decreases |q.axes| - i
  {
    if i < |q.axes| {
      assert io.directionWorks(i, segment.steps[i] >= 0) && io.enableWorks(i, segment.steps[i] != 0);
      WorksSets(q, io, segment, i + 1);
      WorksSets(q.(axes := q.axes[i := q.axes[i].(positive := segment.steps[i] >= 0)]), io, segment, i + 1);
      WorksSets(q.(axes := q.axes[i := q.axes[i].(enabled := segment.steps[i] != 0)]), io, segment, i + 1);
    }
  }

  /** The tick comes within one period of the last one. */
  predicate OnTime(c: Config, last: u64, now: u64) {
    last <= now <= last + Period(c)
  }

  lemma TimerServes(c: Config, q: Queue, io: Io, last: u64, now: u64)
    requires Steady(c, q, last) && Works(io) && OnTime(c, last, now)
    ensures Serves(q, io, now) <==> |q.segments| > 0 && (q.mode == Armed ==> now >= q.segments[0].start)
  {
    WorksClear(q.mode, io, |q.axes|, 0);
    if |q.segments| > 0 {
      var s := q.segments[0];
      var cleared := q.(axes := ClearProgress(q.axes), lastTick := s.start);
      WorksSets(cleared, io, s, 0);
      WorksSets(SetDirections(cleared, io, s, 0).queue, io, s, 0);
    }
  }

  /** What an axis had emitted of the front segment before the tick. */
  function EmittedBefore(q: Queue, i: nat): nat
    requires i < |q.axes|
  {
    if q.mode == Running then q.axes[i].emitted else 0
  }

  /** What an on-time tick makes of axis i in its DDA loop. */
  ghost predicate Paced(c: Config, q: Queue, now: u64, i: nat, after: Axis)
    requires |q.segments| > 0 && i < |q.axes| == |q.segments[0].steps|
  {
    var s := q.segments[0]; var n := AbsoluteSteps(s.steps[i]);
    && InDirection(after, s.steps[i])
    && Base(after, s.steps[i], true) == Base(q.axes[i], s.steps[i], q.mode == Running)
    && after.emitted <= n
    && (after.stepHigh ==> n > 0 && after.emitted == EmittedBefore(q, i) + 1)
    && (!after.stepHigh ==> after.emitted == EmittedBefore(q, i))
    && (!after.stepHigh && now >= s.End() ==> after.emitted == n)
    && (!after.stepHigh && after.emitted < n ==>
          now + Owed(c, n, after.emitted) < s.End() + 2 * Period(c))
    && (n > 0 && after.emitted == n ==> now >= s.End())
  }

  lemma TrackIsPaced(c: Config, s: Segment, i: nat, a: Axis, now: u64)
    requires Admitted(c, s) && i < |s.steps| && s.duration > 0 && now >= s.start
    requires OnTrack(a, AbsoluteSteps(s.steps[i]), s.duration, Min(now, s.End()) - s.start)
    ensures var n := AbsoluteSteps(s.steps[i]);
            && (a.phase < s.duration && now >= s.End() ==> a.emitted == n)
            && (a.phase < s.duration && a.emitted < n ==> now + Owed(c, n, a.emitted) < s.End() + 2 * Period(c))
            && (n > 0 && a.emitted == n ==> now >= s.End())
  {
    var n := AbsoluteSteps(s.steps[i]);
    var t := Min(now, s.End()) - s.start;
    if a.phase < s.duration && now >= s.End() {
      AllSpent(a.emitted, a.phase, n, s.duration);
    }
    if a.phase < s.duration && a.emitted < n {
      AdmittedRate(c, s, i);
      NothingDue(c, n, s.duration, a.emitted, a.phase, t);
    }
    if n > 0 && a.emitted == n {
      LastStepAtEnd(n, s.duration, a.phase, t);
    }
  }

  lemma TimerAxisServed(c: Config, q: Queue, io: Io, last: u64, now: u64, i: nat)
    requires Steady(c, q, last) && OnTime(c, last, now) && Serves(q, io, now) && i < |q.axes|
    ensures |AtDda(q, io, now).axes| == |q.axes| == |q.segments[0].steps|
    ensures var s := q.segments[0];
            var x := StepAxis(AtDda(q, io, now).axes[i], AbsoluteSteps(s.steps[i]), s.duration,
                              DeltaAt(q, io, now), true, true);
            x.fault == NoFault && Paced(c, q, now, i, x.axis)
  {
    var s := q.segments[0];
    var r := AtDda(q, io, now);
    AtDdaOnTrack(c, q, io, now, last);
    AdmittedProduct(c, s, i);
    BeginSegmentPointwise(q, io, s);
    TimerAxis(r.axes[i], s.steps[i], s.duration, DeltaAt(q, io, now), r.lastTick - s.start);
    var x := StepAxis(r.axes[i], AbsoluteSteps(s.steps[i]), s.duration, DeltaAt(q, io, now), true, true);
    TrackIsPaced(c, s, i, x.axis, now);
  }

  /** What an on-time tick leaves after its DDA loop. */
  lemma TimerPass(c: Config, q: Queue, io: Io, last: u64, now: u64)
    requires Steady(c, q, last) && Works(io) && OnTime(c, last, now) && Serves(q, io, now)
    ensures PassAt(q, io, now).fault == NoFault
    ensures var after := PassAt(q, io, now).queue;
            && |after.axes| == |q.axes| == |q.segments[0].steps|
            && forall i | 0 <= i < |after.axes| :: Paced(c, q, now, i, after.axes[i])
  {
    var s := q.segments[0];
    var r := AtDda(q, io, now);
    var delta := DeltaAt(q, io, now);
    var served := r.(lastTick := TickTime(s, now));
    RunAxesPointwise(served, io, s, delta, 0);
    forall i | 0 <= i < |r.axes|
      ensures StepAxisAt(served, io, s, delta, i).fault == NoFault
      ensures Paced(c, q, now, i, StepAxisAt(served, io, s, delta, i).axis)
    {
      assert io.stepWorks(i, false) && io.stepWorks(i, true);
      TimerAxisServed(c, q, io, last, now, i);
    }
    var after := PassAt(q, io, now).queue;
    forall i | 0 <= i < |after.axes|
      ensures Paced(c, q, now, i, after.axes[i])
    {
      assert Stepped(served, io, s, delta, i, after.axes[i]);
    }
  }

  // ---------------------------------------------------------------- one on-time tick

  /** The queue ran dry: its last segment completed and was not final. */
  predicate RanDry(before: Queue, after: Queue) {
    |before.segments| == 1 && !before.segments[0].final && after.fault == Underrun &&
    after.completed == Wrap64(before.completed + 1)
  }

  /** The tick stopped nothing and scheduled nothing. */
  predicate Uneventful(before: Queue, after: Queue) {
    && |after.axes| == |before.axes|
    && after.nextAvailable == before.nextAvailable
    && after.underruns == before.underruns && after.safetyStops == before.safetyStops
  }

  lemma CompletionShape(c: Config, q: Queue, io: Io, now: u64)
    requires RingInv(c, q) && Completes(c, q, io, now)
    ensures var after := Tick(c, q, io, now).queue;
            && after.segments == (if q.segments[0].final then [] else q.segments[1..])
            && after.mode != Running
            && (after.fault == NoFault ==> Uneventful(q, after))
            && (after.fault != NoFault ==> RanDry(q, after))
            && |after.axes| == |q.axes|
  {
    ServingTick(c, q, io, now);
    AtDdaKeepsQueue(q, io, now);
  }

  /** An axis that makes a step in this tick still meets the bound afterwards. */
  lemma SteppingInTime(c: Config, q: Queue, last: u64, bound: int, now: u64, i: nat, after: Axis)
    requires FrontInv(c, q, last, bound) && OnTime(c, last, now) && |q.segments| > 0 && i < |q.axes|
    requires Paced(c, q, now, i, after) && after.stepHigh
    requires q.mode == Armed ==> now >= q.segments[0].start
    ensures InTime(c, q.segments[0], after, i, now, bound)
    ensures now <= q.segments[0].End() + Period(c)
    ensures 2 * Period(c) - 1 <= bound
  {
    var s := q.segments[0];
    var n := AbsoluteSteps(s.steps[i]);
    var e := EmittedBefore(q, i);
    OwedCounts(c, n, e);
    OwedCounts(c, n, e + 1);
    if q.mode == Armed {
      ArmedInTime(c, s, last, bound, i);
    } else {
      assert InTime(c, s, q.axes[i], i, last, bound);
    }
  }

  /** A segment that bears its lag gives all its axes time for their steps. */
  lemma ArmedInTime(c: Config, s: Segment, last: u64, bound: int, i: nat)
    requires Bears(c, s, Lag(s, last)) && LagAfter(c, s, Lag(s, last)) <= bound
    requires i < |s.steps| && s.steps[i] != 0
    ensures last + Owed(c, AbsoluteSteps(s.steps[i]), 0) <= s.End() + Min(bound, 2 * Period(c))
  {
    OwedByAll(c, AbsoluteSteps(s.steps[i]), MostSteps(s.steps));
  }

  lemma OwedByAll(c: Config, n: nat, most: nat)
    requires n <= most
    ensures Owed(c, n, 0) <= (most - 1) * Period(c) + 2 * Period(c)
  {
    MulMonotone(Period(c), n, most);
    assert Owed(c, n, 0) == Period(c) * n + Period(c);
    assert (most - 1) * Period(c) == Period(c) * most - Period(c);
  }

  /** A served segment with an axis that is not done is at most one period past its end. */
  lemma NotLate(c: Config, q: Queue, io: Io, last: u64, bound: int, now: u64)
    requires FrontInv(c, q, last, bound) && Works(io) && OnTime(c, last, now)
    requires Serves(q, io, now) && !Completes(c, q, io, now)
    ensures now <= q.segments[0].End() + Period(c)
    ensures Elapsed(q.segments[0], now) <= Wrap64(q.segments[0].duration + Period(c))
  {
    TimerPass(c, q, io, last, now);
    var s := q.segments[0];
    var pass := PassAt(q, io, now).queue;
    if now >= s.End() {
      var i :| 0 <= i < |pass.axes| && !AxisDone(pass.axes[i], s.steps[i]);
      assert Paced(c, q, now, i, pass.axes[i]);
      SteppingInTime(c, q, last, bound, now, i, pass.axes[i]);
    }
    BelowLimit(c, s, now);
  }

  lemma BelowLimit(c: Config, s: Segment, now: u64)
    requires s.duration + Period(c) <= U64_MAX && now <= s.End() + Period(c)
    ensures Elapsed(s, now) <= Wrap64(s.duration + Period(c))
  {
  }

  /** A served tick that neither completes its segment nor is late. */
  lemma ServedContinues(c: Config, q: Queue, io: Io, now: u64)
    requires RingInv(c, q) && Serves(q, io, now) && PassAt(q, io, now).fault == NoFault
    requires !Completes(c, q, io, now)
    requires Elapsed(q.segments[0], now) <= Wrap64(q.segments[0].duration + Period(c))
    ensures Tick(c, q, io, now) == TickOutcome(PassAt(q, io, now).queue, true)
  {
    ServingTick(c, q, io, now);
    var pass := PassAt(q, io, now).queue;
    assert Finish(c, pass, q.segments[0], now) == pass;
  }

  /** A served segment that is neither complete nor past the lateness limit goes on. */
  lemma SteadyContinues(c: Config, q: Queue, io: Io, last: u64, now: u64)
    requires Steady(c, q, last) && Works(io) && OnTime(c, last, now)
    requires Serves(q, io, now) && !Completes(c, q, io, now)
    requires Elapsed(q.segments[0], now) <= Wrap64(q.segments[0].duration + Period(c))
    ensures Tick(c, q, io, now) == TickOutcome(PassAt(q, io, now).queue, true)
    ensures var pass := PassAt(q, io, now).queue;
            pass.mode == Running && pass.segments == q.segments && Steady(c, pass, now)
  {
    TimerPass(c, q, io, last, now);
    ServedRunningMode(q, io, now);
    ServedContinues(c, q, io, now);
    AtDdaKeepsQueue(q, io, now);
    SteadyPass(c, q, io, last, now, PassAt(q, io, now).queue);
  }

  lemma SteadyPass(c: Config, q: Queue, io: Io, last: u64, now: u64, pass: Queue)
    requires RingInv(c, q) && DdaInv(q, last) && last <= now && |q.segments| > 0
    requires pass == Tick(c, q, io, now).queue && pass.fault == NoFault && pass.segments == q.segments
    requires |pass.axes| == |q.axes| == |q.segments[0].steps|
    requires forall i | 0 <= i < |pass.axes| :: Paced(c, q, now, i, pass.axes[i])
    ensures Steady(c, pass, now)
  {
    TickKeepsRing(c, q, io, now);
    TickKeepsDda(c, q, io, now, last);
    forall i | 0 <= i < |pass.axes|
      ensures InDirection(pass.axes[i], pass.segments[0].steps[i])
    {
      assert Paced(c, q, now, i, pass.axes[i]);
    }
  }

  /** A tick that serves the front segment on time without completing it takes neither exit. */
  lemma TimerContinues(c: Config, q: Queue, io: Io, last: u64, bound: int, now: u64)
    requires FrontInv(c, q, last, bound) && Works(io) && OnTime(c, last, now)
    requires Serves(q, io, now) && !Completes(c, q, io, now)
    ensures Tick(c, q, io, now) == TickOutcome(PassAt(q, io, now).queue, true)
    ensures FrontInv(c, PassAt(q, io, now).queue, now, bound)
    ensures PassAt(q, io, now).queue.mode == Running && PassAt(q, io, now).queue.segments == q.segments
  {
    NotLate(c, q, io, last, bound, now);
    SteadyContinues(c, q, io, last, now);
    ContinuesFront(c, q, io, last, bound, now);
  }

  lemma ServedRunningMode(q: Queue, io: Io, now: u64)
    requires Shaped(q) && Serves(q, io, now) && (q.mode == Armed || q.mode == Running)
    ensures PassAt(q, io, now).queue.mode == Running
  {
    BeginSegmentPointwise(q, io, q.segments[0]);
  }

  /** Every axis of a segment that goes on running is still in time. */
  lemma StaysInTime(c: Config, q: Queue, io: Io, last: u64, bound: int, now: u64, j: nat)
    requires FrontInv(c, q, last, bound) && Works(io) && OnTime(c, last, now)
    requires Serves(q, io, now) && !Completes(c, q, io, now) && j < |q.axes|
    ensures |PassAt(q, io, now).queue.axes| == |q.axes| == |q.segments[0].steps|
    ensures InTime(c, q.segments[0], PassAt(q, io, now).queue.axes[j], j, now, bound)
  {
    TimerPass(c, q, io, last, now);
    var s := q.segments[0];
    var pass := PassAt(q, io, now).queue;
    var n := AbsoluteSteps(s.steps[j]);
    var a := pass.axes[j];
    assert Paced(c, q, now, j, a);
    FrontBound(c, q, last, bound);
    if n > 0 && a.stepHigh {
      SteppingInTime(c, q, last, bound, now, j, a);
    } else if n > 0 && a.emitted == n {
      var i :| 0 <= i < |pass.axes| && !AxisDone(pass.axes[i], s.steps[i]);
      assert Paced(c, q, now, i, pass.axes[i]);
      SteppingInTime(c, q, last, bound, now, i, pass.axes[i]);
      OwedCounts(c, AbsoluteSteps(s.steps[i]), pass.axes[i].emitted);
      OwedCounts(c, n, n);
    }
  }

  /** The least lag that a segment hands on. */
  lemma FrontBound(c: Config, q: Queue, last: u64, bound: int)
    requires FrontInv(c, q, last, bound) && |q.segments| > 0
    ensures MostSteps(q.segments[0].steps) == 0 ==> Period(c) - 1 <= bound
    ensures MostSteps(q.segments[0].steps) > 0 ==> 2 * Period(c) - 1 <= bound
  {
  }

  lemma ContinuesFront(c: Config, q: Queue, io: Io, last: u64, bound: int, now: u64)
    requires FrontInv(c, q, last, bound) && Works(io) && OnTime(c, last, now)
    requires Serves(q, io, now) && !Completes(c, q, io, now)
    ensures var pass := PassAt(q, io, now).queue;
            && Shaped(pass) && pass.segments == q.segments && pass.mode == Running
            && FrontInTime(c, pass, now, bound)
  {
    AtDdaKeepsQueue(q, io, now);
    ServedRunningMode(q, io, now);
    FrontBound(c, q, last, bound);
    TimerPass(c, q, io, last, now);
    var s := q.segments[0];
    var pass := PassAt(q, io, now).queue;
    forall i | 0 <= i < |pass.axes|
      ensures InTime(c, s, pass.axes[i], i, now, bound)
      ensures MostSteps(s.steps) == 0 && now >= s.End() ==> AxisDone(pass.axes[i], s.steps[i])
    {
      assert Paced(c, q, now, i, pass.axes[i]);
      StaysInTime(c, q, io, last, bound, now, i);
    }
  }

  /** A tick that completes the front segment comes within the bound. */
  lemma CompletesInTime(c: Config, q: Queue, io: Io, last: u64, bound: int, now: u64)
    requires FrontInv(c, q, last, bound) && Works(io) && OnTime(c, last, now) && Completes(c, q, io, now)
    ensures q.segments[0].End() <= now <= q.segments[0].End() + bound
  {
    TimerPass(c, q, io, last, now);
    var s := q.segments[0];
    if MostSteps(s.steps) > 0 {
      var i :| 0 <= i < |s.steps| && AbsoluteSteps(s.steps[i]) == MostSteps(s.steps);
      var a := PassAt(q, io, now).queue.axes[i];
      assert AxisDone(a, s.steps[i]) && Paced(c, q, now, i, a);
      assert InTime(c, s, q.axes[i], i, last, bound);
      OwedCounts(c, MostSteps(s.steps), a.emitted);
    }
  }

  /** What bounds the lag of the queue after an on-time tick. */
  function NextBound(c: Config, q: Queue, io: Io, bound: int, now: u64): int
    requires Shaped(q)
  {
    if Completes(c, q, io, now) && |q.segments| > 1
    then LagAfter(c, q.segments[1], Lag(q.segments[1], now)) else bound
  }

  /** A tick that completes the front segment on time. */
  lemma TimerCompletes(c: Config, q: Queue, io: Io, last: u64, bound: int, now: u64)
    requires TimerInv(c, q, last, bound) && Works(io) && OnTime(c, last, now) && Completes(c, q, io, now)
    ensures var after := Tick(c, q, io, now).queue;
            && (after.fault == NoFault ==> TimerInv(c, after, now, NextBound(c, q, io, bound, now)))
            && (after.fault == NoFault ==> Uneventful(q, after))
            && (after.fault != NoFault ==> RanDry(q, after))
            && after.segments == (if q.segments[0].final then [] else q.segments[1..])
            && |after.axes| == |q.axes|
  {
    CompletionShape(c, q, io, now);
    TickKeepsRing(c, q, io, now);
    TickKeepsDda(c, q, io, now, last);
    CompletesInTime(c, q, io, last, bound, now);
    if |q.segments| > 1 {
      assert Follows(q.segments[0], q.segments[1]);
      TakesUp(c, q.segments[1..], now, bound);
    }
  }

  /** The next segment is taken up with no more lag than was left for it. */
  lemma TakesUp(c: Config, segments: seq<Segment>, now: u64, bound: int)
    requires |segments| > 0 && KeepsUp(c, segments, bound) && segments[0].start <= now <= segments[0].start + bound
    ensures var s := segments[0]; var after := LagAfter(c, s, Lag(s, now));
            && Bears(c, s, Lag(s, now)) && after <= LagAfter(c, s, bound)
            && KeepsUp(c, segments[1..], after)
            && FinalLag(c, segments[1..], after) <= FinalLag(c, segments, bound)
  {
    var s := segments[0];
    LessLagIsBetter(c, segments, Lag(s, now), bound);
    LessLagIsBetter(c, segments[1..], LagAfter(c, s, Lag(s, now)), LagAfter(c, s, bound));
  }

  /** The latest time by which the program is complete does not move. */
  lemma DeadlineStays(c: Config, q: Queue, io: Io, last: u64, bound: int, now: u64)
    requires TimerInv(c, q, last, bound) && Works(io) && OnTime(c, last, now) && Completes(c, q, io, now)
    requires |q.segments| > 1
    ensures FinalLag(c, q.segments[2..], NextBound(c, q, io, bound, now)) <= FinalLag(c, q.segments[1..], bound)
  {
    CompletesInTime(c, q, io, last, bound, now);
    assert Follows(q.segments[0], q.segments[1]);
    TakesUp(c, q.segments[1..], now, bound);
    assert q.segments[1..][1..] == q.segments[2..];
  }

  /** A tick that does not serve a segment only turns off the outputs of an empty queue. */
  lemma SteadyWaits(c: Config, q: Queue, io: Io, last: u64, now: u64)
    requires Steady(c, q, last) && Works(io) && OnTime(c, last, now) && !Serves(q, io, now)
    ensures Tick(c, q, io, now) == TickOutcome(if q.segments == [] then StopOutputs(q, 0) else q, true)
    ensures Steady(c, Tick(c, q, io, now).queue, now)
    ensures q.segments != [] ==> q.mode == Armed && now < q.segments[0].start
  {
    TimerServes(c, q, io, last, now);
    WorksClear(q.mode, io, |q.axes|, 0);
    TickKeepsRing(c, q, io, now);
    TickKeepsDda(c, q, io, now, last);
  }

  lemma TimerWaits(c: Config, q: Queue, io: Io, last: u64, bound: int, now: u64)
    requires FrontInv(c, q, last, bound) && Works(io) && OnTime(c, last, now) && !Serves(q, io, now)
    ensures Tick(c, q, io, now) == TickOutcome(if q.segments == [] then StopOutputs(q, 0) else q, true)
    ensures FrontInv(c, Tick(c, q, io, now).queue, now, bound)
  {
    SteadyWaits(c, q, io, last, now);
  }

  /** No on-time tick changes where an axis will stand in the end. */
  lemma TimerGoal(c: Config, q: Queue, io: Io, last: u64, bound: int, now: u64, i: nat)
    requires FrontInv(c, q, last, bound) && Works(io) && OnTime(c, last, now) && i < |q.axes|
    ensures var after := Tick(c, q, io, now).queue;
            Shaped(after) && |after.axes| == |q.axes| && Goal(after, i) == Goal(q, i)
  {
    TickKeepsRing(c, q, io, now);
    if !Serves(q, io, now) {
      TimerWaits(c, q, io, last, bound, now);
      StopOutputsPointwise(q, 0);
    } else {
      TimerPass(c, q, io, last, now);
      AtDdaKeepsQueue(q, io, now);
      assert Paced(c, q, now, i, PassAt(q, io, now).queue.axes[i]);
      if Completes(c, q, io, now) {
        CompletionGoal(c, q, io, last, bound, now, i);
      } else {
        TimerContinues(c, q, io, last, bound, now);
      }
    }
  }

  lemma CompletionGoal(c: Config, q: Queue, io: Io, last: u64, bound: int, now: u64, i: nat)
    requires FrontInv(c, q, last, bound) && Works(io) && OnTime(c, last, now) && i < |q.axes|
    requires Completes(c, q, io, now) && Paced(c, q, now, i, PassAt(q, io, now).queue.axes[i])
    ensures var after := Tick(c, q, io, now).queue;
            Shaped(after) && |after.axes| == |q.axes| && Goal(after, i) == Goal(q, i)
  {
    TickKeepsRing(c, q, io, now);
    CompletionShape(c, q, io, now);
    CompletingTick(c, q, io, now);
    assert |q.segments| > 1 ==> Follows(q.segments[0], q.segments[1]);
    var done := PassAt(q, io, now).queue.axes[i];
    assert AxisDone(done, q.segments[0].steps[i]);
    GoalAfterCompletion(q, Tick(c, q, io, now).queue, i, done);
  }

  lemma GoalAfterCompletion(q: Queue, after: Queue, i: nat, done: Axis)
    requires Shaped(q) && Shaped(after) && |after.axes| == |q.axes| && i < |q.axes|
    requires |q.segments| > 0 && after.segments == q.segments[1..] && after.mode != Running
    requires after.axes[i].position == done.position
    requires done.emitted == AbsoluteSteps(q.segments[0].steps[i])
    requires Base(done, q.segments[0].steps[i], true) == Base(q.axes[i], q.segments[0].steps[i], q.mode == Running)
    ensures Goal(after, i) == Goal(q, i)
  {
  }

  /** One on-time tick succeeds, and keeps the invariant unless the queue runs dry. */
  lemma TimerTick(c: Config, q: Queue, io: Io, last: u64, bound: int, now: u64)
    requires TimerInv(c, q, last, bound) && Works(io) && OnTime(c, last, now)
    ensures var after := Tick(c, q, io, now).queue;
            && Tick(c, q, io, now).ok
            && (after.fault == NoFault ==> TimerInv(c, after, now, NextBound(c, q, io, bound, now)))
            && (after.fault == NoFault ==> Uneventful(q, after))
            && (after.fault != NoFault ==> RanDry(q, after))
            && after.segments == (if !Completes(c, q, io, now) then q.segments
                                  else if q.segments[0].final then [] else q.segments[1..])
  {
    if !Serves(q, io, now) {
      TimerWaits(c, q, io, last, bound, now);
    } else if Completes(c, q, io, now) {
      TimerCompletes(c, q, io, last, bound, now);
      CompletingTickSucceeds(c, q, io, now);
    } else {
      TimerContinues(c, q, io, last, bound, now);
      AtDdaKeepsQueue(q, io, now);
    }
  }

  lemma CompletingTickSucceeds(c: Config, q: Queue, io: Io, now: u64)
    requires RingInv(c, q) && Completes(c, q, io, now)
    ensures Tick(c, q, io, now).ok
  {
    ServingTick(c, q, io, now);
  }

  // ---------------------------------------------------------------- whole programs

  datatype TimerCall = TimerCall(io: Io, now: u64)

  /** Ticks at the timer rate, with working outputs, no limit, no enqueue and no abort. */
  ghost predicate TimerRuns(c: Config, last: u64, calls: seq<TimerCall>)
    decreases |calls|
  {
    calls != [] ==>
      Works(calls[0].io) && OnTime(c, last, calls[0].now) && TimerRuns(c, calls[0].now, calls[1..])
  }

  function LastCall(last: u64, calls: seq<TimerCall>): u64 {
    if calls == [] then last else calls[|calls| - 1].now
  }

  /** The queue after a sequence of ticks. */
  function RunTimer(c: Config, q: Queue, calls: seq<TimerCall>): (r: Queue)
    requires RingInv(c, q)
    ensures RingInv(c, r)
    decreases |calls|
  {
    if calls == [] then q
    else
      TickKeepsRing(c, q, calls[0].io, calls[0].now);
      RunTimer(c, Tick(c, q, calls[0].io, calls[0].now).queue, calls[1..])
  }

  predicate EndsFinal(q: Queue) {
    |q.segments| > 0 ==> q.segments[|q.segments| - 1].final
  }

  /** What a stretch of on-time ticks makes of a program that ends in a final segment. */
  ghost predicate GoesOn(before: Queue, after: Queue)
    requires Shaped(before) && Shaped(after)
  {
    && after.fault == NoFault
    && |after.axes| == |before.axes|
    && after.underruns == before.underruns && after.safetyStops == before.safetyStops
    && after.nextAvailable == before.nextAvailable
    && (after.segments != [] ==> before.segments != [])
    && forall i | 0 <= i < |before.axes| :: Goal(after, i) == Goal(before, i)
  }

  lemma TimerStep(c: Config, q: Queue, io: Io, last: u64, bound: int, now: u64)
    requires TimerInv(c, q, last, bound) && EndsFinal(q) && Works(io) && OnTime(c, last, now)
    ensures var after := Tick(c, q, io, now).queue;
            && TimerInv(c, after, now, NextBound(c, q, io, bound, now)) && EndsFinal(after)
            && GoesOn(q, after)
            && (after.segments != [] ==>
                  FinalLag(c, after.segments[1..], NextBound(c, q, io, bound, now)) <=
                  FinalLag(c, q.segments[1..], bound))
  {
    TimerTick(c, q, io, last, bound, now);
    var after := Tick(c, q, io, now).queue;
    assert after.fault == NoFault && EndsFinal(after);
    forall i | 0 <= i < |q.axes|
      ensures |after.axes| == |q.axes| && Goal(after, i) == Goal(q, i)
    {
      TimerGoal(c, q, io, last, bound, now, i);
    }
    if |q.segments| > 1 && Completes(c, q, io, now) {
      DeadlineStays(c, q, io, last, bound, now);
      assert after.segments != [] ==> after.segments[1..] == q.segments[2..];
    }
  }

  lemma {:induction false} TimerProgramKeeps(c: Config, q: Queue, last: u64, bound: int, calls: seq<TimerCall>)
    requires TimerInv(c, q, last, bound) && EndsFinal(q) && TimerRuns(c, last, calls)
    ensures var r := RunTimer(c, q, calls);
            && GoesOn(q, r)
            && (r.segments != [] ==>
                  LastCall(last, calls) + Period(c) <= q.nextAvailable + FinalLag(c, q.segments[1..], bound))
    decreases |calls|
  {
    if calls == [] {
      EndsInTime(c, q, last, bound);
    } else {
      var io, now := calls[0].io, calls[0].now;
      TimerStep(c, q, io, last, bound, now);
      TimerProgramKeeps(c, Tick(c, q, io, now).queue, now, NextBound(c, q, io, bound, now), calls[1..]);
      assert LastCall(last, calls) == LastCall(now, calls[1..]);
    }
  }

  /** While something is queued, the next tick can still come before the program's deadline. */
  lemma EndsInTime(c: Config, q: Queue, last: u64, bound: int)
    requires TimerInv(c, q, last, bound)
    ensures q.segments != [] ==>
              last + Period(c) <= q.nextAvailable + FinalLag(c, q.segments[1..], bound)
  {
    if q.segments != [] {
      EndsWithLag(c, q.segments, bound);
      FrontEndsInTime(c, q, last, bound);
    }
  }

  lemma FrontEndsInTime(c: Config, q: Queue, last: u64, bound: int)
    requires FrontInv(c, q, last, bound) && |q.segments| > 0
    ensures last + Period(c) <= q.segments[0].End() + bound
  {
    var s := q.segments[0];
    ChaseCounts(c, s);
    if q.mode == Running && MostSteps(s.steps) > 0 {
      var i :| 0 <= i < |s.steps| && AbsoluteSteps(s.steps[i]) == MostSteps(s.steps);
      assert InTime(c, s, q.axes[i], i, last, bound);
      OwedCounts(c, MostSteps(s.steps), q.axes[i].emitted);
    }
  }

  /** Every program of admitted segments that ends in a final one and keeps up with the lag of the last
      tick before it runs to its end on a timer that keeps its rate: no fault, no stop, and as soon as no
      tick can come before the program's deadline the queue is idle with every axis moved by exactly the
      sum of its signed steps. */
  lemma TimerProgramCompletes(c: Config, q: Queue, last: u64, calls: seq<TimerCall>, i: nat)
    requires RingInv(c, q) && q.mode == Armed && EndsFinal(q) && LimitsFit(c, q.segments)
    requires KeepsUp(c, q.segments, Lag(q.segments[0], last))
    requires TimerRuns(c, last, calls) && i < |q.axes|
    ensures var r := RunTimer(c, q, calls);
            && r.fault == NoFault && |r.axes| == |q.axes|
            && r.safetyStops == q.safetyStops && r.underruns == q.underruns
            && (LastCall(last, calls) + Period(c) >
                  q.nextAvailable + FinalLag(c, q.segments, Lag(q.segments[0], last)) ==>
                  && r.mode == Idle && r.segments == []
                  && r.axes[i].position == q.axes[i].position + StepsQueued(q.segments, i))
  {
    var bound := LagAfter(c, q.segments[0], Lag(q.segments[0], last));
    TimerProgramKeeps(c, q, last, bound, calls);
    var r := RunTimer(c, q, calls);
    assert r.segments == [] ==> Goal(r, i) == r.axes[i].position;
    assert Goal(q, i) == q.axes[i].position + StepsQueued(q.segments, i);
  }
}
