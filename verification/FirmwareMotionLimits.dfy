/** Runs in which firmware/src/motion.c misses what the theorems promise, because one of their
    conditions fails. */
module FirmwareMotionLimits {
  import opened FixedWidth
  import opened FirmwareMotion
  import opened FirmwareMotionPasses

  /** A queue with one axis, reached with accepted - completed segments queued and no stop so far. */
  function OneAxis(segments: seq<Segment>, axis: Axis, mode: Mode, lastTick: u64, nextAvailable: u64,
                   lastAccepted: u32, accepted: u64, completed: u16, edges: u64, maximumDepth: u16): Queue {
    Queue(segments, [axis], lastAccepted, completed, nextAvailable, mode, NoFault, lastTick,
          accepted, 0, completed, edges, 0, 0, 0, maximumDepth, 0)
  }

  function Begun(q: Queue): Axis
    requires |q.axes| == 1 && |q.segments| > 0 && |q.segments[0].steps| == 1
  {
    if q.mode == Armed then StartedAxis(q.axes[0], q.segments[0].steps[0]) else q.axes[0]
  }

  /** One serving tick of a queue with one axis, when the outputs work. */
  lemma OneAxisTick(c: Config, q: Queue, now: u64, delta: u64, s: AxisStep)
    requires Shaped(q) && |q.axes| == 1 && |q.segments| > 0 && q.fault == NoFault
    requires q.mode == Running || (q.mode == Armed && now >= q.segments[0].start)
    requires var last := if q.mode == Armed then q.segments[0].start else q.lastTick;
             TickTime(q.segments[0], now) == last + delta
    requires s.fault == NoFault
    requires s == StepAxis(Begun(q), AbsoluteSteps(q.segments[0].steps[0]), q.segments[0].duration, delta, true, true)
    ensures Tick(c, q, GOOD_IO, now) ==
            TickOutcome(
              Finish(c, q.(axes := [s.axis], edges := Wrap64(q.edges + s.edges), mode := Running,
                           lastTick := TickTime(q.segments[0], now)), q.segments[0], now), true)
  {
    var segment := q.segments[0];
    var r := q;
    if q.mode == Armed {
      BeginSegmentPointwise(q, GOOD_IO, segment);
      AllSet(q.(axes := ClearProgress(q.axes), lastTick := segment.start), segment);
      r := BeginSegment(q, GOOD_IO, segment).queue;
      assert r.axes[0] == Begun(q);
    }
    assert r.axes == [Begun(q)];
    var served := r.(lastTick := TickTime(segment, now));
    assert StepAxisAt(served, GOOD_IO, segment, delta, 0) == s;
    var next := served.(axes := served.axes[0 := s.axis], edges := Wrap64(served.edges + s.edges));
    assert next.axes == [s.axis];
    assert RunAxes(next, GOOD_IO, segment, delta, 1) == Pass(next, NoFault);
    assert RunAxes(served, GOOD_IO, segment, delta, 0) == Pass(next, NoFault);
  }

  lemma AllSet(q: Queue, segment: Segment)
    requires |q.axes| == |segment.steps| == 1
    ensures SetDirections(q, GOOD_IO, segment, 0).fault == NoFault
    ensures SetEnables(SetDirections(q, GOOD_IO, segment, 0).queue, GOOD_IO, segment, 0).fault == NoFault
  {
    var directed := q.(axes := q.axes[0 := q.axes[0].(positive := segment.steps[0] >= 0)]);
    assert SetDirections(directed, GOOD_IO, segment, 1) == Pass(directed, NoFault);
    assert SetDirections(q, GOOD_IO, segment, 0) == Pass(directed, NoFault);
    var enabled := directed.(axes := directed.axes[0 := directed.axes[0].(enabled := segment.steps[0] != 0)]);
    assert SetEnables(enabled, GOOD_IO, segment, 1) == Pass(enabled, NoFault);
    assert SetEnables(directed, GOOD_IO, segment, 1) == Pass(directed, NoFault);
  }

  // ---------------------------------------------------------------- enqueue while running

  const BOARD := BuildConfig(100000, 8, 2000)
  const TWO_STEPS := Segment(1, 2000000, 10000000, false, [2])
  const STILL := Segment(2, 12000000, 10000000, true, [0])

  const FRONT := OneAxis([TWO_STEPS], ZERO_AXIS, Armed, 0, 12000000, 1, 1, 0, 0, 1)
  const HALFWAY := OneAxis([TWO_STEPS], Axis(1, 0, 1, 1, true, true, true), Running, 7000000, 12000000, 1, 1, 0, 1, 1)
  const REARMED := OneAxis([TWO_STEPS, STILL], Axis(1, 0, 1, 1, true, true, true), Armed, 7000000, 22000000, 2, 2, 0, 1, 2)
  const RESTARTED := OneAxis([TWO_STEPS, STILL], Axis(1, 20000, 2, 2, true, true, true), Running, 7010000, 22000000, 2, 2, 0, 3, 2)
  const FULL := OneAxis([TWO_STEPS, STILL], Axis(2, 0, 3, 3, true, true, true), Running, 12000000, 22000000, 2, 2, 0, 5, 2)
  const COMPLETED := OneAxis([STILL], Axis(2, 0, 3, 3, false, true, true), Armed, 12000000, 22000000, 2, 2, 1, 6, 2)

  lemma FirstEnqueue()
    ensures Enqueue(BOARD, Initial(1), TWO_STEPS, 0) == EnqueueOutcome(Accepted, FRONT)
  {
    assert AxisFits(BOARD, 2, 10000000);
    assert Initial(1).axes == [ZERO_AXIS];
  }

  lemma FirstTick()
    ensures Tick(BOARD, FRONT, GOOD_IO, 7000000) == TickOutcome(HALFWAY, true)
  {
    OneAxisTick(BOARD, FRONT, 7000000, 5000000, AxisStep(HALFWAY.axes[0], 1, NoFault));
  }

  lemma SecondEnqueue()
    ensures Enqueue(BOARD, HALFWAY, STILL, 7000000) == EnqueueOutcome(Accepted, REARMED)
  {
    assert AxisFits(BOARD, 0, 10000000);
  }

  lemma SecondTick()
    ensures Tick(BOARD, REARMED, GOOD_IO, 7010000) == TickOutcome(RESTARTED, true)
  {
    OneAxisTick(BOARD, REARMED, 7010000, 5010000, AxisStep(RESTARTED.axes[0], 2, NoFault));
  }

  lemma ThirdTick()
    ensures Tick(BOARD, RESTARTED, GOOD_IO, 12000000) == TickOutcome(FULL, true)
  {
    OneAxisTick(BOARD, RESTARTED, 12000000, 4990000, AxisStep(FULL.axes[0], 2, NoFault));
    assert !AllEmitted(FULL.axes, TWO_STEPS);
  }

  lemma FourthTick()
    ensures Tick(BOARD, FULL, GOOD_IO, 12010000) == TickOutcome(COMPLETED, true)
  {
    OneAxisTick(BOARD, FULL, 12010000, 0, AxisStep(COMPLETED.axes[0], 1, NoFault));
    assert AllEmitted(COMPLETED.axes, TWO_STEPS);
  }

  /** A segment of two steps during which another segment is accepted moves its axis by three: the
      enqueue arms the running segment again and its next tick starts it over. */
  lemma EnqueueWhileRunningMovesTooFar()
    ensures Enqueue(BOARD, Initial(1), TWO_STEPS, 0) == EnqueueOutcome(Accepted, FRONT)
    ensures Tick(BOARD, FRONT, GOOD_IO, 7000000).queue == HALFWAY
    ensures Enqueue(BOARD, HALFWAY, STILL, 7000000) == EnqueueOutcome(Accepted, REARMED)
    ensures Tick(BOARD, REARMED, GOOD_IO, 7010000).queue == RESTARTED
    ensures Tick(BOARD, RESTARTED, GOOD_IO, 12000000).queue == FULL
    ensures Tick(BOARD, FULL, GOOD_IO, 12010000).queue == COMPLETED
    ensures COMPLETED.completed == 1 && TWO_STEPS.steps == [2] && COMPLETED.axes[0].position == 3
  {
    FirstEnqueue();
    FirstTick();
    SecondEnqueue();
    SecondTick();
    ThirdTick();
    FourthTick();
  }

  // ---------------------------------------------------------------- the late check wraps

  const SLOW_BOARD := BuildConfig(1000, 8, 100)
  const ENDLESS := Segment(1, 100000, U64_MAX - 100000, true, [0])

  const ENDLESS_ARMED := OneAxis([ENDLESS], ZERO_AXIS, Armed, 0, U64_MAX, 1, 1, 0, 0, 1)
  const ENDLESS_RUNNING := OneAxis([ENDLESS], StartedAxis(ZERO_AXIS, 0), Running, 100000, U64_MAX, 1, 1, 0, 0, 1)

  lemma EndlessAccepted()
    ensures Enqueue(SLOW_BOARD, Initial(1), ENDLESS, 0) == EnqueueOutcome(Accepted, ENDLESS_ARMED)
  {
    assert AxisFits(SLOW_BOARD, 0, ENDLESS.duration);
    assert Initial(1).axes == [ZERO_AXIS];
  }

  lemma EndlessStarts()
    ensures Tick(SLOW_BOARD, ENDLESS_ARMED, GOOD_IO, 100000) == TickOutcome(ENDLESS_RUNNING, true)
  {
    OneAxisTick(SLOW_BOARD, ENDLESS_ARMED, 100000, 0, AxisStep(ENDLESS_RUNNING.axes[0], 0, NoFault));
  }

  lemma EndlessStops()
    ensures Tick(SLOW_BOARD, ENDLESS_RUNNING, GOOD_IO, 1100000).queue.fault == Underrun
  {
    OneAxisTick(SLOW_BOARD, ENDLESS_RUNNING, 1100000, 1000000, AxisStep(ENDLESS_RUNNING.axes[0], 0, NoFault));
  }

  /** The late limit of a segment within one timer period of the end of time wraps to a small number,
      so the second tick of a punctual timer stops a segment that has just begun. */
  lemma LateCheckWraps()
    ensures ENDLESS.duration + Period(SLOW_BOARD) > U64_MAX && Period(SLOW_BOARD) == 1000000
    ensures Enqueue(SLOW_BOARD, Initial(1), ENDLESS, 0) == EnqueueOutcome(Accepted, ENDLESS_ARMED)
    ensures Tick(SLOW_BOARD, ENDLESS_ARMED, GOOD_IO, 100000).queue == ENDLESS_RUNNING
    ensures Tick(SLOW_BOARD, ENDLESS_RUNNING, GOOD_IO, 1100000).queue.fault == Underrun
  {
    EndlessAccepted();
    EndlessStarts();
    EndlessStops();
  }

  // ---------------------------------------------------------------- segments shorter than a period

  /** Segment k of a program of still segments one nanosecond long. */
  function Tiny(k: u32): Segment
    requires 0 < k <= 3
  {
    Segment(k, 99999 + k, 1, false, [0])
  }

  const ONE_STEP := Segment(4, 100003, 2000000, true, [1])
  const CROWDED := [Tiny(1), Tiny(2), Tiny(3), ONE_STEP]

  /** The program after `done` of its segments have been accepted. */
  function Loaded(done: u16): Queue
    requires 1 <= done <= 4
  {
    OneAxis(CROWDED[..done], ZERO_AXIS, Armed, 0, if done == 4 then 2100003 else 100000 + done, done, done, 0, 0, done)
  }

  lemma CrowdedAccepted()
    ensures Enqueue(SLOW_BOARD, Initial(1), Tiny(1), 0) == EnqueueOutcome(Accepted, Loaded(1))
    ensures Enqueue(SLOW_BOARD, Loaded(1), Tiny(2), 0) == EnqueueOutcome(Accepted, Loaded(2))
    ensures Enqueue(SLOW_BOARD, Loaded(2), Tiny(3), 0) == EnqueueOutcome(Accepted, Loaded(3))
    ensures Enqueue(SLOW_BOARD, Loaded(3), ONE_STEP, 0) == EnqueueOutcome(Accepted, Loaded(4))
  {
    assert AxisFits(SLOW_BOARD, 0, 1) && AxisFits(SLOW_BOARD, 1, 2000000);
    assert Initial(1).axes == [ZERO_AXIS];
    assert CROWDED[..1] == [Tiny(1)] && CROWDED[..2] == CROWDED[..1] + [Tiny(2)];
    assert CROWDED[..3] == CROWDED[..2] + [Tiny(3)] && CROWDED[..4] == CROWDED[..3] + [ONE_STEP];
  }

  /** The program armed again after `done` of its segments were completed, one a tick. */
  function Lagging(done: u16): Queue
    requires 1 <= done <= 3
  {
    OneAxis(CROWDED[done..], StartedAxis(ZERO_AXIS, 0), Armed, 100000 + done, 2100003, 4, 4, done, 0, 4)
  }

  const CROWDED_RUNNING := Loaded(4).(axes := [StartedAxis(ZERO_AXIS, 0)], mode := Running, lastTick := 100000)

  lemma CrowdedGoesOn()
    ensures Finish(SLOW_BOARD, CROWDED_RUNNING, Tiny(1), 100000) == CROWDED_RUNNING
  {
  }

  /** The tick at the very start of a segment without steps only arms the axis. */
  lemma StartsStill(c: Config, q: Queue, now: u64)
    requires Shaped(q) && q.axes == [ZERO_AXIS] && |q.segments| > 0 && q.fault == NoFault && q.mode == Armed
    requires q.segments[0].steps == [0] && q.segments[0].start == now
    ensures Tick(c, q, GOOD_IO, now).queue ==
            Finish(c, q.(axes := [StartedAxis(ZERO_AXIS, 0)], mode := Running, lastTick := now), q.segments[0], now)
  {
    OneAxisTick(c, q, now, 0, AxisStep(StartedAxis(ZERO_AXIS, 0), 0, NoFault));
  }

  lemma CrowdedStarts()
    ensures Tick(SLOW_BOARD, Loaded(4), GOOD_IO, 100000).queue == CROWDED_RUNNING
  {
    CrowdedGoesOn();
    StartsStill(SLOW_BOARD, Loaded(4), 100000);
  }

  lemma CrowdedCompletesFirst()
    ensures Tick(SLOW_BOARD, CROWDED_RUNNING, GOOD_IO, 1100000).queue == Lagging(1)
  {
    var started := StartedAxis(ZERO_AXIS, 0);
    OneAxisTick(SLOW_BOARD, CROWDED_RUNNING, 1100000, 1, AxisStep(started, 0, NoFault));
  }

  /** A late tick completes a segment of one nanosecond without steps. */
  lemma TinyCompletes(c: Config, q: Queue, now: u64)
    requires Shaped(q) && q.axes == [StartedAxis(ZERO_AXIS, 0)] && |q.segments| > 1 && q.fault == NoFault
    requires q.mode == Armed && now > q.segments[0].start
    requires q.segments[0].steps == [0] && q.segments[0].duration == 1 && !q.segments[0].final
    ensures Tick(c, q, GOOD_IO, now).queue ==
            q.(segments := q.segments[1..], mode := Armed, lastTick := q.segments[0].End(),
               lastCompleted := q.segments[0].sequence, completed := Wrap64(q.completed + 1))
  {
    OneAxisTick(c, q, now, 1, AxisStep(StartedAxis(ZERO_AXIS, 0), 0, NoFault));
  }

  lemma LaggingShape(done: u16)
    requires 1 <= done <= 2
    ensures Shaped(Lagging(done)) && |CROWDED[done..]| > 1 && CROWDED[done..][0] == Tiny(done + 1)
    ensures CROWDED[done..][1..] == CROWDED[done + 1..]
  {
  }

  lemma CrowdedLags(done: u16)
    requires 1 <= done <= 2
    ensures Tick(SLOW_BOARD, Lagging(done), GOOD_IO, 100000 + (done + 1) * 1000000).queue == Lagging(done + 1)
  {
    LaggingShape(done);
    var q := Lagging(done);
    TinyCompletes(SLOW_BOARD, q, 100000 + (done + 1) * 1000000);
  }

  lemma CrowdedFails()
    ensures Tick(SLOW_BOARD, Lagging(3), GOOD_IO, 4100000).queue.fault == Underrun
  {
    var begun := StartedAxis(ZERO_AXIS, 1);
    var stepped := Axis(1, 0, 1, 1, true, true, true);
    assert CROWDED[3..] == [ONE_STEP];
    OneAxisTick(SLOW_BOARD, Lagging(3), 4100000, 2000000, AxisStep(stepped, 1, NoFault));
  }

  /** Segments shorter than a timer period pass every admission check, but a tick completes only one of
      them: on a punctual timer the step that follows is taken to be late, and the queue faults. */
  lemma ShortSegmentsFallBehind()
    ensures Tiny(1).duration < Period(SLOW_BOARD) && ONE_STEP.duration == 2 * Period(SLOW_BOARD)
    ensures Enqueue(SLOW_BOARD, Initial(1), Tiny(1), 0).queue == Loaded(1)
    ensures Enqueue(SLOW_BOARD, Loaded(1), Tiny(2), 0).queue == Loaded(2)
    ensures Enqueue(SLOW_BOARD, Loaded(2), Tiny(3), 0).queue == Loaded(3)
    ensures Enqueue(SLOW_BOARD, Loaded(3), ONE_STEP, 0).queue == Loaded(4)
    ensures Tick(SLOW_BOARD, Loaded(4), GOOD_IO, 100000).queue == CROWDED_RUNNING
    ensures Tick(SLOW_BOARD, CROWDED_RUNNING, GOOD_IO, 1100000).queue == Lagging(1)
    ensures Tick(SLOW_BOARD, Lagging(1), GOOD_IO, 2100000).queue == Lagging(2)
    ensures Tick(SLOW_BOARD, Lagging(2), GOOD_IO, 3100000).queue == Lagging(3)
    ensures Tick(SLOW_BOARD, Lagging(3), GOOD_IO, 4100000).queue.fault == Underrun
  {
    CrowdedAccepted();
    CrowdedStarts();
    CrowdedCompletesFirst();
    CrowdedLags(1);
    CrowdedLags(2);
    CrowdedFails();
  }
}
