/** The timed segment queue and division-free DDA of firmware/src/motion.c, as functions on an
    abstract queue state.  The ring buffer of the source is seen here as the list of its segments;
    the class in FirmwareMotionQueue.dfy keeps the ring and is proved to follow these functions. */
module FirmwareMotion {
  import opened FixedWidth

  datatype BuildConfig = BuildConfig(timerHz: u32, depth: u16, leadUs: u32)

  /** The build options.  motion.h demands a depth of at least two, and the source divides by half
      the timer frequency. */
  type Config = c: BuildConfig | 2 <= c.timerHz && 2 <= c.depth
    witness BuildConfig(100000, 8, 2000)

  datatype Mode = Idle | Armed | Running | Faulted

  datatype Fault = NoFault | Aborted | LimitHit | Underrun

  datatype Segment = Segment(sequence: u32, start: u64, duration: u64, final: bool, steps: seq<i32>) {
    function End(): int {
      start + duration
    }
  }

  datatype Axis = Axis(
    emitted: u64, phase: u64, emittedSteps: u64, position: int,
    stepHigh: bool, enabled: bool, positive: bool)

  /** `discarded` is a history variable: the number of segments thrown away by aborts. */
  datatype Queue = Queue(
    segments: seq<Segment>, axes: seq<Axis>,
    lastAccepted: u32, lastCompleted: u32, nextAvailable: u64,
    mode: Mode, fault: Fault, lastTick: u64,
    accepted: u64, rejected: u64, completed: u64, edges: u64,
    safetyStops: u64, limitStops: u64, underruns: u64, maximumDepth: u16,
    discarded: nat)

  const ZERO_AXIS := Axis(0, 0, 0, 0, false, false, false)

  function Initial(axisCount: u8): Queue {
    Queue([], seq(axisCount, _ => ZERO_AXIS), 0, 0, 0, Idle, NoFault, 0,
          0, 0, 0, 0, 0, 0, 0, 0, 0)
  }

  // ---------------------------------------------------------------- admission

  function EarliestStart(c: Config, now: u64): u64 {
    var lead := c.leadUs * 1000;
    if U64_MAX - now < lead then U64_MAX else now + lead
  }

  function MaximumSteps(c: Config, duration: u64): u64 {
    var wholeSeconds := duration / 1000000000;
    var remainder := duration % 1000000000;
    var halfRate := c.timerHz / 2;
    if wholeSeconds > U64_MAX / halfRate then U64_MAX
    else
      WholeSecondsFit(wholeSeconds, halfRate);
      var whole := wholeSeconds * halfRate;
      var partial := (remainder * c.timerHz) / 2000000000;
      if U64_MAX - whole < partial then U64_MAX else whole + partial
  }

  lemma WholeSecondsFit(wholeSeconds: nat, halfRate: nat)
    requires halfRate > 0 && wholeSeconds <= U64_MAX / halfRate
    ensures 0 <= wholeSeconds * halfRate <= U64_MAX
  {
    assert halfRate * (U64_MAX / halfRate) <= U64_MAX;
    assert wholeSeconds * halfRate <= (U64_MAX / halfRate) * halfRate;
  }

  predicate AxisFits(c: Config, steps: i32, duration: u64) {
    var n := AbsoluteSteps(steps);
    n <= MaximumSteps(c, duration) && (n == 0 || duration <= U64_MAX / n)
  }

  datatype EnqueueCode =
    Accepted | Invalid | SequenceMismatch | Late | Discontinuous | Full | FaultLatched

  datatype EnqueueOutcome = EnqueueOutcome(code: EnqueueCode, queue: Queue)

  function ScheduledStart(c: Config, q: Queue, request: Segment, now: u64): u64 {
    if request.start != 0 then request.start
    else
      var earliest := EarliestStart(c, now);
      if q.nextAvailable > earliest then q.nextAvailable else earliest
  }

  function Enqueue(c: Config, q: Queue, request: Segment, now: u64): EnqueueOutcome {
    if request.sequence == 0 || request.duration == 0 || |request.steps| != |q.axes| ||
       U64_MAX - request.start < request.duration then
      EnqueueOutcome(Invalid, q)
    else
      var refused := q.(rejected := Wrap64(q.rejected + 1));
      if exists i | 0 <= i < |request.steps| :: !AxisFits(c, request.steps[i], request.duration) then
        EnqueueOutcome(Invalid, refused)
      else if q.fault != NoFault then
        EnqueueOutcome(FaultLatched, refused)
      else if |q.segments| >= c.depth then
        EnqueueOutcome(Full, refused)
      else if request.sequence != Wrap32(q.lastAccepted + 1) then
        EnqueueOutcome(SequenceMismatch, q)
      else if |q.segments| > 0 && q.segments[|q.segments| - 1].final then
        EnqueueOutcome(Invalid, q)
      else if request.start != 0 && request.start < EarliestStart(c, now) then
        EnqueueOutcome(Late, q)
      else
        var start := ScheduledStart(c, q, request, now);
        if |q.segments| > 0 && start != q.nextAvailable then
          EnqueueOutcome(Discontinuous, q)
        else if U64_MAX - start < request.duration then
          EnqueueOutcome(Invalid, q)
        else
          EnqueueOutcome(Accepted, Append(q, request.(start := start)))
  }

  function Append(q: Queue, value: Segment): Queue
    requires |q.segments| < U16_MAX && value.End() <= U64_MAX
  {
    q.(segments := q.segments + [value],
       lastAccepted := value.sequence,
       nextAvailable := value.End(),
       mode := Armed,
       accepted := Wrap64(q.accepted + 1),
       maximumDepth := Max(q.maximumDepth, |q.segments| + 1))
  }

  // ---------------------------------------------------------------- queue transitions

  function CompleteFront(q: Queue): Queue {
    if |q.segments| == 0 || q.fault != NoFault then q
    else
      var front := q.segments[0];
      var rest := q.segments[1..];
      var done := q.(lastCompleted := front.sequence, completed := Wrap64(q.completed + 1));
      if front.final then
        done.(segments := [], mode := Idle, discarded := q.discarded + |rest|)
      else if rest == [] then
        done.(segments := [], mode := Faulted, fault := Underrun,
              underruns := Wrap64(q.underruns + 1), safetyStops := Wrap64(q.safetyStops + 1))
      else
        done.(segments := rest, mode := Armed)
  }

  function Abort(q: Queue, fault: Fault): Queue {
    if fault == NoFault then q
    else
      q.(segments := [], mode := Faulted, fault := fault,
         safetyStops := Wrap64(q.safetyStops + 1),
         limitStops := if fault == LimitHit then Wrap64(q.limitStops + 1) else q.limitStops,
         discarded := q.discarded + |q.segments|)
  }

  function ClearFault(q: Queue, now: u64): Queue {
    if |q.segments| != 0 then q
    else q.(fault := NoFault, mode := Idle, nextAvailable := now)
  }

  // ---------------------------------------------------------------- outputs

  datatype LimitReading = ReadFails | Reads(active: bool)

  /** What the board's output functions answer during one tick.  Each answer that the source looks
      at is asked for at most once a tick, so a function of the call is fully general. */
  datatype Io = Io(
    enableWorks: (nat, bool) -> bool, directionWorks: (nat, bool) -> bool,
    stepWorks: (nat, bool) -> bool, hasLimits: bool, limit: nat -> LimitReading)

  /** A board whose outputs all work and that has no limit switches. */
  const GOOD_IO := Io((i, level) => true, (i, level) => true, (i, level) => true, false, i => Reads(false))

  /** What a loop over the axes may touch. */
  ghost predicate SameButAxes(before: Queue, after: Queue) {
    && |after.axes| == |before.axes|
    && after == before.(axes := after.axes, edges := after.edges)
  }

  function StopOutputs(q: Queue, i: nat): (r: Queue)
    requires i <= |q.axes|
    ensures SameButAxes(q, r)
    decreases |q.axes| - i
  {
    if i == |q.axes| then q
    else
      var a := q.axes[i];
      StopOutputs(
        q.(axes := q.axes[i := a.(stepHigh := false, enabled := false)],
           edges := if a.stepHigh then Wrap64(q.edges + 1) else q.edges), i + 1)
  }

  function SafeStop(q: Queue, fault: Fault): Queue {
    StopOutputs(Abort(q, fault), 0)
  }

  datatype LimitVerdict = Clear | Trip(fault: Fault)

  function CheckLimits(mode: Mode, io: Io, axisCount: nat, i: nat): (verdict: LimitVerdict)
    requires i <= axisCount
    ensures verdict.Trip? ==> verdict.fault == Aborted || (verdict.fault == LimitHit && mode == Running)
    decreases axisCount - i
  {
    if i == axisCount then Clear
    else
      match io.limit(i)
      case ReadFails => Trip(Aborted)
      case Reads(active) =>
        if active && mode == Running then Trip(LimitHit)
        else CheckLimits(mode, io, axisCount, i + 1)
  }

  /** A queue after a loop over the axes, and the fault that cut the loop short, if any. */
  datatype Pass = Pass(queue: Queue, fault: Fault)

  function SetDirections(q: Queue, io: Io, segment: Segment, i: nat): (r: Pass)
    requires i <= |q.axes| == |segment.steps|
    ensures SameButAxes(q, r.queue)
    decreases |q.axes| - i
  {
    if i == |q.axes| then Pass(q, NoFault)
    else
      var positive := segment.steps[i] >= 0;
      if !io.directionWorks(i, positive) then Pass(q, Aborted)
      else SetDirections(q.(axes := q.axes[i := q.axes[i].(positive := positive)]), io, segment, i + 1)
  }

  function SetEnables(q: Queue, io: Io, segment: Segment, i: nat): (r: Pass)
    requires i <= |q.axes| == |segment.steps|
    ensures SameButAxes(q, r.queue)
    decreases |q.axes| - i
  {
    if i == |q.axes| then Pass(q, NoFault)
    else
      var enabled := segment.steps[i] != 0;
      if q.axes[i].enabled == enabled then SetEnables(q, io, segment, i + 1)
      else if !io.enableWorks(i, enabled) then Pass(q, Aborted)
      else SetEnables(q.(axes := q.axes[i := q.axes[i].(enabled := enabled)]), io, segment, i + 1)
  }

  function ClearProgress(axes: seq<Axis>): seq<Axis> {
    seq(|axes|, i requires 0 <= i < |axes| => axes[i].(emitted := 0, phase := 0))
  }

  function BeginSegment(q: Queue, io: Io, segment: Segment): (r: Pass)
    requires |q.axes| == |segment.steps|
    ensures |r.queue.axes| == |q.axes|
  {
    var cleared := q.(axes := ClearProgress(q.axes), lastTick := segment.start);
    var directed := SetDirections(cleared, io, segment, 0);
    if directed.fault != NoFault then directed
    else
      var enabled := SetEnables(directed.queue, io, segment, 0);
      if enabled.fault != NoFault then enabled
      else Pass(enabled.queue.(mode := Running), NoFault)
  }

  // ---------------------------------------------------------------- the DDA

  datatype AxisStep = AxisStep(axis: Axis, edges: nat, fault: Fault)

  /** One axis in one tick: drop a high STEP line, advance the phase, and raise the line when a whole
      segment duration has accumulated. */
  function StepAxis(a: Axis, target: u64, duration: u64, delta: u64, lowWorks: bool, highWorks: bool)
    : AxisStep
  {
    if a.stepHigh && !lowWorks then AxisStep(a, 0, Aborted)
    else
      var dropped := if a.stepHigh then 1 else 0;
      var low := a.(stepHigh := false);
      var increment := if target != 0 && delta != 0 then Wrap64(target * delta) else 0;
      if target != 0 && delta != 0 && U64_MAX - low.phase < increment then
        AxisStep(low, dropped, Underrun)
      else
        var advanced := low.(phase := low.phase + increment);
        if advanced.emitted < target && advanced.phase >= duration then
          var spent := advanced.(phase := advanced.phase - duration);
          if !highWorks then AxisStep(spent, dropped, Aborted)
          else
            AxisStep(
              spent.(stepHigh := true, emitted := spent.emitted + 1,
                     emittedSteps := Wrap64(spent.emittedSteps + 1),
                     position := spent.position + (if spent.positive then 1 else -1)),
              dropped + 1, NoFault)
        else AxisStep(advanced, dropped, NoFault)
  }

  function StepAxisAt(q: Queue, io: Io, segment: Segment, delta: u64, i: nat): AxisStep
    requires i < |q.axes| == |segment.steps|
  {
    StepAxis(q.axes[i], AbsoluteSteps(segment.steps[i]), segment.duration, delta,
             io.stepWorks(i, false), io.stepWorks(i, true))
  }

  function RunAxes(q: Queue, io: Io, segment: Segment, delta: u64, i: nat): (r: Pass)
    requires i <= |q.axes| == |segment.steps|
    ensures SameButAxes(q, r.queue)
    decreases |q.axes| - i
  {
    if i == |q.axes| then Pass(q, NoFault)
    else
      var s := StepAxisAt(q, io, segment, delta, i);
      var next := q.(axes := q.axes[i := s.axis], edges := Wrap64(q.edges + s.edges));
      if s.fault != NoFault then Pass(next, s.fault)
      else RunAxes(next, io, segment, delta, i + 1)
  }

  predicate AxisDone(a: Axis, steps: i32) {
    a.emitted == AbsoluteSteps(steps) && !a.stepHigh
  }

  predicate AllEmitted(axes: seq<Axis>, segment: Segment)
    requires |axes| == |segment.steps|
  {
    forall i | 0 <= i < |axes| :: AxisDone(axes[i], segment.steps[i])
  }

  // ---------------------------------------------------------------- the tick

  function Elapsed(segment: Segment, now: u64): u64 {
    if now <= segment.start then 0 else now - segment.start
  }

  function TickTime(segment: Segment, now: u64): int {
    segment.start + Min(Elapsed(segment, now), segment.duration)
  }

  function Period(c: Config): nat {
    1000000000 / c.timerHz
  }

  /** Completion and the late check, once every axis has been served. */
  function Finish(c: Config, q: Queue, segment: Segment, now: u64): Queue
    requires |q.axes| == |segment.steps|
  {
    var elapsed := Elapsed(segment, now);
    if elapsed >= segment.duration && AllEmitted(q.axes, segment) then
      var done := CompleteFront(q);
      if segment.final || done.fault != NoFault then StopOutputs(done, 0) else done
    else if elapsed > Wrap64(segment.duration + Period(c)) then
      var stopped := Abort(q, Underrun);
      StopOutputs(stopped.(underruns := Wrap64(stopped.underruns + 1)), 0)
    else q
  }

  datatype TickOutcome = TickOutcome(queue: Queue, ok: bool)

  function RunTick(c: Config, q: Queue, io: Io, segment: Segment, now: u64): TickOutcome
    requires |q.axes| == |segment.steps| && segment.End() <= U64_MAX
  {
    var tickTime := TickTime(segment, now);
    var delta := if tickTime > q.lastTick then tickTime - q.lastTick else 0;
    var pass := RunAxes(q.(lastTick := tickTime), io, segment, delta, 0);
    if pass.fault != NoFault then TickOutcome(SafeStop(pass.queue, pass.fault), false)
    else TickOutcome(Finish(c, pass.queue, segment, now), true)
  }

  /** Every queued segment has one step count per axis, positive duration, and an end that fits. */
  predicate Shaped(q: Queue) {
    && |q.segments| <= U16_MAX
    && forall s <- q.segments :: |s.steps| == |q.axes| && s.duration > 0 && s.End() <= U64_MAX
  }

  function Tick(c: Config, q: Queue, io: Io, now: u64): TickOutcome
    requires Shaped(q)
  {
    if q.fault != NoFault then TickOutcome(StopOutputs(q, 0), true)
    else
      var limits := if io.hasLimits then CheckLimits(q.mode, io, |q.axes|, 0) else Clear;
      if limits.Trip? then TickOutcome(SafeStop(q, limits.fault), limits.fault == LimitHit)
      else if |q.segments| == 0 then TickOutcome(StopOutputs(q, 0), true)
      else
        var segment := q.segments[0];
        if q.mode != Armed then RunTick(c, q, io, segment, now)
        else if now < segment.start then TickOutcome(q, true)
        else
          var begun := BeginSegment(q, io, segment);
          if begun.fault != NoFault then TickOutcome(SafeStop(begun.queue, begun.fault), false)
          else RunTick(c, begun.queue, io, segment, now)
  }

  // ---------------------------------------------------------------- whole runs

  datatype Event =
    | EnqueueEvent(request: Segment, now: u64)
    | TickEvent(io: Io, now: u64)
    | AbortEvent(fault: Fault)
    | ClearFaultEvent(now: u64)
    | CompleteEvent

  function Step(c: Config, q: Queue, e: Event): Queue
    requires Shaped(q)
  {
    match e
    case EnqueueEvent(request, now) => Enqueue(c, q, request, now).queue
    case TickEvent(io, now) => Tick(c, q, io, now).queue
    case AbortEvent(fault) => Abort(q, fault)
    case ClearFaultEvent(now) => ClearFault(q, now)
    case CompleteEvent => CompleteFront(q)
  }
}
