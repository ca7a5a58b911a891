/** The event-timeline motion executor of mock_mcu/src/motion_executor.cpp, as functions on its state.
    The class in MockMotionExecutor.dfy is proved to follow them. */
module MockMotion {
  import opened FixedWidth

  datatype AxisConfig = AxisConfig(resourceId: u32, maximumRate: u32, pulseWidth: u32, minimumLow: u32, setup: u32)

  datatype Move = Move(resourceId: u32, steps: i32)

  datatype Segment = Segment(sequence: u32, start: u64, duration: u64, final: bool, axes: seq<Move>) {
    function End(): int {
      start + duration
    }
  }

  datatype Signal = Enable | Direction | StepLine

  /** The global time and the local tick of an edge are always equal in the source; one field holds both. */
  datatype Edge = Edge(time: u64, axis: u32, signal: Signal, level: bool)

  datatype Mode = Idle | Armed | Running | Faulted

  datatype Fault = NoFault | Aborted | LimitTriggered | QueueUnderrun

  datatype Axis = Axis(config: AxisConfig, enabled: bool, positive: bool, level: bool, position: int, emittedSteps: nat)

  datatype MoveState = MoveState(move: Move, count: u64, rises: u64, falls: u64, controls: bool)

  datatype SegmentState = SegmentState(segment: Segment, moves: seq<MoveState>)

  datatype Metrics = Metrics(
    accepted: nat, rejected: nat, completed: nat, edges: nat, steps: nat,
    safetyStops: nat, limitStops: nat, underruns: nat, maximumDepth: nat)

  datatype Executor = Executor(
    capacity: nat, lead: u64, axes: seq<Axis>, queue: seq<SegmentState>,
    now: u64, nextAvailable: u64, lastAccepted: u32, lastCompleted: u32,
    mode: Mode, fault: Fault, metrics: Metrics)

  datatype Error =
    | InvalidConfiguration | InvalidSegment | InvalidAxis | DuplicateAxis | SequenceMismatch
    | SegmentLate | SegmentOverlap | QueueFull | RateExceeded | FaultLatched | TimeWentBackwards

  // ---------------------------------------------------------------- configuration

  const NANOSECONDS_PER_SECOND: int := 1000000000

  predicate ConfigOk(config: AxisConfig) {
    && config.resourceId != 0 && config.maximumRate != 0 && config.pulseWidth != 0
    && config.minimumLow != 0 && config.setup != 0
    && config.maximumRate * (config.pulseWidth + config.minimumLow) <= NANOSECONDS_PER_SECOND
  }

  predicate ConfigsOk(configs: seq<AxisConfig>, capacity: nat, lead: u64) {
    && 0 < |configs| <= 64 && 0 < capacity <= 1024 && lead != 0
    && (forall config <- configs :: ConfigOk(config))
    && (forall i, j | 0 <= i < j < |configs| :: configs[i].resourceId != configs[j].resourceId)
  }

  function Initial(configs: seq<AxisConfig>, capacity: nat, lead: u64): Executor {
    Executor(capacity, lead,
             seq(|configs|, i requires 0 <= i < |configs| => Axis(configs[i], false, false, false, 0, 0)),
             [], 0, 0, 0, 0, Idle, NoFault, Metrics(0, 0, 0, 0, 0, 0, 0, 0, 0))
  }

  /** The place of an axis in the table, or the table's length. */
  function IndexOf(axes: seq<Axis>, resourceId: u32): (i: nat)
    ensures i <= |axes|
    ensures i < |axes| ==> axes[i].config.resourceId == resourceId
    ensures forall j | 0 <= j < i :: axes[j].config.resourceId != resourceId
  {
    if axes == [] then 0
    else if axes[0].config.resourceId == resourceId then 0
    else
      var rest := IndexOf(axes[1..], resourceId);
      assert forall j | 0 < j < 1 + rest :: axes[j] == axes[1..][j - 1];
      1 + rest
  }

  // ---------------------------------------------------------------- arithmetic of the timeline

  function InterpolateOffset(span: u64, index: u64, denominator: u64): u64 {
    if denominator == 0 then 0
    else
      Wrap64(Wrap64((span / denominator) * index) + Wrap64((span % denominator) * index) / denominator)
  }

  function RateAllows(count: u64, duration: u64, rate: u32): bool
    requires rate != 0
  {
    var wholeSeconds := duration / NANOSECONDS_PER_SECOND;
    var remaining := duration % NANOSECONDS_PER_SECOND;
    if wholeSeconds > count / rate then true
    else
      count <= Wrap64(Wrap64(wholeSeconds * rate) + Wrap64(remaining * rate) / NANOSECONDS_PER_SECOND)
  }

  predicate MoveAllowed(config: AxisConfig, count: u64, duration: u64)
    requires config.maximumRate != 0 && config.pulseWidth + config.minimumLow != 0
  {
    count == 0 ||
    var available := if duration > config.setup then duration - config.setup else 0;
    var minimumPeriod := config.pulseWidth + config.minimumLow;
    && available >= config.pulseWidth
    && count <= available / minimumPeriod + 1
    && RateAllows(count, duration, config.maximumRate)
  }

  function FirstRise(config: AxisConfig, segment: Segment): u64 {
    Wrap64(segment.start + config.setup)
  }

  function LastRise(config: AxisConfig, segment: Segment): u64 {
    Wrap64(Wrap64(segment.start + segment.duration) - config.pulseWidth)
  }

  function RiseSpan(config: AxisConfig, segment: Segment): u64 {
    Wrap64(LastRise(config, segment) - FirstRise(config, segment))
  }

  /** The time of rise `index` of a move with `count` steps, in 64-bit arithmetic. */
  function RiseTime(config: AxisConfig, segment: Segment, count: u64, index: u64): u64
    requires count > 0
  {
    Wrap64(FirstRise(config, segment) +
           (if count == 1 then 0 else InterpolateOffset(RiseSpan(config, segment), index, count - 1)))
  }

  function FallTime(config: AxisConfig, segment: Segment, count: u64, index: u64): u64
    requires count > 0
  {
    Wrap64(RiseTime(config, segment, count, index) + config.pulseWidth)
  }

  // ---------------------------------------------------------------- edge order

  function EdgeOrder(edge: Edge): nat {
    match edge.signal
    case StepLine => if edge.level then 3 else 0
    case Enable => 1
    case Direction => 2
  }

  predicate EdgeLess(left: Edge, right: Edge) {
    if left.time != right.time then left.time < right.time
    else if EdgeOrder(left) != EdgeOrder(right) then EdgeOrder(left) < EdgeOrder(right)
    else left.axis < right.axis
  }

  /** Insert before the first edge that is not smaller. */
  function Insert(edge: Edge, sorted: seq<Edge>): seq<Edge> {
    if sorted == [] || !EdgeLess(sorted[0], edge) then [edge] + sorted
    else [sorted[0]] + Insert(edge, sorted[1..])
  }

  function SortEdges(edges: seq<Edge>): seq<Edge> {
    if edges == [] then [] else Insert(edges[0], SortEdges(edges[1..]))
  }

  // ---------------------------------------------------------------- enqueue

  datatype EnqueueOutcome = Accepted(executor: Executor, segment: Segment) | Rejected(executor: Executor, error: Error)

  datatype Verdict = Fine | Bad(error: Error)

  predicate Configured(axes: seq<Axis>) {
    forall i | 0 <= i < |axes| :: ConfigOk(axes[i].config)
  }

  function CheckMove(axes: seq<Axis>, duration: u64, moves: seq<Move>, i: nat): Verdict
    requires i < |moves| && Configured(axes)
  {
    if exists j | 0 <= j < i :: moves[j].resourceId == moves[i].resourceId then Bad(DuplicateAxis)
    else
      var index := IndexOf(axes, moves[i].resourceId);
      if index == |axes| then Bad(InvalidAxis)
      else if !MoveAllowed(axes[index].config, AbsoluteSteps(moves[i].steps), duration) then Bad(RateExceeded)
      else Fine
  }

  function CheckMoves(axes: seq<Axis>, duration: u64, moves: seq<Move>, i: nat): Verdict
    requires i <= |moves| && Configured(axes)
    decreases |moves| - i
  {
    if i == |moves| then Fine
    else
      var v := CheckMove(axes, duration, moves, i);
      if v.Bad? then v else CheckMoves(axes, duration, moves, i + 1)
  }

  function FreshMoves(moves: seq<Move>): seq<MoveState> {
    seq(|moves|, i requires 0 <= i < |moves| => MoveState(moves[i], AbsoluteSteps(moves[i].steps), 0, 0, false))
  }

  function EarliestStart(e: Executor, now: u64): u64 {
    if now > U64_MAX - e.lead then U64_MAX else now + e.lead
  }

  function Scheduled(e: Executor, segment: Segment, now: u64): Segment {
    if segment.start != 0 then segment
    else segment.(start := Max(EarliestStart(e, now), e.nextAvailable))
  }

  function Schedule(e: Executor, request: Segment, now: u64): Verdict
    requires Configured(e.axes)
  {
    if e.fault != NoFault then Bad(FaultLatched)
    else if now < e.now then Bad(TimeWentBackwards)
    else if |e.queue| >= e.capacity then Bad(QueueFull)
    else if |e.queue| > 0 && e.queue[|e.queue| - 1].segment.final then Bad(InvalidSegment)
    else if request.sequence == 0 || request.sequence != Wrap32(e.lastAccepted + 1) then Bad(SequenceMismatch)
    else if request.duration == 0 || |request.axes| != |e.axes| then Bad(InvalidSegment)
    else if request.start != 0 && (request.start < now || request.start - now < e.lead) then Bad(SegmentLate)
    else
      var segment := Scheduled(e, request, now);
      if |e.queue| > 0 && segment.start != e.nextAvailable then Bad(SegmentOverlap)
      else if segment.start > U64_MAX - segment.duration then Bad(InvalidSegment)
      else CheckMoves(e.axes, segment.duration, segment.axes, 0)
  }

  function Enqueue(e: Executor, request: Segment, now: u64): EnqueueOutcome
    requires Configured(e.axes)
  {
    var verdict := Schedule(e, request, now);
    if verdict.Bad? then
      Rejected(e.(metrics := e.metrics.(rejected := e.metrics.rejected + 1)), verdict.error)
    else
      var segment := Scheduled(e, request, now);
      Accepted(Append(e, segment), segment)
  }

  function Append(e: Executor, segment: Segment): Executor
    requires segment.End() <= U64_MAX
  {
    e.(nextAvailable := segment.End(),
       lastAccepted := segment.sequence,
       queue := e.queue + [SegmentState(segment, FreshMoves(segment.axes))],
       mode := Armed,
       metrics := e.metrics.(accepted := e.metrics.accepted + 1,
                             maximumDepth := Max(e.metrics.maximumDepth, |e.queue| + 1)))
  }

  // ---------------------------------------------------------------- edges of a segment

  /** The rises from `index` on whose time has come. */
  function Rises(config: AxisConfig, segment: Segment, move: MoveState, index: u64, until: u64): seq<Edge>
    decreases move.count - index
  {
    if index < move.count && RiseTime(config, segment, move.count, index) <= until then
      [Edge(RiseTime(config, segment, move.count, index), move.move.resourceId, StepLine, true)]
      + Rises(config, segment, move, index + 1, until)
    else []
  }

  function Falls(config: AxisConfig, segment: Segment, move: MoveState, index: u64, until: u64): seq<Edge>
    decreases move.count - index
  {
    if index < move.count && FallTime(config, segment, move.count, index) <= until then
      [Edge(FallTime(config, segment, move.count, index), move.move.resourceId, StepLine, false)]
      + Falls(config, segment, move, index + 1, until)
    else []
  }

  /** The enable and direction edges that open a move, if they are due and change anything. */
  function Controls(axis: Axis, segment: Segment, move: MoveState, until: u64): seq<Edge> {
    if move.controls || until < segment.start then []
    else
      (if !axis.enabled then [Edge(segment.start, move.move.resourceId, Enable, true)] else [])
      + (if axis.positive != (move.move.steps >= 0)
         then [Edge(segment.start, move.move.resourceId, Direction, move.move.steps >= 0)] else [])
  }

  function MoveEdges(axis: Axis, segment: Segment, move: MoveState, until: u64): seq<Edge> {
    if move.count == 0 then []
    else
      Controls(axis, segment, move, until)
      + Rises(axis.config, segment, move, move.rises, until)
      + Falls(axis.config, segment, move, move.falls, until)
  }

  function Served(axis: Axis, segment: Segment, move: MoveState, until: u64): MoveState {
    if move.count == 0 then move
    else
      RisesBound(axis.config, segment, move, move.rises, until);
      FallsBound(axis.config, segment, move, move.falls, until);
      move.(rises := move.rises + |Rises(axis.config, segment, move, move.rises, until)|,
            falls := move.falls + |Falls(axis.config, segment, move, move.falls, until)|,
            controls := move.controls || until >= segment.start)
  }

  lemma {:induction false} RisesBound(config: AxisConfig, segment: Segment, move: MoveState, index: u64, until: u64)
    ensures |Rises(config, segment, move, index, until)| <= Max(0, move.count - index)
    decreases move.count - index
  {
    if index < move.count && RiseTime(config, segment, move.count, index) <= until {
      RisesBound(config, segment, move, index + 1, until);
    }
  }

  lemma {:induction false} FallsBound(config: AxisConfig, segment: Segment, move: MoveState, index: u64, until: u64)
    ensures |Falls(config, segment, move, index, until)| <= Max(0, move.count - index)
    decreases move.count - index
  {
    if index < move.count && FallTime(config, segment, move.count, index) <= until {
      FallsBound(config, segment, move, index + 1, until);
    }
  }

  /** Every axis named by the moves is in the table. */
  predicate Known(axes: seq<Axis>, moves: seq<MoveState>) {
    forall m <- moves :: IndexOf(axes, m.move.resourceId) < |axes|
  }

  function AxisOf(axes: seq<Axis>, move: MoveState): Axis
    requires IndexOf(axes, move.move.resourceId) < |axes|
  {
    axes[IndexOf(axes, move.move.resourceId)]
  }

  function RawEdges(axes: seq<Axis>, segment: Segment, moves: seq<MoveState>, until: u64): seq<Edge>
    requires Known(axes, moves)
  {
    if moves == [] then []
    else MoveEdges(AxisOf(axes, moves[0]), segment, moves[0], until) + RawEdges(axes, segment, moves[1..], until)
  }

  function ServedMoves(axes: seq<Axis>, segment: Segment, moves: seq<MoveState>, until: u64): seq<MoveState>
    requires Known(axes, moves)
  {
    if moves == [] then []
    else [Served(AxisOf(axes, moves[0]), segment, moves[0], until)] + ServedMoves(axes, segment, moves[1..], until)
  }

  // ---------------------------------------------------------------- applying edges

  function ApplyToAxis(axis: Axis, edge: Edge): Axis {
    match edge.signal
    case Enable => axis.(enabled := edge.level)
    case Direction => axis.(positive := edge.level)
    case StepLine =>
      if edge.level then
        axis.(level := true, position := axis.position + (if axis.positive then 1 else -1),
              emittedSteps := axis.emittedSteps + 1)
      else axis.(level := false)
  }

  function ApplyEdge(axes: seq<Axis>, edge: Edge): seq<Axis> {
    var i := IndexOf(axes, edge.axis);
    if i == |axes| then axes else axes[i := ApplyToAxis(axes[i], edge)]
  }

  function ApplyEdges(axes: seq<Axis>, edges: seq<Edge>): seq<Axis>
    decreases |edges|
  {
    if edges == [] then axes else ApplyEdges(ApplyEdge(axes, edges[0]), edges[1..])
  }

  function CountRises(edges: seq<Edge>): nat {
    if edges == [] then 0
    else (if edges[0].signal == StepLine && edges[0].level then 1 else 0) + CountRises(edges[1..])
  }

  /** Apply edges and count them. */
  function Emit(e: Executor, edges: seq<Edge>): Executor {
    e.(axes := ApplyEdges(e.axes, edges),
       metrics := e.metrics.(edges := e.metrics.edges + |edges|, steps := e.metrics.steps + CountRises(edges)))
  }

  // ---------------------------------------------------------------- advancing

  datatype Output = Output(executor: Executor, edges: seq<Edge>)

  /** Bring the front segment up to a time no later than its end. */
  function Collect(e: Executor, until: u64): Output
    requires |e.queue| > 0 && Known(e.axes, e.queue[0].moves)
    requires e.queue[0].segment.End() <= U64_MAX
  {
    var front := e.queue[0];
    var effective := Min(until, front.segment.End());
    var edges := SortEdges(RawEdges(e.axes, front.segment, front.moves, effective));
    var served := front.(moves := ServedMoves(e.axes, front.segment, front.moves, effective));
    Output(Emit(e.(mode := Running, queue := e.queue[0 := served]), edges), edges)
  }

  function SafeEdges(axes: seq<Axis>, at: u64): seq<Edge> {
    if axes == [] then []
    else
      (if axes[0].level then [Edge(at, axes[0].config.resourceId, StepLine, false)] else [])
      + (if axes[0].enabled then [Edge(at, axes[0].config.resourceId, Enable, false)] else [])
      + SafeEdges(axes[1..], at)
  }

  /** Drop the queue, stop every output, and latch the fault, if any. */
  function EnterSafe(e: Executor, at: u64, fault: Fault): Output {
    var edges := SortEdges(SafeEdges(e.axes, at));
    var stopped :=
      e.(queue := [], nextAvailable := at,
         mode := if fault == NoFault then Idle else Faulted, fault := fault,
         metrics := if fault == NoFault then e.metrics
                    else e.metrics.(safetyStops := e.metrics.safetyStops + 1));
    Output(Emit(stopped, edges), edges)
  }

  function PopFront(e: Executor): Executor
    requires |e.queue| > 0
  {
    e.(queue := e.queue[1..], lastCompleted := e.queue[0].segment.sequence,
       metrics := e.metrics.(completed := e.metrics.completed + 1))
  }

  /** The last segment is done: a final one leaves the executor idle, any other one starves it. */
  function Conclude(popped: Executor, final: bool, end: u64, edges: seq<Edge>): Output {
    var counted :=
      if final then popped
      else popped.(metrics := popped.metrics.(underruns := popped.metrics.underruns + 1));
    var safe := EnterSafe(counted, end, if final then NoFault else QueueUnderrun);
    Output(safe.executor, edges + safe.edges)
  }

  ghost predicate Ready(e: Executor) {
    forall s <- e.queue :: Known(e.axes, s.moves) && s.segment.End() <= U64_MAX
  }

  /** The loop of advance_to. */
  function AdvanceLoop(e: Executor, now: u64): Output
    requires Ready(e)
    decreases |e.queue|
  {
    if |e.queue| == 0 || now < e.queue[0].segment.start then Output(e, [])
    else
      var collected := Collect(e, now);
      var end := e.queue[0].segment.End();
      if now < end then collected
      else
        var popped := PopFront(collected.executor);
        if e.queue[0].segment.final || popped.queue == [] then
          Conclude(popped, e.queue[0].segment.final, end, collected.edges)
        else
          ApplyKeepsKnown(e, collected.edges);
          var rest := AdvanceLoop(popped, now);
          Output(rest.executor, collected.edges + rest.edges)
  }

  /** Applying edges keeps the configuration of every axis, and so the axes that moves refer to. */
  lemma {:induction false} ApplyKeepsConfigs(axes: seq<Axis>, edges: seq<Edge>)
    ensures |ApplyEdges(axes, edges)| == |axes|
    ensures forall i | 0 <= i < |axes| :: ApplyEdges(axes, edges)[i].config == axes[i].config
    decreases |edges|
  {
    if edges != [] {
      ApplyKeepsConfigs(ApplyEdge(axes, edges[0]), edges[1..]);
    }
  }

  lemma {:induction false} IndexOfConfigs(a: seq<Axis>, b: seq<Axis>, resourceId: u32)
    requires |a| == |b| && forall i | 0 <= i < |a| :: a[i].config == b[i].config
    ensures IndexOf(a, resourceId) == IndexOf(b, resourceId)
  {
    var i, j := IndexOf(a, resourceId), IndexOf(b, resourceId);
    assert i < |a| ==> b[i].config == a[i].config;
    assert j < |b| ==> a[j].config == b[j].config;
  }

  lemma ApplyKeepsKnown(e: Executor, edges: seq<Edge>)
    requires Ready(e)
    ensures var axes := ApplyEdges(e.axes, edges); forall s <- e.queue :: Known(axes, s.moves)
  {
    var axes := ApplyEdges(e.axes, edges);
    ApplyKeepsConfigs(e.axes, edges);
    forall s, m | s in e.queue && m in s.moves
      ensures IndexOf(axes, m.move.resourceId) < |axes|
    {
      IndexOfConfigs(axes, e.axes, m.move.resourceId);
    }
  }

  datatype AdvanceOutcome = Advanced(output: Output) | Thrown(executor: Executor, error: Error)

  function Settle(e: Executor, now: u64): Executor {
    e.(now := now,
       mode := if e.queue == [] && e.fault == NoFault && e.mode != Faulted then Idle else e.mode)
  }

  function AdvanceTo(e: Executor, now: u64): AdvanceOutcome
    requires Ready(e)
  {
    if now < e.now then Thrown(e, TimeWentBackwards)
    else
      var looped := AdvanceLoop(e, now);
      Advanced(Output(Settle(looped.executor, now), SortEdges(looped.edges)))
  }

  function Abort(e: Executor, now: u64, fault: Fault): AdvanceOutcome
    requires Ready(e)
  {
    if fault == NoFault || fault == QueueUnderrun then Thrown(e, InvalidSegment)
    else if e.fault != NoFault then Thrown(e, FaultLatched)
    else
      var advanced := AdvanceTo(e, now);
      if advanced.Thrown? then advanced
      else
        var safe := EnterSafe(advanced.output.executor, now, fault);
        Advanced(Output(safe.executor, SortEdges(advanced.output.edges + safe.edges)))
  }

  function TriggerLimit(e: Executor, resourceId: u32, now: u64): AdvanceOutcome
    requires Ready(e)
  {
    if IndexOf(e.axes, resourceId) == |e.axes| then
      Thrown(e.(metrics := e.metrics.(rejected := e.metrics.rejected + 1)), InvalidAxis)
    else
      Abort(e.(metrics := e.metrics.(limitStops := e.metrics.limitStops + 1)), now, LimitTriggered)
  }

  function ClearFault(e: Executor): AdvanceOutcome {
    if e.queue != [] then Thrown(e, FaultLatched)
    else Advanced(Output(e.(fault := NoFault, mode := Idle, nextAvailable := e.now), []))
  }
}
