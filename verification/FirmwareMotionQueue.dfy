/** The queue object of firmware/src/motion.c: a ring buffer of segments and one record per axis,
    updated in place.  Its methods follow the functions of FirmwareMotion. */
module FirmwareMotionQueue {
  import opened FixedWidth
  import Spec = FirmwareMotion
  import opened FirmwareMotionRing
  import opened FirmwareMotionPasses
  import FirmwareMotionEdges

  type Segment = Spec.Segment

  const ZERO_SEGMENT := Spec.Segment(0, 0, 0, false, [])

  // ---------------------------------------------------------------- the ring

  /** The slot i places behind the head. */
  function Slot(head: nat, i: nat, depth: nat): (slot: nat)
    requires head < depth && i <= depth
    ensures slot == if head + i < depth then head + i else head + i - depth
  {
    SlotFact(head, i, depth);
    (head + i) % depth
  }

  lemma SlotFact(head: nat, i: nat, depth: nat)
    requires head < depth && i <= depth
    ensures (head + i) % depth == if head + i < depth then head + i else head + i - depth
  {
    if head + i >= depth {
      assert (head + i - depth) % depth == head + i - depth;
      assert (head + i) == depth * 1 + (head + i - depth);
    }
  }

  ghost function RingList(buffer: seq<Segment>, head: nat, size: nat): (list: seq<Segment>)
    requires head < |buffer| && size <= |buffer|
    ensures |list| == size
  {
    seq(size, i requires 0 <= i < size => buffer[Slot(head, i, |buffer|)])
  }

  lemma RingAppend(buffer: seq<Segment>, head: nat, size: nat, value: Segment)
    requires head < |buffer| && size < |buffer|
    ensures RingList(buffer[Slot(head, size, |buffer|) := value], head, size + 1)
            == RingList(buffer, head, size) + [value]
  {
  }

  lemma RingPop(buffer: seq<Segment>, head: nat, size: nat, value: Segment)
    requires head < |buffer| && 0 < size <= |buffer|
    ensures RingList(buffer[head := value], Slot(head, 1, |buffer|), size - 1)
            == RingList(buffer, head, size)[1..]
  {
  }

  // ---------------------------------------------------------------- the loops

  /** One round of the DDA loop. */
  lemma RunAxesFrom(q: Spec.Queue, io: Spec.Io, segment: Segment, delta: u64, axis: nat, next: Spec.Queue)
    requires axis < |q.axes| == |segment.steps|
    requires var s := Spec.StepAxisAt(q, io, segment, delta, axis);
             next == q.(axes := q.axes[axis := s.axis], edges := Wrap64(q.edges + s.edges))
    ensures var s := Spec.StepAxisAt(q, io, segment, delta, axis);
            Spec.RunAxes(q, io, segment, delta, axis) ==
              if s.fault != Spec.NoFault then Spec.Pass(next, s.fault)
              else Spec.RunAxes(next, io, segment, delta, axis + 1)
  {
  }

  /** What follows the DDA loop of a tick. */
  lemma RunTickFrom(c: Spec.Config, q: Spec.Queue, io: Spec.Io, segment: Segment, now: u64, pass: Spec.Pass)
    requires |q.axes| == |segment.steps| && segment.End() <= U64_MAX
    requires var tickTime := Spec.TickTime(segment, now);
             var delta := if tickTime > q.lastTick then tickTime - q.lastTick else 0;
             pass == Spec.RunAxes(q.(lastTick := tickTime), io, segment, delta, 0)
    ensures Spec.RunTick(c, q, io, segment, now) ==
              if pass.fault != Spec.NoFault then Spec.TickOutcome(Spec.SafeStop(pass.queue, pass.fault), false)
              else Spec.TickOutcome(Spec.Finish(c, pass.queue, segment, now), true)
  {
  }

  // ---------------------------------------------------------------- the object

  class MotionQueue {
    const config: Spec.Config
    /** The source keeps one array per field of Spec.Axis. */
    const axes: array<Spec.Axis>
    const ring: array<Segment>
    var head: u16
    var size: u16
    var lastAccepted: u32
    var lastCompleted: u32
    var nextAvailable: u64
    var mode: Spec.Mode
    var fault: Spec.Fault
    var lastTick: u64
    var accepted: u64
    var rejected: u64
    var completed: u64
    var edges: u64
    var safetyStops: u64
    var limitStops: u64
    var underruns: u64
    var maximumDepth: u16
    ghost var discarded: nat

    ghost predicate Layout()
      reads this`head, this`size
    {
      ring.Length == config.depth && head < config.depth && size <= config.depth
    }

    ghost function Segments(): seq<Segment>
      requires Layout()
      reads this`head, this`size, ring
    {
      RingList(ring[..], head, size)
    }

    ghost function Axes(): seq<Spec.Axis>
      reads axes
    {
      axes[..]
    }

    ghost function View(): Spec.Queue
      requires Layout()
      reads this, ring, axes
    {
      Spec.Queue(
        Segments(), Axes(), lastAccepted, lastCompleted, nextAvailable,
        mode, fault, lastTick, accepted, rejected, completed, edges, safetyStops, limitStops,
        underruns, maximumDepth, discarded)
    }

    ghost predicate Valid()
      reads this, ring, axes
    {
      Layout() && RingInv(config, View())
    }

    constructor (config: Spec.Config, axisCount: u8)
      ensures Valid() && fresh(ring) && fresh(axes)
      ensures this.config == config && View() == Spec.Initial(axisCount)
    {
      this.config := config;
      ring := new Segment[config.depth](_ => ZERO_SEGMENT);
      axes := new Spec.Axis[axisCount](_ => Spec.ZERO_AXIS);
      head, size := 0, 0;
      lastAccepted, lastCompleted, nextAvailable, lastTick := 0, 0, 0, 0;
      mode, fault := Spec.Idle, Spec.NoFault;
      accepted, rejected, completed, edges := 0, 0, 0, 0;
      safetyStops, limitStops, underruns, maximumDepth := 0, 0, 0, 0;
      discarded := 0;
      new;
      assert axes[..] == seq(axisCount, _ => Spec.ZERO_AXIS);
      InitialRing(config, axisCount);
    }

    method StepsFit(request: Segment) returns (fit: bool)
      ensures fit <==> !exists i | 0 <= i < |request.steps| ::
                !Spec.AxisFits(config, request.steps[i], request.duration)
    {
      var maximumSteps := Spec.MaximumSteps(config, request.duration);
      for axis := 0 to |request.steps|
        invariant forall i | 0 <= i < axis :: Spec.AxisFits(config, request.steps[i], request.duration)
      {
        var steps := AbsoluteSteps(request.steps[axis]);
        if steps > maximumSteps || (steps != 0 && request.duration > U64_MAX / steps) {
          assert !Spec.AxisFits(config, request.steps[axis], request.duration);
          return false;
        }
      }
      return true;
    }

    method Reject()
      requires Layout()
      modifies this`rejected
      ensures Layout() && View() == old(View()).(rejected := Wrap64(old(rejected) + 1))
    {
      rejected := Wrap64(rejected + 1);
    }

    /** The order of the checks decides the answer; `value` is the segment as scheduled. */
    method Check(request: Segment, now: u64) returns (code: Spec.EnqueueCode, counted: bool, value: Segment)
      requires Valid()
      ensures var outcome := Spec.Enqueue(config, View(), request, now);
              && code == outcome.code
              && (code != Spec.Accepted ==>
                    outcome.queue == if counted then View().(rejected := Wrap64(rejected + 1)) else View())
              && (code == Spec.Accepted ==>
                    |View().segments| < U16_MAX && value.End() <= U64_MAX &&
                    outcome.queue == Spec.Append(View(), value))
    {
      value, counted := request, false;
      if request.sequence == 0 || request.duration == 0 || |request.steps| != axes.Length ||
         U64_MAX - request.start < request.duration {
        return Spec.Invalid, false, request;
      }
      var fit := StepsFit(request);
      if !fit {
        return Spec.Invalid, true, request;
      }
      if fault != Spec.NoFault {
        return Spec.FaultLatched, true, request;
      }
      if size >= config.depth {
        return Spec.Full, true, request;
      }
      if request.sequence != Wrap32(lastAccepted + 1) {
        return Spec.SequenceMismatch, false, request;
      }
      if size > 0 && ring[Slot(head, size - 1, config.depth)].final {
        return Spec.Invalid, false, request;
      }
      var earliest := Spec.EarliestStart(config, now);
      if value.start == 0 {
        value := value.(start := if nextAvailable > earliest then nextAvailable else earliest);
      } else if value.start < earliest {
        return Spec.Late, false, request;
      }
      if size > 0 && value.start != nextAvailable {
        return Spec.Discontinuous, false, request;
      }
      if U64_MAX - value.start < value.duration {
        return Spec.Invalid, false, request;
      }
      return Spec.Accepted, false, value;
    }

    method Push(value: Segment)
      requires Layout() && size < config.depth
      modifies this`size, ring
      ensures Layout() && size == old(size) + 1
      ensures View() == old(View()).(segments := old(View()).segments + [value])
    {
      RingAppend(ring[..], head, size, value);
      ring[Slot(head, size, config.depth)] := value;
      size := size + 1;
    }

    method Pop()
      requires Layout() && size > 0
      modifies this`head, this`size, ring
      ensures Layout() && size == old(size) - 1
      ensures View() == old(View()).(segments := old(View()).segments[1..])
    {
      RingPop(ring[..], head, size, ZERO_SEGMENT);
      ring[head] := ZERO_SEGMENT;
      head := Slot(head, 1, config.depth);
      size := size - 1;
    }

    method Drop()
      requires Layout()
      modifies this`size, this`discarded
      ensures Layout() && size == 0
      ensures View() == old(View()).(segments := [], discarded := old(discarded) + old(size))
    {
      discarded := discarded + size;
      size := 0;
    }

    method Empty()
      requires Layout()
      modifies this`head, this`size, ring
      ensures Layout() && size == 0 && View() == old(View()).(segments := [])
    {
      forall i | 0 <= i < ring.Length {
        ring[i] := ZERO_SEGMENT;
      }
      head, size := 0, 0;
    }

    method Append(value: Segment)
      requires Layout() && size < config.depth && value.End() <= U64_MAX
      modifies this, ring
      ensures Layout() && View() == Spec.Append(old(View()), value)
    {
      Push(value);
      lastAccepted := value.sequence;
      nextAvailable := value.start + value.duration;
      mode := Spec.Armed;
      accepted := Wrap64(accepted + 1);
      if size > maximumDepth {
        maximumDepth := size;
      }
    }

    method Enqueue(request: Segment, now: u64) returns (code: Spec.EnqueueCode, value: Segment)
      requires Valid()
      modifies this, ring
      ensures Valid()
      ensures Spec.EnqueueOutcome(code, View()) == Spec.Enqueue(config, old(View()), request, now)
      ensures code == Spec.Accepted ==> View().segments == old(View().segments) + [value]
    {
      EnqueueKeepsRing(config, View(), request, now);
      var counted;
      code, counted, value := Check(request, now);
      if code == Spec.Accepted {
        Append(value);
      } else if counted {
        Reject();
      }
    }

    /** The segment at the head of the ring. */
    method Front() returns (found: bool, segment: Segment)
      requires Valid()
      ensures found <==> View().segments != []
      ensures found ==> segment == View().segments[0]
    {
      if size == 0 {
        return false, ZERO_SEGMENT;
      }
      return true, ring[head];
    }

    method Starve()
      requires Layout()
      modifies this`mode, this`fault, this`underruns, this`safetyStops
      ensures Layout()
      ensures View() == old(View()).(mode := Spec.Faulted, fault := Spec.Underrun,
                                     underruns := Wrap64(old(underruns) + 1),
                                     safetyStops := Wrap64(old(safetyStops) + 1))
    {
      mode := Spec.Faulted;
      fault := Spec.Underrun;
      underruns := Wrap64(underruns + 1);
      safetyStops := Wrap64(safetyStops + 1);
    }

    method CompleteFront() returns (ok: bool)
      requires Layout()
      modifies this, ring
      ensures Layout() && View() == Spec.CompleteFront(old(View()))
      ensures ok <==> |old(View()).segments| > 0 && old(View()).fault == Spec.NoFault
    {
      if size == 0 || fault != Spec.NoFault {
        return false;
      }
      var finalSegment := ring[head].final;
      lastCompleted := ring[head].sequence;
      Pop();
      if finalSegment {
        Drop();
        mode := Spec.Idle;
      } else if size == 0 {
        Starve();
      } else {
        mode := Spec.Armed;
      }
      completed := Wrap64(completed + 1);
      return true;
    }

    method Abort(reason: Spec.Fault)
      requires Layout()
      modifies this, ring
      ensures Layout() && View() == Spec.Abort(old(View()), reason)
    {
      if reason == Spec.NoFault {
        return;
      }
      discarded := discarded + size;
      Empty();
      Latch(reason);
    }

    method Latch(reason: Spec.Fault)
      requires Layout()
      modifies this`mode, this`fault, this`limitStops, this`safetyStops
      ensures Layout()
      ensures View() == old(View()).(mode := Spec.Faulted, fault := reason,
                                     safetyStops := Wrap64(old(safetyStops) + 1),
                                     limitStops := if reason == Spec.LimitHit
                                                   then Wrap64(old(limitStops) + 1) else old(limitStops))
    {
      mode, fault := Spec.Faulted, reason;
      safetyStops := Wrap64(safetyStops + 1);
      if reason == Spec.LimitHit {
        limitStops := Wrap64(limitStops + 1);
      }
    }

    method ClearFault(now: u64) returns (ok: bool)
      requires Valid()
      modifies this
      ensures Valid() && View() == Spec.ClearFault(old(View()), now)
      ensures ok <==> old(View()).segments == []
    {
      if size != 0 {
        return false;
      }
      fault, mode, nextAvailable := Spec.NoFault, Spec.Idle, now;
      return true;
    }

    // -------------------------------------------------------------- outputs

    method StopOutputs()
      requires Layout()
      modifies this`edges, axes
      ensures Layout() && View() == Spec.StopOutputs(old(View()), 0)
    {
      ghost var before := View();
      var i := 0;
      while i < axes.Length
        invariant 0 <= i <= axes.Length && Layout()
        invariant Spec.StopOutputs(View(), i) == Spec.StopOutputs(before, 0)
      {
        ghost var here := View();
        var a := axes[i];
        if a.stepHigh {
          axes[i] := axes[i].(stepHigh := false);
          edges := Wrap64(edges + 1);
        }
        if a.enabled {
          axes[i] := axes[i].(enabled := false);
        }
        assert View().axes == here.axes[i := a.(stepHigh := false, enabled := false)];
        i := i + 1;
      }
    }

    method SafeStop(reason: Spec.Fault)
      requires Layout()
      modifies this, ring, axes
      ensures Layout() && View() == Spec.SafeStop(old(View()), reason)
    {
      Abort(reason);
      StopOutputs();
    }

    method CheckLimits(io: Spec.Io) returns (verdict: Spec.LimitVerdict)
      requires Layout()
      ensures verdict == if io.hasLimits then Spec.CheckLimits(mode, io, axes.Length, 0) else Spec.Clear
    {
      if io.hasLimits {
        var axis := 0;
        while axis < axes.Length
          invariant 0 <= axis <= axes.Length
          invariant Spec.CheckLimits(mode, io, axes.Length, axis) == Spec.CheckLimits(mode, io, axes.Length, 0)
        {
          match io.limit(axis)
          case ReadFails => return Spec.Trip(Spec.Aborted);
          case Reads(active) =>
            if active && mode == Spec.Running {
              return Spec.Trip(Spec.LimitHit);
            }
          axis := axis + 1;
        }
      }
      return Spec.Clear;
    }

    method SetDirections(io: Spec.Io, segment: Segment) returns (ok: bool)
      requires Layout() && |segment.steps| == axes.Length
      modifies axes
      ensures Layout()
      ensures Spec.Pass(View(), if ok then Spec.NoFault else Spec.Aborted)
              == Spec.SetDirections(old(View()), io, segment, 0)
    {
      ghost var before := View();
      var axis := 0;
      while axis < axes.Length
        invariant 0 <= axis <= axes.Length
        invariant Spec.SetDirections(View(), io, segment, axis) == Spec.SetDirections(before, io, segment, 0)
      {
        ghost var here := View();
        var positive := segment.steps[axis] >= 0;
        if !io.directionWorks(axis, positive) {
          return false;
        }
        axes[axis] := axes[axis].(positive := positive);
        assert View().axes == here.axes[axis := here.axes[axis].(positive := positive)];
        axis := axis + 1;
      }
      return true;
    }

    method SetSegmentEnabled(io: Spec.Io, segment: Segment) returns (ok: bool)
      requires Layout() && |segment.steps| == axes.Length
      modifies axes
      ensures Layout()
      ensures Spec.Pass(View(), if ok then Spec.NoFault else Spec.Aborted)
              == Spec.SetEnables(old(View()), io, segment, 0)
    {
      ghost var before := View();
      var axis := 0;
      while axis < axes.Length
        invariant 0 <= axis <= axes.Length
        invariant Spec.SetEnables(View(), io, segment, axis) == Spec.SetEnables(before, io, segment, 0)
      {
        ghost var here := View();
        var enabled := segment.steps[axis] != 0;
        if axes[axis].enabled != enabled {
          if !io.enableWorks(axis, enabled) {
            return false;
          }
          axes[axis] := axes[axis].(enabled := enabled);
          assert View().axes == here.axes[axis := here.axes[axis].(enabled := enabled)];
        }
        axis := axis + 1;
      }
      return true;
    }

    method BeginSegment(io: Spec.Io, segment: Segment) returns (ok: bool)
      requires Layout() && |segment.steps| == axes.Length
      modifies this`lastTick, this`mode, axes
      ensures Layout()
      ensures Spec.Pass(View(), if ok then Spec.NoFault else Spec.Aborted)
              == Spec.BeginSegment(old(View()), io, segment)
    {
      ghost var before := View();
      forall i | 0 <= i < axes.Length {
        axes[i] := axes[i].(emitted := 0, phase := 0);
      }
      lastTick := segment.start;
      assert View() == before.(axes := Spec.ClearProgress(before.axes), lastTick := segment.start);
      ok := SetDirections(io, segment);
      if !ok {
        return;
      }
      ok := SetSegmentEnabled(io, segment);
      if ok {
        mode := Spec.Running;
      }
    }

    // -------------------------------------------------------------- the tick

    /** One axis of the DDA loop. */
    method StepAxis(io: Spec.Io, segment: Segment, delta: u64, axis: nat) returns (reason: Spec.Fault)
      requires |segment.steps| == axes.Length && axis < axes.Length
      modifies this`edges, axes
      ensures var s := Spec.StepAxis(old(axes[axis]), AbsoluteSteps(segment.steps[axis]), segment.duration,
                                     delta, io.stepWorks(axis, false), io.stepWorks(axis, true));
              && reason == s.fault
              && axes[..] == old(axes[..])[axis := s.axis]
              && edges == Wrap64(old(edges) + s.edges)
    {
      var a := axes[axis];
      var target := AbsoluteSteps(segment.steps[axis]);
      if a.stepHigh {
        if !io.stepWorks(axis, false) {
          return Spec.Aborted;
        }
        a := a.(stepHigh := false);
        edges := Wrap64(edges + 1);
      }
      reason := Spec.NoFault;
      if target != 0 && delta != 0 {
        var increment := Wrap64(target * delta);
        if U64_MAX - a.phase < increment {
          axes[axis] := a;
          return Spec.Underrun;
        }
        a := a.(phase := a.phase + increment);
      }
      if a.emitted < target && a.phase >= segment.duration {
        a := a.(phase := a.phase - segment.duration);
        if !io.stepWorks(axis, true) {
          axes[axis] := a;
          return Spec.Aborted;
        }
        a := a.(stepHigh := true, emitted := a.emitted + 1,
                emittedSteps := Wrap64(a.emittedSteps + 1),
                position := a.position + (if a.positive then 1 else -1));
        edges := Wrap64(edges + 1);
      }
      axes[axis] := a;
    }

    /** One axis, as the queue sees it. */
    /** One turn of the loop. */
    method ServeAxis(io: Spec.Io, segment: Segment, delta: u64, axis: nat) returns (reason: Spec.Fault, done: bool)
      requires Layout() && |segment.steps| == axes.Length && axis < axes.Length
      modifies this`edges, axes
      ensures Layout()
      ensures Spec.RunAxes(old(View()), io, segment, delta, axis) ==
              if reason != Spec.NoFault then Spec.Pass(View(), reason)
              else Spec.RunAxes(View(), io, segment, delta, axis + 1)
      ensures forall i | 0 <= i < axes.Length && i != axis :: axes[i] == old(axes[i])
      ensures done == Spec.AxisDone(axes[axis], segment.steps[axis])
    {
      ghost var before := View();
      reason := StepAxis(io, segment, delta, axis);
      RunAxesFrom(before, io, segment, delta, axis, View());
      done := axes[axis].emitted == AbsoluteSteps(segment.steps[axis]) && !axes[axis].stepHigh;
    }

    method RunAxes(io: Spec.Io, segment: Segment, delta: u64) returns (reason: Spec.Fault, allEmitted: bool)
      requires Layout() && |segment.steps| == axes.Length
      modifies this`edges, axes
      ensures Layout()
      ensures Spec.Pass(View(), reason) == Spec.RunAxes(old(View()), io, segment, delta, 0)
      ensures reason == Spec.NoFault ==> allEmitted == Spec.AllEmitted(axes[..], segment)
    {
      ghost var before := View();
      allEmitted := true;
      var axis := 0;
      while axis < axes.Length
        invariant 0 <= axis <= axes.Length
        invariant Spec.RunAxes(View(), io, segment, delta, axis) == Spec.RunAxes(before, io, segment, delta, 0)
        invariant allEmitted <==> forall i | 0 <= i < axis :: Spec.AxisDone(axes[i], segment.steps[i])
      {
        var done;
        reason, done := ServeAxis(io, segment, delta, axis);
        if reason != Spec.NoFault {
          return;
        }
        if !done {
          allEmitted := false;
        }
        axis := axis + 1;
      }
      reason := Spec.NoFault;
    }

    method Finish(segment: Segment, elapsed: u64, allEmitted: bool, ghost now: u64)
      requires Layout() && |segment.steps| == axes.Length
      requires elapsed == Spec.Elapsed(segment, now) && allEmitted == Spec.AllEmitted(axes[..], segment)
      modifies this, ring, axes
      ensures Layout() && View() == Spec.Finish(config, old(View()), segment, now)
    {
      if elapsed >= segment.duration && allEmitted {
        var completing := CompleteFront();
        if segment.final || fault != Spec.NoFault {
          StopOutputs();
        }
      } else if elapsed > Wrap64(segment.duration + Spec.Period(config)) {
        Abort(Spec.Underrun);
        underruns := Wrap64(underruns + 1);
        StopOutputs();
      }
    }

    method Advance(io: Spec.Io, segment: Segment, elapsed: u64, ghost now: u64)
      returns (reason: Spec.Fault, allEmitted: bool)
      requires Layout() && |segment.steps| == axes.Length && segment.End() <= U64_MAX
      requires elapsed == Spec.Elapsed(segment, now)
      modifies this`lastTick, this`edges, axes
      ensures Layout()
      ensures var tickTime := Spec.TickTime(segment, now);
              var delta := if tickTime > old(lastTick) then tickTime - old(lastTick) else 0;
              Spec.Pass(View(), reason)
              == Spec.RunAxes(old(View()).(lastTick := tickTime), io, segment, delta, 0)
      ensures reason == Spec.NoFault ==> allEmitted == Spec.AllEmitted(axes[..], segment)
    {
      var boundedElapsed := if elapsed < segment.duration then elapsed else segment.duration;
      var tickTime := segment.start + boundedElapsed;
      var delta := if tickTime > lastTick then tickTime - lastTick else 0;
      lastTick := tickTime;
      reason, allEmitted := RunAxes(io, segment, delta);
    }

    method RunTick(io: Spec.Io, segment: Segment, now: u64) returns (ok: bool)
      requires Layout() && |segment.steps| == axes.Length && segment.End() <= U64_MAX
      modifies this, ring, axes
      ensures Layout()
      ensures Spec.TickOutcome(View(), ok) == Spec.RunTick(config, old(View()), io, segment, now)
    {
      var elapsed := if now <= segment.start then 0 else now - segment.start;
      ghost var before := View();
      var reason, allEmitted := Advance(io, segment, elapsed, now);
      RunTickFrom(config, before, io, segment, now, Spec.Pass(View(), reason));
      if reason != Spec.NoFault {
        SafeStop(reason);
        return false;
      }
      Finish(segment, elapsed, allEmitted, now);
      return true;
    }

    method TickUnfaulted(io: Spec.Io, now: u64) returns (ok: bool)
      requires Valid() && fault == Spec.NoFault
      modifies this, ring, axes
      ensures Layout()
      ensures Spec.TickOutcome(View(), ok) == Spec.Tick(config, old(View()), io, now)
    {
      var verdict := CheckLimits(io);
      if verdict.Trip? {
        SafeStop(verdict.fault);
        return verdict.fault == Spec.LimitHit;
      }
      var found, segment := Front();
      if !found {
        StopOutputs();
        return true;
      }
      if mode == Spec.Armed {
        if now < segment.start {
          return true;
        }
        var begun := BeginSegment(io, segment);
        if !begun {
          SafeStop(Spec.Aborted);
          return false;
        }
      }
      ok := RunTick(io, segment, now);
    }

    /** One timer interrupt.  Whatever the outputs answer, the queue invariant holds afterwards, the
        edge count stays in step with the axes, and a fault leaves every output off. */
    method Tick(io: Spec.Io, now: u64) returns (ok: bool)
      requires Valid()
      modifies this, ring, axes
      ensures Valid()
      ensures Spec.TickOutcome(View(), ok) == Spec.Tick(config, old(View()), io, now)
      ensures fault != Spec.NoFault ==> forall i | 0 <= i < axes.Length :: !axes[i].stepHigh && !axes[i].enabled
    {
      ghost var before := View();
      TickKeepsRing(config, before, io, now);
      if Spec.Tick(config, before, io, now).queue.fault != Spec.NoFault {
        FirmwareMotionEdges.FaultedTickIsSafe(config, before, io, now);
        assert FirmwareMotionEdges.OutputsOff(Spec.Tick(config, before, io, now).queue.axes);
      }
      if fault != Spec.NoFault {
        StopOutputs();
        ok := true;
      } else {
        ok := TickUnfaulted(io, now);
      }
    }
  }
}
