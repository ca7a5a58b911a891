/** Conservation of STEP edges, and the outputs of a faulted queue (firmware/src/motion.c:215-372). */
module FirmwareMotionEdges {
  import opened FixedWidth
  import opened FirmwareMotion
  import opened FirmwareMotionPasses
  import opened FirmwareMotionRing

  /** Two edges for every step an axis has begun, less the one it still owes while its line is high. */
  function AxisEdges(a: Axis): int {
    2 * a.emittedSteps - (if a.stepHigh then 1 else 0)
  }

  function TotalEdges(axes: seq<Axis>): int {
    if axes == [] then 0 else AxisEdges(axes[0]) + TotalEdges(axes[1..])
  }

  lemma {:induction false} TotalEdgesUpdate(axes: seq<Axis>, i: nat, a: Axis)
    requires i < |axes|
    ensures TotalEdges(axes[i := a]) == TotalEdges(axes) - AxisEdges(axes[i]) + AxisEdges(a)
  {
    if i == 0 {
      assert axes[0 := a][1..] == axes[1..];
    } else {
      assert axes[i := a][1..] == axes[1..][i - 1 := a];
      TotalEdgesUpdate(axes[1..], i - 1, a);
    }
  }

  lemma {:induction false} TotalEdgesSame(before: seq<Axis>, after: seq<Axis>)
    requires |before| == |after|
    requires forall i | 0 <= i < |before| :: SameLine(before[i], after[i])
    ensures TotalEdges(before) == TotalEdges(after)
  {
    if before != [] {
      assert SameLine(before[0], after[0]);
      forall i | 0 <= i < |before| - 1
        ensures SameLine(before[1..][i], after[1..][i])
      {
        assert SameLine(before[i + 1], after[i + 1]);
      }
      TotalEdgesSame(before[1..], after[1..]);
    }
  }

  /** The edge counter agrees with the step counters and the lines, modulo 2^64. */
  predicate EdgesAgree(q: Queue) {
    q.edges == Wrap64(TotalEdges(q.axes))
  }

  /** Updating one axis by an amount that matches the counter, up to a multiple of 2^64. */
  lemma AxisUpdateAgrees(q: Queue, i: nat, a: Axis, added: int, wraps: int)
    requires EdgesAgree(q) && i < |q.axes|
    requires AxisEdges(a) == AxisEdges(q.axes[i]) + added - wraps * 0x1_0000_0000_0000_0000
    ensures Wrap64(q.edges + added) == Wrap64(TotalEdges(q.axes[i := a]))
  {
    TotalEdgesUpdate(q.axes, i, a);
    WrapAbsorbs(TotalEdges(q.axes), added);
    var total := TotalEdges(q.axes) + added;
    assert TotalEdges(q.axes[i := a]) == total - wraps * 0x1_0000_0000_0000_0000;
    WrapMultiple(total, wraps);
  }

  lemma WrapMultiple(x: int, k: int)
    ensures Wrap64(x - k * 0x1_0000_0000_0000_0000) == Wrap64(x)
  {
  }

  lemma StepAxisEdges(a: Axis, target: u64, duration: u64, delta: u64, lowWorks: bool, highWorks: bool)
    ensures var s := StepAxis(a, target, duration, delta, lowWorks, highWorks);
            || AxisEdges(s.axis) == AxisEdges(a) + s.edges
            || AxisEdges(s.axis) == AxisEdges(a) + s.edges - 2 * 0x1_0000_0000_0000_0000
  {
  }

  lemma {:induction false} StopOutputsEdges(q: Queue, i: nat)
    requires i <= |q.axes| && EdgesAgree(q)
    ensures EdgesAgree(StopOutputs(q, i))
    decreases |q.axes| - i
  {
    if i < |q.axes| {
      var a := q.axes[i];
      var stopped := a.(stepHigh := false, enabled := false);
      AxisUpdateAgrees(q, i, stopped, if a.stepHigh then 1 else 0, 0);
      StopOutputsEdges(
        q.(axes := q.axes[i := stopped],
           edges := if a.stepHigh then Wrap64(q.edges + 1) else q.edges), i + 1);
    }
  }

  lemma {:induction false} RunAxesEdges(q: Queue, io: Io, segment: Segment, delta: u64, i: nat)
    requires i <= |q.axes| == |segment.steps| && EdgesAgree(q)
    ensures EdgesAgree(RunAxes(q, io, segment, delta, i).queue)
    decreases |q.axes| - i
  {
    if i < |q.axes| {
      var s := StepAxisAt(q, io, segment, delta, i);
      StepAxisEdges(q.axes[i], AbsoluteSteps(segment.steps[i]), segment.duration, delta,
                    io.stepWorks(i, false), io.stepWorks(i, true));
      AxisUpdateAgrees(q, i, s.axis, s.edges,
                       if AxisEdges(s.axis) == AxisEdges(q.axes[i]) + s.edges then 0 else 2);
      if s.fault == NoFault {
        RunAxesEdges(q.(axes := q.axes[i := s.axis], edges := Wrap64(q.edges + s.edges)),
                     io, segment, delta, i + 1);
      }
    }
  }

  lemma BeginSegmentEdges(q: Queue, io: Io, segment: Segment)
    requires |q.axes| == |segment.steps| && EdgesAgree(q)
    ensures EdgesAgree(BeginSegment(q, io, segment).queue)
  {
    BeginSegmentPointwise(q, io, segment);
    TotalEdgesSame(q.axes, BeginSegment(q, io, segment).queue.axes);
  }

  lemma FinishEdges(c: Config, q: Queue, segment: Segment, now: u64)
    requires |q.axes| == |segment.steps| && EdgesAgree(q)
    ensures EdgesAgree(Finish(c, q, segment, now))
  {
    var done := CompleteFront(q);
    assert done.axes == q.axes && done.edges == q.edges;
    StopOutputsEdges(done, 0);
    var stopped := Abort(q, Underrun);
    StopOutputsEdges(stopped.(underruns := Wrap64(stopped.underruns + 1)), 0);
  }

  lemma RunTickEdges(c: Config, q: Queue, io: Io, segment: Segment, now: u64)
    requires |q.axes| == |segment.steps| && segment.End() <= U64_MAX && EdgesAgree(q)
    ensures EdgesAgree(RunTick(c, q, io, segment, now).queue)
  {
    var tickTime := TickTime(segment, now);
    var delta := if tickTime > q.lastTick then tickTime - q.lastTick else 0;
    RunAxesEdges(q.(lastTick := tickTime), io, segment, delta, 0);
    var pass := RunAxes(q.(lastTick := tickTime), io, segment, delta, 0);
    if pass.fault != NoFault {
      StopOutputsEdges(Abort(pass.queue, pass.fault), 0);
    } else {
      FinishEdges(c, pass.queue, segment, now);
    }
  }

  lemma TickEdges(c: Config, q: Queue, io: Io, now: u64)
    requires Shaped(q) && EdgesAgree(q)
    ensures EdgesAgree(Tick(c, q, io, now).queue)
  {
    StopOutputsEdges(q, 0);
    var limits := if io.hasLimits then CheckLimits(q.mode, io, |q.axes|, 0) else Clear;
    if q.fault == NoFault && limits.Trip? {
      StopOutputsEdges(Abort(q, limits.fault), 0);
    } else if q.fault == NoFault && |q.segments| > 0 {
      var segment := q.segments[0];
      BeginSegmentEdges(q, io, segment);
      var begun := BeginSegment(q, io, segment);
      StopOutputsEdges(Abort(begun.queue, begun.fault), 0);
      RunTickEdges(c, begun.queue, io, segment, now);
      RunTickEdges(c, q, io, segment, now);
    }
  }

  /** In every run, with any clock and any output failures, the edge counter is twice the steps begun
      less the STEP lines still high, modulo 2^64. */
  lemma {:induction false} RunConservesEdges(c: Config, axisCount: u8, states: seq<Queue>, events: seq<Event>, k: nat)
    requires IsRun(c, axisCount, states, events) && k <= |events|
    ensures EdgesAgree(states[k])
  {
    if k == 0 {
      NoEdgesAtFirst(axisCount);
    } else {
      RunConservesEdges(c, axisCount, states, events, k - 1);
      var q := states[k - 1];
      assert states[k] == Step(c, q, events[k - 1]);
      match events[k - 1]
      case TickEvent(io, now) => TickEdges(c, q, io, now);
      case EnqueueEvent(request, now) =>
      case AbortEvent(fault) =>
      case ClearFaultEvent(now) =>
      case CompleteEvent =>
    }
  }

  lemma NoEdgesAtFirst(axisCount: u8)
    ensures EdgesAgree(Initial(axisCount))
  {
    TotalOfZeros(Initial(axisCount).axes);
  }

  lemma {:induction false} TotalOfZeros(axes: seq<Axis>)
    requires forall i | 0 <= i < |axes| :: axes[i] == ZERO_AXIS
    ensures TotalEdges(axes) == 0
  {
    if axes != [] {
      TotalOfZeros(axes[1..]);
    }
  }

  // ---------------------------------------------------------------- outputs of a faulted queue

  predicate OutputsOff(axes: seq<Axis>) {
    forall i | 0 <= i < |axes| :: !axes[i].stepHigh && !axes[i].enabled
  }

  /** Every tick that ends in a fault leaves every STEP line low and every axis disabled, whatever the
      output functions answered and wherever in the tick the fault arose. */
  lemma FaultedTickIsSafe(c: Config, q: Queue, io: Io, now: u64)
    requires RingInv(c, q)
    requires Tick(c, q, io, now).queue.fault != NoFault
    ensures OutputsOff(Tick(c, q, io, now).queue.axes)
  {
    var limits := if io.hasLimits then CheckLimits(q.mode, io, |q.axes|, 0) else Clear;
    if q.fault != NoFault {
      StopOutputsPointwise(q, 0);
    } else if limits.Trip? {
      StopOutputsPointwise(Abort(q, limits.fault), 0);
    } else if |q.segments| > 0 {
      var segment := q.segments[0];
      if q.mode != Armed {
        FaultedRunTickIsSafe(c, q, io, segment, now);
      } else if now >= segment.start {
        BeginSegmentPointwise(q, io, segment);
        var begun := BeginSegment(q, io, segment);
        if begun.fault != NoFault {
          StopOutputsPointwise(Abort(begun.queue, begun.fault), 0);
        } else {
          FaultedRunTickIsSafe(c, begun.queue, io, segment, now);
        }
      }
    }
  }

  lemma FaultedRunTickIsSafe(c: Config, q: Queue, io: Io, segment: Segment, now: u64)
    requires |q.axes| == |segment.steps| && segment.End() <= U64_MAX && q.fault == NoFault
    requires RunTick(c, q, io, segment, now).queue.fault != NoFault
    ensures OutputsOff(RunTick(c, q, io, segment, now).queue.axes)
  {
    var tickTime := TickTime(segment, now);
    var delta := if tickTime > q.lastTick then tickTime - q.lastTick else 0;
    var pass := RunAxes(q.(lastTick := tickTime), io, segment, delta, 0);
    if pass.fault != NoFault {
      StopOutputsPointwise(Abort(pass.queue, pass.fault), 0);
    } else {
      var done := CompleteFront(pass.queue);
      StopOutputsPointwise(done, 0);
      var stopped := Abort(pass.queue, Underrun);
      StopOutputsPointwise(stopped.(underruns := Wrap64(stopped.underruns + 1)), 0);
    }
  }
}
