/** The STEP line of one axis over consecutive segments: how long it stays low between the last pulse of
    one and the first pulse of the next (mock_mcu/src/motion_executor.cpp:163-199, 386-424). */
module MockMotionSeams {
  import opened FixedWidth
  import opened NonlinearFacts
  import opened MockMotion
  import opened MockMotionTiming

  /** A segment in which the axis makes steps. */
  datatype Burst = Burst(segment: Segment, count: u64)

  predicate Accepted(config: AxisConfig, b: Burst) {
    && ConfigOk(config) && MoveAllowed(config, b.count, b.segment.duration)
    && 0 < b.count <= 0x8000_0000 && b.segment.End() <= U64_MAX
  }

  function LastFall(config: AxisConfig, b: Burst): u64
    requires Accepted(config, b)
  {
    FallTime(config, b.segment, b.count, b.count - 1)
  }

  /** The last fall of a move with more than one step is the end of its segment; a single pulse comes
      right after the setup time. */
  lemma LastFallExact(config: AxisConfig, b: Burst)
    requires Accepted(config, b)
    ensures b.count > 1 ==> LastFall(config, b) == b.segment.End()
    ensures b.count == 1 ==> LastFall(config, b) == b.segment.start + config.setup + config.pulseWidth
    ensures RiseTime(config, b.segment, b.count, 0) == b.segment.start + config.setup
    ensures LastFall(config, b) == RiseTime(config, b.segment, b.count, b.count - 1) + config.pulseWidth
  {
    AllowedIsAdmitted(config, b.count, b.segment.duration);
    EdgeTimesExact(config, b.segment, b.count, 0);
    EdgeTimesExact(config, b.segment, b.count, b.count - 1);
    EndOffsets(config, b.count, b.segment.duration);
  }

  lemma EndOffsets(config: AxisConfig, count: nat, duration: nat)
    requires Span(config, duration) >= 0 && count > 0
    ensures RiseOffset(config, count, duration, 0) == 0
    ensures count > 1 ==> RiseOffset(config, count, duration, count - 1) == Span(config, duration)
  {
    if count > 1 {
      var span := Span(config, duration);
      QuotientOf(span, 0, span * (count - 1), count - 1);
      QuotientOf(0, 0, span * 0, count - 1);
    }
  }

  /** The seam from one segment with steps to the next, with `gap` nanoseconds of other segments between,
      keeps the minimum low time. */
  predicate SeamFits(config: AxisConfig, a: Burst, b: Burst) {
    a.count == 1 || config.setup + (b.segment.start - a.segment.End()) >= config.minimumLow
  }

  /** Across a seam the line is low for the setup time and whatever lies between the segments, if the first
      made more than one step; a single step always leaves time enough. */
  lemma SeamExactly(config: AxisConfig, a: Burst, b: Burst)
    requires Accepted(config, a) && Accepted(config, b) && a.segment.End() <= b.segment.start
    ensures a.count > 1 ==>
              RiseTime(config, b.segment, b.count, 0) - LastFall(config, a) ==
              config.setup + (b.segment.start - a.segment.End())
    ensures RiseTime(config, b.segment, b.count, 0) - LastFall(config, a) >= config.minimumLow <==>
              SeamFits(config, a, b)
  {
    LastFallExact(config, a);
    LastFallExact(config, b);
    AllowedIsAdmitted(config, a.count, a.segment.duration);
  }

  // ---------------------------------------------------------------- whole queues

  function RisesOf(config: AxisConfig, b: Burst): (rises: seq<u64>)
    requires Accepted(config, b)
    ensures |rises| == b.count
  {
    seq(b.count, i requires 0 <= i < b.count => RiseTime(config, b.segment, b.count, i))
  }

  ghost predicate InOrder(config: AxisConfig, bursts: seq<Burst>) {
    && (forall k | 0 <= k < |bursts| :: Accepted(config, bursts[k]))
    && forall k, l | 0 <= k && l == k + 1 && l < |bursts| :: bursts[k].segment.End() <= bursts[l].segment.start
  }

  /** All rises of the axis, over all segments. */
  function AllRises(config: AxisConfig, bursts: seq<Burst>): (rises: seq<u64>)
    requires InOrder(config, bursts)
    ensures bursts != [] ==> |rises| > 0 && rises[0] == RisesOf(config, bursts[0])[0]
  {
    if bursts == [] then [] else RisesOf(config, bursts[0]) + AllRises(config, bursts[1..])
  }

  /** Between every two consecutive pulses the line is low for the minimum time. */
  ghost predicate LowKept(config: AxisConfig, rises: seq<u64>) {
    forall k, l | 0 <= k && l == k + 1 && l < |rises| :: rises[l] - rises[k] >= Period(config)
  }

  lemma LowKeptJoins(config: AxisConfig, x: seq<u64>, y: seq<u64>)
    requires |x| > 0
    ensures LowKept(config, x + y) <==>
              LowKept(config, x) && LowKept(config, y) &&
              (|y| > 0 ==> y[0] - x[|x| - 1] >= Period(config))
  {
    var both := x + y;
    if LowKept(config, both) {
      forall k, l | 0 <= k && l == k + 1 && l < |x|
        ensures x[l] - x[k] >= Period(config)
      {
        assert both[l] - both[k] >= Period(config);
      }
      forall k, l | 0 <= k && l == k + 1 && l < |y|
        ensures y[l] - y[k] >= Period(config)
      {
        assert both[|x| + l] - both[|x| + k] >= Period(config);
      }
      if |y| > 0 {
        assert both[|x|] - both[|x| - 1] >= Period(config);
      }
    }
    if LowKept(config, x) && LowKept(config, y) && (|y| > 0 ==> y[0] - x[|x| - 1] >= Period(config)) {
      forall k, l | 0 <= k && l == k + 1 && l < |both|
        ensures both[l] - both[k] >= Period(config)
      {
        if l < |x| {
          assert both[l] == x[l] && both[k] == x[k];
        } else if k >= |x| {
          assert both[l] == y[l - |x|] && both[k] == y[k - |x|];
        }
      }
    }
  }

  /** The periods of a move fit between its first and its last rise. */
  predicate MoveFits(config: AxisConfig, b: Burst) {
    (b.count - 1) * Period(config) <= Span(config, b.segment.duration)
  }

  lemma MoveKeepsLow(config: AxisConfig, b: Burst)
    requires Accepted(config, b)
    ensures LowKept(config, RisesOf(config, b)) <==> MoveFits(config, b)
  {
    AllowedIsAdmitted(config, b.count, b.segment.duration);
    SpacedExactly(config, b.count, b.segment.duration);
    var rises := RisesOf(config, b);
    forall k | 0 <= k < b.count
      ensures rises[k] == b.segment.start + config.setup + RiseOffset(config, b.count, b.segment.duration, k)
    {
      EdgeTimesExact(config, b.segment, b.count, k);
    }
    if LowKept(config, rises) {
      forall i, j | 0 <= i && j == i + 1 && j < b.count
        ensures RiseOffset(config, b.count, b.segment.duration, j)
                - RiseOffset(config, b.count, b.segment.duration, i) >= Period(config)
      {
        assert rises[j] - rises[i] >= Period(config);
      }
    }
  }

  /** What a caller can check before enqueueing: every move fits its segment and every seam the setup. */
  predicate QueueFits(config: AxisConfig, bursts: seq<Burst>) {
    bursts == [] ||
    (&& MoveFits(config, bursts[0])
     && (|bursts| > 1 ==> SeamFits(config, bursts[0], bursts[1]))
     && QueueFits(config, bursts[1..]))
  }

  /** Over any sequence of accepted segments, the pulses of an axis keep their minimum low time throughout
      if and only if every move fits its segment and every seam the setup time. */
  lemma {:induction false} QueueSpacedExactly(config: AxisConfig, bursts: seq<Burst>)
    requires InOrder(config, bursts)
    ensures LowKept(config, AllRises(config, bursts)) <==> QueueFits(config, bursts)
  {
    if bursts != [] {
      var a, rest := bursts[0], bursts[1..];
      QueueSpacedExactly(config, rest);
      MoveKeepsLow(config, a);
      LowKeptJoins(config, RisesOf(config, a), AllRises(config, rest));
      LastFallExact(config, a);
      if rest != [] {
        assert a.segment.End() <= rest[0].segment.start;
        SeamExactly(config, a, rest[0]);
      }
    }
  }

  lemma OneLess(count: nat, period: nat)
    ensures (count - 1) * period == count * period - period
  {
  }

  /** With a setup time equal to the minimum low time, whatever is accepted is spaced, seams included. */
  lemma {:induction false} EqualSetupFits(config: AxisConfig, bursts: seq<Burst>)
    requires InOrder(config, bursts) && config.setup == config.minimumLow
    ensures QueueFits(config, bursts)
  {
    if bursts != [] {
      var b := bursts[0];
      EqualSetupFits(config, bursts[1..]);
      AllowedIsAdmitted(config, b.count, b.segment.duration);
      OneLess(b.count, Period(config));
      assert |bursts| > 1 ==> b.segment.End() <= bursts[1].segment.start;
    }
  }
}
