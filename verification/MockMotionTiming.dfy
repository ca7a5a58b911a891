/** Pulse timing of the mock executor: its 64-bit interpolation and rate check are exact, and admission
    keeps every pulse of a move inside its segment and apart from the next
    (mock_mcu/src/motion_executor.cpp:38-65, 100-110, 177-199, 386-424). */
module MockMotionTiming {
  import opened FixedWidth
  import opened NonlinearFacts
  import opened MockMotion

  // ---------------------------------------------------------------- exact arithmetic

  /** The source's split product and quotient is floor(span * index / denominator), and nothing in it
      leaves 64 bits, for every denominator a move can have. */
  lemma InterpolateExact(span: u64, index: u64, denominator: u64)
    requires 0 < denominator <= 0x8000_0000 && index <= denominator
    ensures 0 <= (span / denominator) * index <= U64_MAX
    ensures 0 <= (span % denominator) * index <= U64_MAX
    ensures InterpolateOffset(span, index, denominator) == span * index / denominator
    ensures span * index / denominator <= span
  {
    DivMod(span, denominator);
    InterpolateWith(span, index, denominator, span / denominator, span % denominator);
  }

  lemma InterpolateWith(span: u64, index: nat, d: nat, q: nat, r: nat)
    requires 0 < d <= 0x8000_0000 && index <= d && span == q * d + r && r < d
    ensures 0 <= q * index <= U64_MAX && 0 <= r * index <= U64_MAX
    ensures Wrap64(Wrap64(q * index) + Wrap64(r * index) / d) == span * index / d <= span
  {
    WholePart(q, r, index, d, span);
    RestPart(r, index, d);
    SplitBounded(q, r, index, d, span);
    WrapSum(q * index, r * index, d);
  }

  lemma SplitBounded(q: nat, r: nat, index: nat, d: nat, span: nat)
    requires d > 0 && span == q * d + r && index <= d
    ensures q * index + (r * index) / d == span * index / d <= span
  {
    SplitQuotient(q, r, index, d, span);
    QuotientAtMost(span, index, d);
  }

  lemma WrapSum(whole: nat, rest: nat, d: nat)
    requires d > 0 && rest <= U64_MAX && whole + rest / d <= U64_MAX
    ensures Wrap64(Wrap64(whole) + Wrap64(rest) / d) == whole + rest / d
  {
    assert rest / d >= 0;
    assert Wrap64(rest) == rest && Wrap64(whole) == whole;
  }

  lemma WholePart(q: nat, r: nat, index: nat, d: nat, span: nat)
    requires span == q * d + r && index <= d
    ensures 0 <= q * index <= span
  {
    MulMonotone(q, index, d);
    MulMonotone(q, 0, index);
  }

  lemma RestPart(r: nat, index: nat, d: nat)
    requires r < d <= 0x8000_0000 && index <= d
    ensures 0 <= r * index <= U64_MAX
  {
    MulMonotone(r, index, 0x8000_0000);
    MulMonotone(r, 0, index);
  }

  lemma QuotientAtMost(span: nat, index: nat, d: nat)
    requires d > 0 && index <= d
    ensures span * index / d <= span
  {
    MulMonotone(span, index, d);
    QuotientMonotone(span * index, span * d, d);
    QuotientOf(span, 0, span * d, d);
  }

  lemma SplitQuotient(q: nat, r: nat, index: nat, d: nat, span: nat)
    requires d > 0 && span == q * d + r
    ensures q * index + (r * index) / d == span * index / d
  {
    DivMod(r * index, d);
    var e := q * index + (r * index) / d;
    assert e * d == (q * index) * d + ((r * index) / d) * d;
    assert (q * index) * d == (q * d) * index;
    assert span * index == (q * d) * index + r * index;
    MulMonotone(q, 0, index);
    QuotientOf(e, (r * index) % d, span * index, d);
  }

  lemma QuotientMonotone(x: nat, y: nat, d: nat)
    requires d > 0 && x <= y
    ensures x / d <= y / d
  {
    DivMod(x, d);
    AtMostQuotient(x / d, y, d);
  }

  /** For every count a 32-bit move can have, the rate check is exactly
      count * 1e9 <= rate * duration, and nothing that it compares leaves 64 bits. */
  lemma RateExact(count: u64, duration: u64, rate: u32)
    requires rate != 0 && count <= 0x8000_0000
    ensures RateAllows(count, duration, rate) <==> count * NANOSECONDS_PER_SECOND <= rate * duration
    ensures var whole := duration / NANOSECONDS_PER_SECOND; var rest := duration % NANOSECONDS_PER_SECOND;
            whole <= count / rate ==>
              0 <= whole * rate <= U64_MAX && 0 <= rest * rate <= U64_MAX &&
              whole * rate + rest * rate / NANOSECONDS_PER_SECOND <= U64_MAX
  {
    var whole := duration / NANOSECONDS_PER_SECOND;
    var rest := duration % NANOSECONDS_PER_SECOND;
    RateSplit(whole, rest, duration, rate);
    AtMostQuotient(whole, count, rate);
    RestBound(rest, rate);
    MulMonotone(rate, 0, whole);
    if whole <= count / rate {
      RateCompare(whole * rate, rest * rate, count);
    }
  }

  lemma RateSplit(whole: nat, rest: nat, duration: nat, rate: nat)
    requires duration == whole * NANOSECONDS_PER_SECOND + rest
    ensures rate * duration == NANOSECONDS_PER_SECOND * (whole * rate) + rest * rate
  {
  }

  lemma RestBound(rest: nat, rate: u32)
    requires rest < NANOSECONDS_PER_SECOND
    ensures 0 <= rest * rate < NANOSECONDS_PER_SECOND * 0x1_0000_0000
  {
    MulMonotone(rest, rate, U32_MAX);
    MulMonotone(rest, 0, rate);
  }

  lemma RateCompare(wholeSteps: nat, restSteps: nat, count: u64)
    requires wholeSteps <= count <= 0x8000_0000 && restSteps < NANOSECONDS_PER_SECOND * 0x1_0000_0000
    ensures wholeSteps + restSteps / NANOSECONDS_PER_SECOND <= U64_MAX
    ensures count <= Wrap64(Wrap64(wholeSteps) + Wrap64(restSteps) / NANOSECONDS_PER_SECOND) <==>
            count * NANOSECONDS_PER_SECOND <= NANOSECONDS_PER_SECOND * wholeSteps + restSteps
  {
  }

  // ---------------------------------------------------------------- admitted moves

  function Period(config: AxisConfig): nat {
    config.pulseWidth + config.minimumLow
  }

  /** The time between the first and the last rise of a move. */
  function Span(config: AxisConfig, duration: nat): int {
    duration - config.setup - config.pulseWidth
  }

  /** What admission establishes for a move that has steps. */
  predicate Admitted(config: AxisConfig, count: nat, duration: u64) {
    0 < count <= 0x8000_0000 && Span(config, duration) >= 0
  }

  lemma AllowedIsAdmitted(config: AxisConfig, count: u64, duration: u64)
    requires ConfigOk(config) && MoveAllowed(config, count, duration)
    requires 0 < count <= 0x8000_0000
    ensures Admitted(config, count, duration)
    ensures count * Period(config) <= duration
  {
    var rate, period := config.maximumRate, Period(config);
    RateExact(count, duration, rate);
    if duration > 0 {
      PeriodArithmetic(count, period, rate, duration);
    }
  }

  lemma PeriodArithmetic(count: nat, period: nat, rate: nat, duration: nat)
    requires rate > 0 && rate * period <= NANOSECONDS_PER_SECOND
    requires count * NANOSECONDS_PER_SECOND <= rate * duration
    ensures count * period <= duration
  {
    MulMonotone(count, rate * period, NANOSECONDS_PER_SECOND);
    assert (count * period) * rate == count * (rate * period);
    AtMostQuotient(count * period, rate * duration, rate);
    QuotientOf(duration, 0, duration * rate, rate);
  }

  /** The offset of rise `index` from the first one, in exact arithmetic. */
  function RiseOffset(config: AxisConfig, count: nat, duration: nat, index: nat): nat
    requires Span(config, duration) >= 0 && count > 0
  {
    if count == 1 then 0 else Span(config, duration) * index / (count - 1)
  }

  /** The 64-bit computation of an edge time is exact: every rise of an admitted move is at its
      interpolated place between the setup time and one pulse before the end, and its fall is a pulse
      later, by the end of the segment. */
  lemma EdgeTimesExact(config: AxisConfig, segment: Segment, count: u64, index: u64)
    requires Admitted(config, count, segment.duration) && segment.End() <= U64_MAX && index < count
    ensures RiseTime(config, segment, count, index) ==
            segment.start + config.setup + RiseOffset(config, count, segment.duration, index)
    ensures segment.start + config.setup <= RiseTime(config, segment, count, index)
    ensures RiseTime(config, segment, count, index) <= segment.End() - config.pulseWidth
    ensures FallTime(config, segment, count, index) == RiseTime(config, segment, count, index) + config.pulseWidth
    ensures FallTime(config, segment, count, index) <= segment.End()
  {
    RiseExact(config, segment, count, index);
    RiseBounds(config, segment, count, index);
    FallsLater(config, segment, count, index);
  }

  lemma RiseBounds(config: AxisConfig, segment: Segment, count: u64, index: u64)
    requires Admitted(config, count, segment.duration) && segment.End() <= U64_MAX && index < count
    ensures segment.start + config.setup <= RiseTime(config, segment, count, index)
    ensures RiseTime(config, segment, count, index) <= segment.End() - config.pulseWidth
  {
    var rise, offset := RiseTime(config, segment, count, index), RiseOffset(config, count, segment.duration, index);
    assert rise == segment.start + config.setup + offset by {
      RiseExact(config, segment, count, index);
    }
    assert 0 <= offset <= Span(config, segment.duration) by {
      OffsetExact(config, count, segment.duration, index);
    }
    RiseWithin(config, segment, rise, offset);
  }

  lemma FallsLater(config: AxisConfig, segment: Segment, count: u64, index: u64)
    requires Admitted(config, count, segment.duration) && segment.End() <= U64_MAX && index < count
    requires RiseTime(config, segment, count, index) <= segment.End() - config.pulseWidth
    ensures FallTime(config, segment, count, index) == RiseTime(config, segment, count, index) + config.pulseWidth
    ensures FallTime(config, segment, count, index) <= segment.End()
  {
    WrapSmall(RiseTime(config, segment, count, index) + config.pulseWidth);
  }

  lemma RiseWithin(config: AxisConfig, segment: Segment, rise: u64, offset: int)
    requires rise == segment.start + config.setup + offset && 0 <= offset <= Span(config, segment.duration)
    requires segment.End() <= U64_MAX
    ensures segment.start + config.setup <= rise <= segment.End() - config.pulseWidth
  {
  }

  lemma RiseExact(config: AxisConfig, segment: Segment, count: u64, index: u64)
    requires Admitted(config, count, segment.duration) && segment.End() <= U64_MAX && index < count
    ensures RiseTime(config, segment, count, index) ==
            segment.start + config.setup + RiseOffset(config, count, segment.duration, index)
  {
    BoundsExact(config, segment);
    OffsetExact(config, count, segment.duration, index);
    WrapSmall(segment.start + config.setup + RiseOffset(config, count, segment.duration, index));
  }

  lemma WrapSmall(x: nat)
    requires x <= U64_MAX
    ensures Wrap64(x) == x
  {
  }

  lemma OffsetExact(config: AxisConfig, count: u64, duration: u64, index: u64)
    requires Admitted(config, count, duration) && index < count
    ensures 0 <= RiseOffset(config, count, duration, index) <= Span(config, duration)
    ensures count > 1 ==>
              InterpolateOffset(Span(config, duration), index, count - 1) == RiseOffset(config, count, duration, index)
  {
    if count > 1 {
      InterpolateExact(Span(config, duration), index, count - 1);
    }
  }

  /** The first rise, the last rise and the time between them are computed without wrap-around. */
  lemma BoundsExact(config: AxisConfig, segment: Segment)
    requires Span(config, segment.duration) >= 0 && segment.End() <= U64_MAX
    ensures FirstRise(config, segment) == segment.start + config.setup
    ensures LastRise(config, segment) == segment.End() - config.pulseWidth
    ensures RiseSpan(config, segment) == Span(config, segment.duration)
  {
    assert Wrap64(segment.start + segment.duration) == segment.End();
  }

  lemma RisesAscend(config: AxisConfig, segment: Segment, count: u64, i: u64, j: u64)
    requires Admitted(config, count, segment.duration) && segment.End() <= U64_MAX && i <= j < count
    ensures RiseTime(config, segment, count, i) <= RiseTime(config, segment, count, j)
    ensures FallTime(config, segment, count, i) <= FallTime(config, segment, count, j)
  {
    EdgeTimesExact(config, segment, count, i);
    EdgeTimesExact(config, segment, count, j);
    if count > 1 {
      var span := Span(config, segment.duration);
      MulMonotone(span, i, j);
      QuotientMonotone(span * i, span * j, count - 1);
    }
  }

  /** An accepted move has a nanosecond and more for every step between its first and its last rise. */
  lemma AllowedSpan(config: AxisConfig, count: u64, duration: u64)
    requires ConfigOk(config) && MoveAllowed(config, count, duration) && 0 < count
    ensures count - 1 <= Span(config, duration)
  {
    var period, available := Period(config), duration - config.setup;
    AtMostQuotient(count - 1, available, period);
    if count > 1 {
      assert (count - 1) * period == (count - 1) * config.pulseWidth + (count - 1) * config.minimumLow;
      MulAtLeast(count - 1, config.pulseWidth);
      MulMonotone(count - 1, 1, config.minimumLow);
    }
  }

  /** The rises of an accepted move come one strictly after the other, and so do its falls. */
  lemma RisesStrictlyAscend(config: AxisConfig, segment: Segment, count: u64, i: u64, j: u64)
    requires ConfigOk(config) && MoveAllowed(config, count, segment.duration) && segment.End() <= U64_MAX
    requires i < j < count <= 0x8000_0000
    ensures RiseTime(config, segment, count, i) < RiseTime(config, segment, count, j)
    ensures FallTime(config, segment, count, i) < FallTime(config, segment, count, j)
  {
    AllowedIsAdmitted(config, count, segment.duration);
    AllowedSpan(config, count, segment.duration);
    EdgeTimesExact(config, segment, count, i);
    EdgeTimesExact(config, segment, count, i + 1);
    StepGap(Span(config, segment.duration), count - 1, i, 1);
    RisesAscend(config, segment, count, i + 1, j);
  }

  // ---------------------------------------------------------------- spacing

  /** Every two consecutive rises leave room for the pulse and its low time. */
  ghost predicate Spaced(config: AxisConfig, count: nat, duration: nat)
    requires Span(config, duration) >= 0 && count > 0
  {
    forall i, j | 0 <= i && j == i + 1 && j < count ::
      RiseOffset(config, count, duration, j) - RiseOffset(config, count, duration, i) >= Period(config)
  }

  lemma StepGap(span: nat, n: nat, index: nat, period: nat)
    requires n > 0 && n * period <= span
    ensures span * (index + 1) / n - span * index / n >= period
  {
    DivMod(span * index, n);
    var low := span * index / n;
    assert (low + period) * n == low * n + n * period;
    assert span * (index + 1) == span * index + span;
    AtMostQuotient(low + period, span * (index + 1), n);
  }

  lemma {:induction false} GapsAddUp(config: AxisConfig, count: nat, duration: nat, k: nat)
    requires Span(config, duration) >= 0 && count > 1 && k < count && Spaced(config, count, duration)
    ensures RiseOffset(config, count, duration, k) >= k * Period(config)
  {
    if k > 0 {
      GapsAddUp(config, count, duration, k - 1);
      assert k * Period(config) == (k - 1) * Period(config) + Period(config);
    }
  }

  /** The rises of a move are far enough apart exactly when its periods fit between the first and the
      last rise: a condition on the configuration and the request that can be checked beforehand. */
  lemma SpacedExactly(config: AxisConfig, count: nat, duration: nat)
    requires Span(config, duration) >= 0 && count > 0
    ensures Spaced(config, count, duration) <==> (count - 1) * Period(config) <= Span(config, duration)
  {
    var span, period := Span(config, duration), Period(config);
    if count > 1 {
      if (count - 1) * period <= span {
        forall i, j | 0 <= i && j == i + 1 && j < count
          ensures RiseOffset(config, count, duration, j) - RiseOffset(config, count, duration, i) >= period
        {
          StepGap(span, count - 1, i, period);
        }
      }
      if Spaced(config, count, duration) {
        GapsAddUp(config, count, duration, count - 1);
        QuotientOf(span, 0, span * (count - 1), count - 1);
      }
    }
  }

  /** When the setup time is at most the minimum low time, every admitted move keeps consecutive rises
      a pulse and a low time apart. */
  lemma AdmittedPulsesSpaced(config: AxisConfig, segment: Segment, count: u64, index: u64)
    requires ConfigOk(config) && config.setup <= config.minimumLow && segment.End() <= U64_MAX
    requires MoveAllowed(config, count, segment.duration) && count <= 0x8000_0000 && index + 1 < count
    ensures RiseTime(config, segment, count, index + 1) >=
            RiseTime(config, segment, count, index) + config.pulseWidth + config.minimumLow
    ensures RiseTime(config, segment, count, index + 1) >= FallTime(config, segment, count, index) + config.minimumLow
  {
    AllowedIsAdmitted(config, count, segment.duration);
    EdgeTimesExact(config, segment, count, index);
    EdgeTimesExact(config, segment, count, index + 1);
    assert (count - 1) * Period(config) == count * Period(config) - Period(config);
    SpacedExactly(config, count, segment.duration);
  }

  /** A setup time longer than the low time lets an admitted move raise its line too soon. */
  lemma LongSetupCrowdsPulses()
    ensures var config := AxisConfig(1, 500000000, 1, 1, 1000);
            && ConfigOk(config) && config.setup > config.minimumLow
            && MoveAllowed(config, 2, 1002)
            && Span(config, 1002) >= 0 && !Spaced(config, 2, 1002)
  {
    var config := AxisConfig(1, 500000000, 1, 1, 1000);
    RateExact(2, 1002, 500000000);
    SpacedExactly(config, 2, 1002);
  }
}
