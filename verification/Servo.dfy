/** The servo over whole runs: frequency estimate, jitter, step confirmation and re-anchoring jumps. */
module Servo {
  import opened Wrappers
  import opened Numbers
  import opened Discipline
  import opened Runs
  import opened Counting

  /** Every accepted pulse of the run has its phase error in `[lo, hi]`. */
  ghost predicate ErrorsWithin(c: Clock, es: seq<Event>, lo: int, hi: int)
    decreases |es|
  {
    es != [] ==>
    && (Accepts(c, es[0]) ==> lo <= PhaseError(es[0].interval.value) <= hi)
    && ErrorsWithin(Step(c, es[0]), es[1..], lo, hi)
  }

  // --- Frequency estimate ---

  lemma BlendStaysBetween(f: real, e: real, lo: real, hi: real)
    requires lo <= f <= hi && lo <= e <= hi
    ensures lo <= f + (e - f) * SERVO_KI <= hi
  {
  }

  /** The estimate never leaves the hull of zero and the accepted phase errors. */
  lemma {:induction false} EstimateWithinHull(c: Clock, es: seq<Event>, lo: int, hi: int)
    requires Inv(c) && lo <= 0 <= hi
    requires lo as real <= c.freqPpm <= hi as real && ErrorsWithin(c, es, lo, hi)
    ensures lo as real <= Run(c, es).freqPpm <= hi as real
    ensures -SERVO_MAX_FREQ_PPM <= Run(c, es).freqPpm <= SERVO_MAX_FREQ_PPM
    decreases |es|
  {
    if es != [] {
      StepKeepsInv(c, es[0]);
      if Accepts(c, es[0]) {
        BlendStaysBetween(c.freqPpm, PhaseError(es[0].interval.value) as real, lo as real, hi as real);
      }
      EstimateWithinHull(Step(c, es[0]), es[1..], lo, hi);
    }
  }

  lemma ConstantErrorShrinks(f: real, e: int)
    requires -500 <= e <= 500 && -500.0 <= f <= 500.0
    ensures UpdatedFreq(f, e) - e as real == 0.99 * (f - e as real)
  {
    BlendStaysBetween(f, e as real, -500.0, 500.0);
  }

  ghost function Power(b: real, n: nat): real {
    if n == 0 then 1.0 else b * Power(b, n - 1)
  }

  /** What `n` pulses leave of the distance `d`. */
  ghost function Remaining(n: nat, d: real): real {
    if n == 0 then d else Remaining(n - 1, 0.99 * d)
  }

  lemma {:induction false} RemainingIsPower(n: nat, d: real)
    ensures Remaining(n, d) == Power(0.99, n) * d
  {
    if n > 0 {
      RemainingIsPower(n - 1, 0.99 * d);
    }
  }

  lemma ReadAsPower(rest: real, n: nat, d: real)
    requires rest == Remaining(n, d)
    ensures rest == Power(0.99, n) * d
  {
    RemainingIsPower(n, d);
  }

  lemma {:induction false} EstimateShrinks(c: Clock, es: seq<Event>, e: int)
    requires Inv(c) && -500 <= e <= 500 && ErrorsWithin(c, es, e, e)
    ensures Run(c, es).freqPpm - e as real == Remaining(AcceptedCount(c, es), c.freqPpm - e as real)
    decreases |es|
  {
    hide CorrectedElapsed, Pack, Nudge;
    if es != [] {
      StepKeepsInv(c, es[0]);
      EstimateShrinks(Step(c, es[0]), es[1..], e);
      if Accepts(c, es[0]) {
        assert PhaseError(es[0].interval.value) == e;
        ConstantErrorShrinks(c.freqPpm, e);
      }
    }
  }

  /**
   Under a constant offset `e` every accepted pulse takes exactly one hundredth
   off the distance to it: after `n` of them 0.99^n is left, without overshoot,
   whatever sentences and rejected pulses come between.
   */
  lemma EstimateConverges(c: Clock, es: seq<Event>, e: int)
    requires Inv(c) && -500 <= e <= 500 && ErrorsWithin(c, es, e, e)
    ensures Run(c, es).freqPpm - e as real == Power(0.99, AcceptedCount(c, es)) * (c.freqPpm - e as real)
  {
    hide Step;
    EstimateShrinks(c, es, e);
    ReadAsPower(Run(c, es).freqPpm - e as real, AcceptedCount(c, es), c.freqPpm - e as real);
  }

  // --- Jitter ---

  /** The smoothed jitter never exceeds the largest accepted phase error. */
  lemma {:induction false} JitterWithinErrors(c: Clock, es: seq<Event>, bound: nat)
    requires 0.0 <= c.ppsJitterUs <= bound as real && ErrorsWithin(c, es, -(bound as int), bound)
    ensures 0.0 <= Run(c, es).ppsJitterUs <= bound as real
    decreases |es|
  {
    if es != [] {
      JitterWithinErrors(Step(c, es[0]), es[1..], bound);
    }
  }

  // --- Step discipline ---

  /** Twice the confirmed steps, plus one while a step is pending, never exceeds the accepted pulses. */
  lemma {:induction false} StepsCostTwoPulses(c: Clock, es: seq<Event>)
    ensures 2 * Run(c, es).stepCount + (if Run(c, es).pendingStep.Some? then 1 else 0)
         <= 2 * c.stepCount + (if c.pendingStep.Some? then 1 else 0) + AcceptedCount(c, es)
    decreases |es|
  {
    if es != [] {
      StepsCostTwoPulses(Step(c, es[0]), es[1..]);
    }
  }

  /** The GPS disagreement seen by the last accepted pulse of the run. */
  ghost function LastDisagreement(c: Clock, es: seq<Event>): Option<int>
    decreases |es|
  {
    if es == [] then None
    else
      var later := LastDisagreement(Step(c, es[0]), es[1..]);
      if later.Some? then later
      else if Accepts(c, es[0]) then Some(Disagreement(c, PhaseError(es[0].interval.value), es[0].edgeUs))
      else None
  }

  lemma {:induction false} PendingIsLastDisagreement(c: Clock, es: seq<Event>)
    ensures Run(c, es).pendingStep.Some? ==>
              Run(c, es).pendingStep
              == if LastDisagreement(c, es).Some? then LastDisagreement(c, es) else c.pendingStep
    decreases |es|
  {
    if es != [] {
      PendingIsLastDisagreement(Step(c, es[0]), es[1..]);
    }
  }

  /**
   From boot, an accepted pulse leaves the counted second for the GPS second
   only if the accepted pulse before it, with only rejected pulses in between,
   saw the identical disagreement.  Otherwise it keeps the counted second, so
   an isolated mis-pairing never moves it.
   */
  lemma OnlyRepeatedDisagreementSteps(fudge: Fudge, es: seq<Event>, e: Event)
    requires var c := Run(Fresh(fudge), es); Accepts(c, e)
    ensures var c := Run(Fresh(fudge), es);
            var (c', err) := (Step(c, e), PhaseError(e.interval.value));
            var delta := Disagreement(c, err, e.edgeUs);
            && (c'.anchor.value.unixSeconds != Predicted(c, err, e.edgeUs) ==>
                  && LastDisagreement(Fresh(fudge), es) == Some(delta)
                  && delta != 0
                  && c'.anchor.value.unixSeconds == Predicted(c, err, e.edgeUs) + delta
                  && GpsSecondAtEdge(c, e.edgeUs) == Some(c'.anchor.value.unixSeconds))
            && (c'.stepCount != c.stepCount ==> LastDisagreement(Fresh(fudge), es) == Some(delta))
  {
    PendingIsLastDisagreement(Fresh(fudge), es);
  }

  // --- Re-anchoring jump ---

  /** Disciplined Unix time in microseconds read at `nowUs` from an anchor. */
  ghost function DisciplinedUs(a: Anchor, freq: real, nowUs: i64): int {
    a.unixSeconds * MICROS_PER_SEC + CorrectedElapsed(freq, Sat(nowUs - a.monotonicUs))
  }

  /** How far re-anchoring at an accepted pulse moves the time read at its edge. */
  ghost function Jump(c: Clock, e: Event): int
    requires Accepts(c, e)
  {
    var c' := Step(c, e);
    DisciplinedUs(c'.anchor.value, c'.freqPpm, e.edgeUs) - DisciplinedUs(c.anchor.value, c'.freqPpm, e.edgeUs)
  }

  /** A frequency within 500 ppm changes an elapsed time by at most a 2000th, plus truncation. */
  lemma CorrectionIsSmall(freq: real, rawUs: i64, bound: nat)
    requires -500.0 <= freq <= 500.0 && Abs(rawUs) <= 2_000 * bound && bound <= 1_000_000
    ensures Abs(CorrectedElapsed(freq, rawUs) - Max(0, rawUs)) <= bound + 1
  {
    ScalingIsSmall(freq, rawUs as real, bound as real);
    TruncNear(rawUs as real * Scale(freq), rawUs, bound);
    CorrectedIsTruncated(freq, rawUs);
  }

  lemma TruncNear(x: real, k: int, bound: nat)
    requires RAbs(x - k as real) <= bound as real
    ensures Abs(Trunc(x) - k) <= bound + 1
  {
  }

  lemma ScalingIsSmall(freq: real, r: real, bound: real)
    requires -500.0 <= freq <= 500.0 && RAbs(r) <= 2_000.0 * bound
    ensures RAbs(r * Scale(freq) - r) <= bound
  {
    DriftIsSmall(freq, r, bound);
    assert r * Scale(freq) == r - r * freq / 1_000_000.0;
  }

  lemma DriftIsSmall(freq: real, r: real, bound: real)
    requires -500.0 <= freq <= 500.0 && RAbs(r) <= 2_000.0 * bound
    ensures RAbs(r * freq / 1_000_000.0) <= bound
  {
    ProductAtMost(RAbs(freq), RAbs(r), 500.0, 2_000.0 * bound);
    assert r * freq == RAbs(r) * RAbs(freq) || r * freq == -(RAbs(r) * RAbs(freq));
  }

  lemma ResidueBounded(elapsed: nat)
    ensures -500_000 <= elapsed - (elapsed + 500_000) / 1_000_000 * 1_000_000 < 500_000
  {
  }

  /** The estimate this pulse is labelled with, and the monotonic time since the anchor. */
  ghost function FreqAt(c: Clock, e: Event): real
    requires Accepts(c, e)
  {
    UpdatedFreq(c.freqPpm, PhaseError(e.interval.value))
  }

  ghost function RawAt(c: Clock, e: Event): i64
    requires Accepts(c, e)
  {
    Sat(e.edgeUs - c.anchor.value.monotonicUs)
  }

  /** The nudge as it reads back at the edge. */
  ghost function NudgeBack(e: Event): i64
    requires e.Pulse? && e.interval.Some?
  {
    Sat(e.edgeUs - Sat(e.edgeUs - Nudge(PhaseError(e.interval.value))))
  }

  /** By how many seconds the counted second runs past the largest that can be held. */
  ghost function Overrun(c: Clock, e: Event): nat
    requires Accepts(c, e)
  {
    Max(0, c.anchor.value.unixSeconds + ElapsedSeconds(FreqAt(c, e), RawAt(c, e)) - I64_MAX)
  }

  /**
   Without a step the jump is exactly what rounding to whole seconds drops, plus
   the nudge read back, less the seconds lost to saturation.
   */
  lemma JumpExactly(c: Clock, e: Event)
    requires Accepts(c, e) && !Confirms(c, PhaseError(e.interval.value), e.edgeUs)
    ensures Jump(c, e)
         == ElapsedSeconds(FreqAt(c, e), RawAt(c, e)) * MICROS_PER_SEC - CorrectedElapsed(FreqAt(c, e), RawAt(c, e))
            + CorrectedElapsed(FreqAt(c, e), NudgeBack(e)) - Overrun(c, e) * MICROS_PER_SEC
  {
    assert 0 <= ElapsedSeconds(FreqAt(c, e), RawAt(c, e));
    hide Pack, NextJitter, SatInc, GpsSecondAtEdge, CorrectedElapsed, Nudge, UpdatedFreq;
  }

  lemma NudgeBackWithin(e: Event, bound: nat)
    requires e.Pulse? && e.interval.Some? && Abs(Nudge(PhaseError(e.interval.value))) <= bound <= MAX_NUDGE_US
    ensures Abs(NudgeBack(e)) <= bound
    ensures Nudge(PhaseError(e.interval.value)) >= 0 ==> NudgeBack(e) >= 0
    ensures Nudge(PhaseError(e.interval.value)) <= 0 ==> NudgeBack(e) <= 0
  {
    hide Nudge;
  }

  /**
   Re-anchoring without a step moves the time read at the edge by at most half
   a second plus the nudge (20 ms, with the frequency correction of the nudge),
   however many pulses were missed, unless the counted second overruns.
   */
  lemma JumpBounded(c: Clock, e: Event)
    requires Inv(c) && Accepts(c, e) && !Confirms(c, PhaseError(e.interval.value), e.edgeUs) && Overrun(c, e) == 0
    ensures Abs(Jump(c, e)) <= 500_000 + MAX_NUDGE_US + 11
  {
    NudgeBounded(PhaseError(e.interval.value));
    NudgeBackWithin(e, MAX_NUDGE_US);
    JumpExactly(c, e);
    CorrectionIsSmall(FreqAt(c, e), NudgeBack(e), 10);
    ResidueBounded(CorrectedElapsed(FreqAt(c, e), RawAt(c, e)));
  }

  /** A clock locked on the last second that can be held falls back a whole second at the next pulse. */
  lemma OverrunJumpsBack()
    ensures var c := Run(Fresh(1), [Nmea(I64_MAX, 500_000), Pulse(None, 1_000_000)]);
            var e := Pulse(Some(1_000_000), 2_000_000);
            && Accepts(c, e) && !Confirms(c, PhaseError(e.interval.value), e.edgeUs)
            && Overrun(c, e) == 1 && Jump(c, e) == -1_000_000
  {
    var es := [Nmea(I64_MAX, 500_000), Pulse(None, 1_000_000)];
    var c := UpdateGps(Fresh(1), I64_MAX, 500_000);
    var c' := LockAnchor(c, I64_MAX, 1_000_000);
    hide Pack;
    assert es[1..] == [es[1]] && [es[1]][1..] == [];
    assert Step(Fresh(1), es[0]) == c && Step(c, es[1]) == c';
    assert Run(c, [es[1]]) == c';
    assert Run(Fresh(1), es) == c';
    hide Step, Run;
    PerfectSecond(c', Pulse(Some(1_000_000), 2_000_000));
  }

  /** One perfect second after an anchor on the last second that can be held. */
  lemma PerfectSecond(c: Clock, e: Event)
    requires c.ppsLocked && c.freqPpm == 0.0 && c.anchor.Some? && e == Pulse(Some(1_000_000), 2_000_000)
    requires c.anchor.value == Anchor(I64_MAX, 1_000_000) && c.pendingStep.None?
    ensures Accepts(c, e) && !Confirms(c, PhaseError(e.interval.value), e.edgeUs)
    ensures Overrun(c, e) == 1 && Jump(c, e) == -1_000_000
  {
    assert UpdatedFreq(0.0, 0) == 0.0 && Nudge(0) == 0;
    JumpExactly(c, e);
    hide Jump;
  }

  lemma AboutOneSecond(c: Clock, e: Event)
    requires Inv(c) && Accepts(c, e)
    requires c.ppsHasSample && e.edgeUs - c.lastPpsUs.value == e.interval.value
    ensures Abs(PhaseError(e.interval.value)) <= PPS_OUTLIER_THRESHOLD_US
    ensures Abs(e.edgeUs - c.anchor.value.monotonicUs - e.interval.value) <= MAX_NUDGE_US
  {
  }

  lemma NudgeFollowsError(err: int)
    requires Abs(err) <= PPS_OUTLIER_THRESHOLD_US
    ensures if err >= 0 then 0 <= Nudge(err) <= 5_000 else -5_000 <= Nudge(err) <= 0
  {
  }

  lemma ConsecutiveSum(jump: int, corrected: int, raw: int, readBack: int, back: int, err: int)
    requires jump == (corrected + 500_000) / 1_000_000 * 1_000_000 - corrected + readBack
    requires Abs(err) <= 50_000 && Abs(raw - (1_000_000 + err)) <= 20_000
    requires if err >= 0 then 0 <= back <= 5_000 else -5_000 <= back <= 0
    requires Abs(corrected - Max(0, raw)) <= 601 && Abs(readBack - Max(0, back)) <= 4
    ensures Abs(jump) < 71_000
  {
    assert (corrected + 500_000) / 1_000_000 == 1;
  }

  /**
   When the interval runs from the last good edge and a jitter sample exists,
   the move is under 71 ms.
   */
  lemma JumpAfterOneSecond(c: Clock, e: Event)
    requires Inv(c) && Accepts(c, e) && !Confirms(c, PhaseError(e.interval.value), e.edgeUs) && Overrun(c, e) == 0
    requires c.ppsHasSample && e.edgeUs - c.lastPpsUs.value == e.interval.value
    ensures Abs(Jump(c, e)) < 71_000
  {
    AboutOneSecond(c, e);
    NudgeFollowsError(PhaseError(e.interval.value));
    NudgeBackWithin(e, 5_000);
    JumpExactly(c, e);
    JumpFromParts(Jump(c, e), FreqAt(c, e), RawAt(c, e), NudgeBack(e), PhaseError(e.interval.value));
  }

  lemma JumpFromParts(jump: int, freq: real, raw: i64, back: i64, err: int)
    requires -500.0 <= freq <= 500.0
    requires Abs(err) <= PPS_OUTLIER_THRESHOLD_US && Abs(raw - (1_000_000 + err)) <= MAX_NUDGE_US
    requires if err >= 0 then 0 <= back <= 5_000 else -5_000 <= back <= 0
    requires jump == ElapsedSeconds(freq, raw) * MICROS_PER_SEC - CorrectedElapsed(freq, raw)
                     + CorrectedElapsed(freq, back)
    ensures Abs(jump) < 71_000
  {
    hide CorrectedElapsed;
    CorrectionIsSmall(freq, back, 3);
    CorrectionIsSmall(freq, raw, 600);
    ConsecutiveSum(jump, CorrectedElapsed(freq, raw), raw, CorrectedElapsed(freq, back), back, err);
  }
}
