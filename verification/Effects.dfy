/**
 What pulses leave behind, in plain numbers: the nudged anchor, the estimate, the
 jitter and the counters, after one pulse and after any run.
 */
module Effects {
  import opened Wrappers
  import opened Numbers
  import opened Discipline
  import opened Runs
  import opened Servo

  /** A locked clock accepts an interval of 0.8 to 1.2 s, and of 0.95 to 1.05 s once it has a jitter sample. */
  lemma AcceptedExactly(c: Clock, interval: Option<u32>, edgeUs: i64)
    requires Inv(c)
    ensures Accepts(c, Pulse(interval, edgeUs))
            <==> && c.ppsLocked && interval.Some?
                 && 800_000 <= interval.value <= 1_200_000
                 && (c.ppsHasSample ==> 950_000 <= interval.value <= 1_050_000)
  {
  }

  // --- The anchor ---

  /** A tenth of the error, rounded toward zero. */
  ghost function Tenth(err: int): int {
    if err >= 0 then err / 10 else -(-err / 10)
  }

  lemma NudgeIsATenth(err: int)
    ensures Nudge(err) == Tenth(err)
  {
    var (q, r) := (Abs(err) / 10, Abs(err) % 10);
    assert Abs(err) as real * 0.1 == q as real + r as real * 0.1;
  }

  /** An accepted pulse anchors the clock at its edge less a tenth of its error. */
  lemma AnchorOfPulse(c: Clock, e: Event)
    requires Accepts(c, e)
    ensures var err := e.interval.value - 1_000_000;
            && Step(c, e).anchor.Some?
            && Step(c, e).anchor.value.monotonicUs == Sat(e.edgeUs - Tenth(err))
            && Step(c, e).ppsOffsetUs == err
  {
    NudgeIsATenth(e.interval.value - 1_000_000);
    hide Nudge, CorrectedElapsed, Pack, UpdatedFreq;
  }

  /** Where the run's pulses have put the anchor; nothing until one locks the clock. */
  ghost function AnchorUs(c: Clock, es: seq<Event>): Option<i64>
    decreases |es|
  {
    if es == [] then None
    else
      var later := AnchorUs(Step(c, es[0]), es[1..]);
      if later.Some? then later
      else if Accepts(c, es[0]) then Some(Sat(es[0].edgeUs - Tenth(es[0].interval.value - 1_000_000)))
      else if Locks(c, es[0]) then Some(es[0].edgeUs)
      else None
  }

  lemma {:induction false} AnchorKept(c: Clock, es: seq<Event>)
    requires Inv(c)
    ensures AnchorUs(c, es).Some? ==>
              Run(c, es).anchor.Some? && Run(c, es).anchor.value.monotonicUs == AnchorUs(c, es).value
    ensures AnchorUs(c, es).None? && c.ppsLocked ==>
              Run(c, es).anchor.Some? && Run(c, es).anchor.value.monotonicUs == c.anchor.value.monotonicUs
    decreases |es|
  {
    if es != [] {
      StepKeepsInv(c, es[0]);
      AnchorKept(Step(c, es[0]), es[1..]);
      if Accepts(c, es[0]) {
        AnchorOfPulse(c, es[0]);
      }
    }
  }

  lemma {:induction false} AnchoredWhenLocked(c: Clock, es: seq<Event>)
    requires !c.ppsLocked && Run(c, es).ppsLocked
    ensures AnchorUs(c, es).Some?
    decreases |es|
  {
    if es != [] && !Step(c, es[0]).ppsLocked {
      AnchoredWhenLocked(Step(c, es[0]), es[1..]);
    }
  }

  /** Once locked, the anchor stands where the last locking or accepted pulse put it, nudge and all. */
  lemma AnchorOfRun(fudge: Fudge, es: seq<Event>)
    requires Run(Fresh(fudge), es).ppsLocked
    ensures AnchorUs(Fresh(fudge), es).Some? && Run(Fresh(fudge), es).anchor.Some?
    ensures Run(Fresh(fudge), es).anchor.value.monotonicUs == AnchorUs(Fresh(fudge), es).value
  {
    AnchoredWhenLocked(Fresh(fudge), es);
    AnchorKept(Fresh(fudge), es);
  }

  // --- The estimate and the jitter ---

  /** An accepted pulse mixes one part of its error into 99 of the estimate, and holds the result within 500 ppm. */
  lemma EstimateOfPulse(c: Clock, e: Event)
    requires Accepts(c, e)
    ensures var mixed := 0.99 * c.freqPpm + 0.01 * (e.interval.value - 1_000_000) as real;
            Step(c, e).freqPpm == if mixed < -500.0 then -500.0 else if mixed > 500.0 then 500.0 else mixed
  {
    hide Nudge, CorrectedElapsed, Pack;
  }

  /** What `n` pulses leave of the jitter's distance from a constant error. */
  ghost function JitterLeft(n: nat, d: real): real {
    if n == 0 then d else JitterLeft(n - 1, 0.8 * d)
  }

  lemma {:induction false} JitterLeftIsPower(n: nat, d: real)
    ensures JitterLeft(n, d) == Power(0.8, n) * d
  {
    if n > 0 {
      JitterLeftIsPower(n - 1, 0.8 * d);
    }
  }

  lemma {:induction false} JitterShrinks(c: Clock, es: seq<Event>, e: int)
    requires c.ppsHasSample && ErrorsWithin(c, es, e, e)
    ensures Run(c, es).ppsJitterUs - Abs(e) as real
         == JitterLeft(AcceptedCount(c, es), c.ppsJitterUs - Abs(e) as real)
    decreases |es|
  {
    hide CorrectedElapsed, Pack, Nudge;
    if es != [] {
      JitterShrinks(Step(c, es[0]), es[1..], e);
      if Accepts(c, es[0]) {
        assert PhaseError(es[0].interval.value) == e;
        assert Step(c, es[0]).ppsJitterUs - Abs(e) as real == 0.8 * (c.ppsJitterUs - Abs(e) as real);
      }
    }
  }

  /** Under errors of one size each accepted pulse leaves four fifths of the jitter's distance from it. */
  lemma JitterConverges(c: Clock, es: seq<Event>, e: int)
    requires c.ppsHasSample && ErrorsWithin(c, es, e, e)
    ensures Run(c, es).ppsJitterUs - Abs(e) as real
         == Power(0.8, AcceptedCount(c, es)) * (c.ppsJitterUs - Abs(e) as real)
  {
    hide Step;
    JitterShrinks(c, es, e);
    JitterLeftIsPower(AcceptedCount(c, es), c.ppsJitterUs - Abs(e) as real);
  }

  /** The first sample is the error itself. */
  lemma FirstSample(c: Clock, e: Event)
    requires Accepts(c, e) && !c.ppsHasSample
    ensures Step(c, e).ppsHasSample && Step(c, e).ppsJitterUs == Abs(e.interval.value - 1_000_000) as real
  {
    hide Nudge, CorrectedElapsed, Pack, UpdatedFreq;
  }

  // --- Counters ---

  /** Within 0.2 s of a second but more than 50 ms off, on a locked clock that has a sample. */
  ghost predicate IsGlitch(c: Clock, e: Event) {
    && e.Pulse? && e.interval.Some? && c.ppsLocked && c.anchor.Some? && c.ppsHasSample
    && (800_000 <= e.interval.value < 950_000 || 1_050_000 < e.interval.value <= 1_200_000)
  }

  ghost function Glitches(c: Clock, es: seq<Event>): nat
    decreases |es|
  {
    if es == [] then 0
    else (if IsGlitch(c, es[0]) then 1 else 0) + Glitches(Step(c, es[0]), es[1..])
  }

  /** An accepted pulse that leaves the counted second. */
  ghost predicate IsStep(c: Clock, e: Event) {
    Accepts(c, e) && Confirms(c, PhaseError(e.interval.value), e.edgeUs)
  }

  ghost function StepsTaken(c: Clock, es: seq<Event>): nat
    decreases |es|
  {
    if es == [] then 0
    else (if IsStep(c, es[0]) then 1 else 0) + StepsTaken(Step(c, es[0]), es[1..])
  }

  lemma CountersOfEvent(c: Clock, e: Event)
    ensures Step(c, e).glitchCount == if IsGlitch(c, e) then Min(c.glitchCount + 1, 0xFFFF_FFFF) else c.glitchCount
    ensures Step(c, e).stepCount == if IsStep(c, e) then Min(c.stepCount + 1, 0xFFFF_FFFF) else c.stepCount
  {
    hide Nudge, CorrectedElapsed, Pack, UpdatedFreq;
  }

  lemma {:induction false} CountersAdd(c: Clock, es: seq<Event>)
    ensures Run(c, es).glitchCount == Min(c.glitchCount + Glitches(c, es), 0xFFFF_FFFF)
    ensures Run(c, es).stepCount == Min(c.stepCount + StepsTaken(c, es), 0xFFFF_FFFF)
    decreases |es|
  {
    if es != [] {
      CountersOfEvent(c, es[0]);
      hide Step, IsGlitch, IsStep;
      CountersAdd(Step(c, es[0]), es[1..]);
    }
  }

  /** Over every run from boot the counters count exactly the glitches and the steps, up to what they can hold. */
  lemma CountersOfRun(fudge: Fudge, es: seq<Event>)
    ensures Run(Fresh(fudge), es).glitchCount == Min(Glitches(Fresh(fudge), es), 0xFFFF_FFFF)
    ensures Run(Fresh(fudge), es).stepCount == Min(StepsTaken(Fresh(fudge), es), 0xFFFF_FFFF)
  {
    CountersAdd(Fresh(fudge), es);
  }

  // --- The leap announcement ---

  /** The last announcement of the run, clamped to 2; zero when there is none. */
  ghost function LastAnnounced(es: seq<Event>): u8 {
    if es == [] then 0
    else
      var last := es[|es| - 1];
      if last.SetLeap? then (if last.li > 2 then 2 else last.li) else LastAnnounced(es[..|es| - 1])
  }

  /** The announcement that will be served is the last one made. */
  lemma {:induction false} AnnouncementKept(fudge: Fudge, es: seq<Event>)
    ensures Run(Fresh(fudge), es).pendingLeap == LastAnnounced(es)
    decreases |es|
  {
    if es != [] {
      var (init, last) := (es[..|es| - 1], es[|es| - 1]);
      assert es == init + [last];
      RunAppend(Fresh(fudge), init, [last]);
      AnnouncementKept(fudge, init);
      OnlyAnnouncementsCount(Run(Fresh(fudge), init), last);
    }
  }

  lemma OnlyAnnouncementsCount(c: Clock, e: Event)
    ensures Run(c, [e]).pendingLeap == if e.SetLeap? then (if e.li > 2 then 2 else e.li) else c.pendingLeap
  {
    assert Run(c, [e]) == Step(c, e);
    hide Nudge, CorrectedElapsed, Pack, UpdatedFreq, GpsSecondAtEdge;
  }
}
