/** What every run of the discipline engine keeps, and the history of a run. */
module Runs {
  import opened Wrappers
  import opened Numbers
  import opened Discipline

  const MAX_NUDGE_US := 20_000
  const MAX_ERROR_US := 200_000

  ghost predicate Inv(c: Clock) {
    && (c.ppsLocked <==> c.lastPpsUs.Some?)
    && (c.ppsLocked ==>
          && c.anchor.Some?
          && c.lastSyncTs == Pack(c.anchor.value.unixSeconds, 0)
          && Abs(c.anchor.value.monotonicUs - c.lastPpsUs.value) <= MAX_NUDGE_US)
    && (!c.ppsLocked ==>
          && !c.ppsHasSample && c.freqPpm == 0.0 && c.pendingStep.None?
          && c.stepCount == 0 && c.lastSyncTs == 0)
    && -SERVO_MAX_FREQ_PPM <= c.freqPpm <= SERVO_MAX_FREQ_PPM
    && 0.0 <= c.ppsJitterUs <= MAX_ERROR_US as real
    && c.pendingStep != Some(0)
    && c.pendingLeap <= 2
  }

  lemma NudgeBounded(err: int)
    ensures Abs(err) <= MAX_ERROR_US ==> Abs(Nudge(err)) <= MAX_NUDGE_US
    ensures Abs(err) <= PPS_OUTLIER_THRESHOLD_US ==> Abs(Nudge(err)) <= 5_000
  {
    if Abs(err) <= MAX_ERROR_US {
      TruncBounded(err as real * SERVO_KP, MAX_NUDGE_US);
    }
    if Abs(err) <= PPS_OUTLIER_THRESHOLD_US {
      TruncBounded(err as real * SERVO_KP, 5_000);
    }
  }

  lemma StepKeepsInv(c: Clock, e: Event)
    requires Inv(c)
    ensures Inv(Step(c, e))
  {
    if Accepts(c, e) {
      NudgeBounded(PhaseError(e.interval.value));
    }
  }

  lemma {:induction false} RunKeepsInv(c: Clock, es: seq<Event>)
    requires Inv(c)
    ensures Inv(Run(c, es))
    decreases |es|
  {
    if es != [] {
      StepKeepsInv(c, es[0]);
      RunKeepsInv(Step(c, es[0]), es[1..]);
    }
  }

  /** Every state the engine can reach from boot. */
  lemma ReachableInv(fudge: Fudge, es: seq<Event>)
    ensures Inv(Run(Fresh(fudge), es))
  {
    RunKeepsInv(Fresh(fudge), es);
  }

  lemma {:induction false} RunAppend(c: Clock, es: seq<Event>, fs: seq<Event>)
    ensures Run(c, es + fs) == Run(Run(c, es), fs)
    decreases |es|
  {
    if es == [] {
      assert es + fs == fs;
    } else {
      assert (es + fs)[1..] == es[1..] + fs;
      RunAppend(Step(c, es[0]), es[1..], fs);
    }
  }

  // --- History ---

  /** How many pulses of the run were accepted while locked. */
  ghost function AcceptedCount(c: Clock, es: seq<Event>): nat
    decreases |es|
  {
    if es == [] then 0
    else (if Accepts(c, es[0]) then 1 else 0) + AcceptedCount(Step(c, es[0]), es[1..])
  }

  /** The edge of the last pulse that locked the clock or was accepted while locked. */
  ghost function LastGoodEdge(c: Clock, es: seq<Event>): Option<i64>
    decreases |es|
  {
    if es == [] then None
    else
      var later := LastGoodEdge(Step(c, es[0]), es[1..]);
      if later.Some? then later
      else if Accepts(c, es[0]) || Locks(c, es[0]) then Some(es[0].edgeUs)
      else None
  }

  /** The state remembers exactly that edge. */
  lemma {:induction false} LastEdgeRemembered(c: Clock, es: seq<Event>)
    requires Inv(c)
    ensures Run(c, es).lastPpsUs == if LastGoodEdge(c, es).Some? then LastGoodEdge(c, es) else c.lastPpsUs
    decreases |es|
  {
    if es != [] {
      StepKeepsInv(c, es[0]);
      LastEdgeRemembered(Step(c, es[0]), es[1..]);
    }
  }

  /** Pulses that neither lock nor pass the filters change nothing the served time depends on. */
  lemma RejectedPulseKeepsTime(c: Clock, e: Event)
    requires Inv(c) && e.Pulse? && !Accepts(c, e) && !Locks(c, e)
    ensures Step(c, e) == c.(glitchCount := Step(c, e).glitchCount)
  {
  }

  // --- Before the first lock ---

  ghost function LastNmea(es: seq<Event>): Option<Anchor> {
    if es == [] then None
    else if LastNmea(es[1..]).Some? then LastNmea(es[1..])
    else if es[0].Nmea? then Some(Anchor(es[0].utc, es[0].nowUs))
    else None
  }

  ghost function FirstSeed(es: seq<Event>): Option<Anchor> {
    if es == [] then None
    else if es[0].Seed? then Some(Anchor(es[0].utc, es[0].nowUs))
    else FirstSeed(es[1..])
  }

  /** Lock is never given up. */
  lemma {:induction false} LockIsForEver(c: Clock, es: seq<Event>)
    requires c.ppsLocked
    ensures Run(c, es).ppsLocked
    decreases |es|
  {
    if es != [] {
      LockIsForEver(Step(c, es[0]), es[1..]);
    }
  }

  lemma {:induction false} UnlockedAnchor(c: Clock, es: seq<Event>)
    requires !Run(c, es).ppsLocked
    ensures Run(c, es).anchor
         == if LastNmea(es).Some? then LastNmea(es) else if c.anchor.Some? then c.anchor else FirstSeed(es)
    decreases |es|
  {
    if es != [] {
      if Step(c, es[0]).ppsLocked {
        LockIsForEver(Step(c, es[0]), es[1..]);
      }
      UnlockedAnchor(Step(c, es[0]), es[1..]);
    }
  }

  /**
   Until the first lock the anchor is the latest sentence at its parse time,
   whatever the RTC said before or after it; without any sentence it is the
   first RTC seed.
   */
  lemma BootstrapAnchor(fudge: Fudge, es: seq<Event>)
    requires !Run(Fresh(fudge), es).ppsLocked
    ensures Run(Fresh(fudge), es).anchor == if LastNmea(es).Some? then LastNmea(es) else FirstSeed(es)
  {
    UnlockedAnchor(Fresh(fudge), es);
  }
}
