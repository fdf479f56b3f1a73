/**
 When the root dispersion that goes out with a reply covers the error of the time
 in it: in holdover, between pulses while locked, and where it falls short.
 */
module Advertised {
  import opened Wrappers
  import opened Numbers
  import opened Discipline
  import opened Runs
  import opened Counting
  import opened Labelling
  import opened ServedTime
  import opened Holdover

  /** The anchor second is true, and `nowUs` is `n` true seconds after the last good edge. */
  ghost predicate Serving(c: Clock, w: World, nowUs: i64, n: real) {
    && Inv(c) && c.ppsLocked && Second(c.anchor.value.unixSeconds)
    && Instant(c.lastPpsUs.value) && Instant(nowUs) && After(c.lastPpsUs.value, nowUs, n, w)
  }

  /** How far the time served is from UTC. */
  ghost function ServedError(c: Clock, nowUs: i64, n: real): real
    requires c.anchor.Some?
  {
    RAbs(ServedUs(c, nowUs) as real - (c.anchor.value.unixSeconds as real + n) * 1_000_000.0)
  }

  ghost function Slack(c: Clock, w: World): real
    requires c.anchor.Some? && c.lastPpsUs.Some?
  {
    w.jitterUs + Abs(c.lastPpsUs.value - c.anchor.value.monotonicUs) as real
  }

  /** Jitter and nudge as the clock scales them, and a microsecond of truncation. */
  ghost function Offset(c: Clock, w: World): real
    requires c.anchor.Some? && c.lastPpsUs.Some?
  {
    Slack(c, w) * Scale(c.freqPpm) + 1.0
  }

  /** What the estimate leaves of the oscillator's rate, in ppm. */
  ghost function Residual(c: Clock, w: World): real {
    RAbs(Skew(w.rho, c.freqPpm))
  }

  ghost function Drifted(c: Clock, w: World, n: real): real {
    n * Residual(c, w)
  }

  lemma ErrorWithinDrift(c: Clock, w: World, nowUs: i64, n: real)
    requires Serving(c, w, nowUs, n)
    ensures ServedError(c, nowUs, n) <= Drifted(c, w, n) + Offset(c, w)
  {
    hide Skew, Scale, ServedUs;
    ServedTimeError(c, c.anchor.value.unixSeconds, w, nowUs, n);
  }

  /** True seconds, from time on a monotonic clock at most 500 ppm slow. */
  lemma SecondsServed(c: Clock, w: World, nowUs: i64, n: real)
    requires Serving(c, w, nowUs, n) && -500.0 <= w.rho && 0 <= PpsAge(c, nowUs) < I64_MAX
    ensures n * 999_500.0 <= PpsAge(c, nowUs) as real + w.jitterUs
  {
    SecondsFromAge(PpsAge(c, nowUs) as real, n, w.rho, w.jitterUs);
  }

  lemma SecondsFromAge(ageUs: real, n: real, rho: real, jitter: real)
    requires 0.0 <= n && -500.0 <= rho && RAbs(ageUs - n * (1_000_000.0 + rho)) <= jitter
    ensures n * 999_500.0 <= ageUs + jitter
  {
    MulNonNegative(n, rho + 500.0);
    assert n * (rho + 500.0) == n * (1_000_000.0 + rho) - n * 999_500.0;
  }

  // --- Holdover ---

  /** What is left of the first millisecond after 11 s of residual drift, with the slack. */
  ghost predicate HoldoverBudget(c: Clock, w: World)
    requires c.anchor.Some? && c.lastPpsUs.Some?
  {
    && -500.0 <= w.rho <= 500.0 && 0.0 <= w.jitterUs <= 1_000.0
    && 11.01 * Residual(c, w) + Offset(c, w) <= BASE_DISP_US as real
  }

  /** Half a millisecond a second outruns any residual rate within the budget. */
  lemma DispersionOutrunsDrift(n: real, k: nat, q: real, rest: real)
    requires 0.0 <= q && 0.0 <= rest && 0.0 <= n && n * 999_500.0 < (11.0 + k as real) * 1_000_000.0 + 1_000.0
    requires 11.01 * q + rest <= 1_000.0
    ensures n * q + rest <= 1_000.0 + 500.0 * k as real
  {
    var x := k as real;
    DriftByHundreds(n, 11.01 + 1.001 * x, x, q, rest);
  }

  lemma DriftByHundreds(n: real, most: real, x: real, q: real, rest: real)
    requires 0.0 <= n <= most == 11.01 + 1.001 * x && 0.0 <= x && 0.0 <= q <= 100.0
    requires 11.01 * q + rest <= 1_000.0
    ensures n * q + rest <= 1_000.0 + 500.0 * x
  {
    var (nq, mq, xq) := (n * q, most * q, x * q);
    assert nq <= mq by { ProductAtMost(n, q, most, q); }
    assert xq <= 100.0 * x by {
      MulNonNegative(x, 100.0 - q);
      assert x * (100.0 - q) == 100.0 * x - x * q;
    }
    assert mq == 11.01 * q + 1.001 * xq by { SplitProduct(most, x, q); }
    DriftSum(nq, mq, xq, x, q, rest);
  }

  lemma SplitProduct(most: real, x: real, q: real)
    requires most == 11.01 + 1.001 * x
    ensures most * q == 11.01 * q + 1.001 * (x * q)
  {
  }

  lemma DriftSum(nq: real, mq: real, xq: real, x: real, q: real, rest: real)
    requires nq <= mq == 11.01 * q + 1.001 * xq && xq <= 100.0 * x && 0.0 <= x
    requires 11.01 * q + rest <= 1_000.0
    ensures nq + rest <= 1_000.0 + 500.0 * x
  {
  }

  lemma OffsetPositive(c: Clock, w: World)
    requires Inv(c) && c.ppsLocked && 0.0 <= w.jitterUs
    ensures 0.0 <= Slack(c, w) && 0.0 <= Offset(c, w)
  {
    MulNonNegative(Slack(c, w), Scale(c.freqPpm));
  }

  lemma HoldoverSteps(c: Clock, gpsFix: bool, nowUs: i64) returns (k: nat)
    requires c.anchor.Some? && HOLDOVER_ENTRY_US <= PpsAge(c, nowUs) < HOLDOVER_LIMIT_US
    ensures Dispersion(c, gpsFix, nowUs) == 1_000 + 500 * k
    ensures PpsAge(c, nowUs) < (11 + k) * 1_000_000
  {
    k := (PpsAge(c, nowUs) - HOLDOVER_ENTRY_US) / MICROS_PER_SEC;
    assert k <= 1_998;
  }

  lemma HoldoverTerms(c: Clock, w: World, nowUs: i64, n: real, k: nat)
    requires Serving(c, w, nowUs, n) && HoldoverBudget(c, w)
    requires 0 <= PpsAge(c, nowUs) < (11 + k) * 1_000_000 && PpsAge(c, nowUs) < I64_MAX
    ensures Drifted(c, w, n) + Offset(c, w) <= 1_000.0 + 500.0 * k as real
  {
    SecondsServed(c, w, nowUs, n);
    OffsetPositive(c, w);
    hide Residual, Offset, After, Inv, PpsAge;
    DispersionOutrunsDrift(n, k, Residual(c, w), Offset(c, w));
  }

  lemma LockedTerms(c: Clock, w: World, nowUs: i64, n: real, shown: int)
    requires Serving(c, w, nowUs, n) && NudgeInv(c) && 0 <= PpsAge(c, nowUs) <= MICROS_PER_SEC
    requires -500.0 <= w.rho <= 500.0 && 0.0 <= w.jitterUs <= 20.0 && Residual(c, w) <= 25.0
    requires shown >= 100 && shown as real >= c.ppsJitterUs - 0.5
    ensures Drifted(c, w, n) + Offset(c, w) <= shown as real
  {
    SecondsServed(c, w, nowUs, n);
    OffsetAgainstJitter(c, w);
    hide Residual, Offset, After, Inv, PpsAge;
    SteadyBudget(n, Residual(c, w), Offset(c, w), c.ppsJitterUs, shown);
  }

  /**
   In holdover, for as long as stratum 1 is served, the advertised dispersion
   covers the error of the served time, whenever the residual rate and the slack
   leave room in the first millisecond: for example 45 ppm and half a millisecond.
   */
  lemma HoldoverDispersionCovers(c: Clock, w: World, gpsFix: bool, nowUs: i64, n: real)
    requires Serving(c, w, nowUs, n) && HoldoverBudget(c, w)
    requires HOLDOVER_ENTRY_US <= PpsAge(c, nowUs) < HOLDOVER_LIMIT_US
    ensures ServedError(c, nowUs, n) <= Dispersion(c, gpsFix, nowUs) as real
  {
    var k := HoldoverSteps(c, gpsFix, nowUs);
    DriftWithinSteps(c, w, nowUs, n, k);
    hide ServedError, Dispersion, Serving, PpsAge, HoldoverBudget, Residual, Offset;
    assert Dispersion(c, gpsFix, nowUs) as real == 1_000.0 + 500.0 * k as real;
  }

  lemma DriftWithinSteps(c: Clock, w: World, nowUs: i64, n: real, k: nat)
    requires Serving(c, w, nowUs, n) && HoldoverBudget(c, w)
    requires 0 <= PpsAge(c, nowUs) < (11 + k) * 1_000_000 && PpsAge(c, nowUs) < I64_MAX
    ensures ServedError(c, nowUs, n) <= 1_000.0 + 500.0 * k as real
  {
    HoldoverTerms(c, w, nowUs, n, k);
    hide Serving, Offset, ServedError, Drifted;
    ErrorWithinDrift(c, w, nowUs, n);
  }

  lemma FortyFivePpmFits(c: Clock, w: World)
    requires Inv(c) && c.ppsLocked && -500.0 <= w.rho <= 500.0 && 0.0 <= w.jitterUs
    requires Residual(c, w) <= 45.0 && Slack(c, w) <= 500.0
    ensures HoldoverBudget(c, w)
  {
    ProductAtMost(Slack(c, w), Scale(c.freqPpm), 500.0, 1.0005);
  }

  // --- Between pulses ---

  /** The nudge is at most half the jitter: an accepted error puts a tenth of itself in one, a fifth in the other. */
  ghost predicate NudgeInv(c: Clock) {
    && (c.ppsLocked ==>
          && c.anchor.Some? && c.lastPpsUs.Some?
          && Abs(c.lastPpsUs.value - c.anchor.value.monotonicUs) as real <= c.ppsJitterUs / 2.0)
    && 0.0 <= c.ppsJitterUs
    && (!c.ppsHasSample ==> c.ppsJitterUs == 0.0)
  }

  lemma NudgeIsATenth(err: int)
    ensures Abs(Nudge(err)) as real <= Abs(err) as real / 10.0
  {
  }

  lemma NudgeStep(c: Clock, e: Event)
    requires NudgeInv(c)
    ensures NudgeInv(Step(c, e))
  {
    if Accepts(c, e) {
      NudgeIsATenth(PhaseError(e.interval.value));
    }
    hide Nudge, GpsSecondAtEdge, CorrectedElapsed, Pack;
  }

  lemma {:induction false} NudgeWithinJitter(c: Clock, es: seq<Event>)
    requires NudgeInv(c)
    ensures NudgeInv(Run(c, es))
    decreases |es|
  {
    if es != [] {
      NudgeStep(c, es[0]);
      NudgeWithinJitter(Step(c, es[0]), es[1..]);
    }
  }

  lemma OffsetAgainstJitter(c: Clock, w: World)
    requires Inv(c) && c.ppsLocked && NudgeInv(c) && 0.0 <= w.jitterUs <= 20.0
    ensures Offset(c, w) <= 1.0005 * (20.0 + c.ppsJitterUs / 2.0) + 1.0
  {
    ProductAtMost(Slack(c, w), Scale(c.freqPpm), 20.0 + c.ppsJitterUs / 2.0, 1.0005);
  }

  lemma SteadyBudget(n: real, q: real, offset: real, jitter: real, shown: int)
    requires 0.0 <= n <= 1.001 && 0.0 <= q <= 25.0
    requires offset <= 1.0005 * (20.0 + jitter / 2.0) + 1.0 && 0.0 <= jitter
    requires shown >= 100 && shown as real >= jitter - 0.5
    ensures n * q + offset <= shown as real
  {
    ProductAtMost(n, q, 1.001, 25.0);
  }

  lemma LockedShows(c: Clock, nowUs: i64)
    requires NudgeInv(c) && 0 <= PpsAge(c, nowUs)
    ensures LockedDispersion(c, nowUs) >= 100 && LockedDispersion(c, nowUs) as real >= c.ppsJitterUs - 0.5
  {
  }

  /**
   While Locked, up to a second after the last good edge, the advertised
   dispersion covers the error of the served time, whatever phase errors were
   accepted, when edges are good to 20 us and the residual rate to 25 ppm.
   */
  lemma LockedDispersionCovers(fudge: Fudge, es: seq<Event>, w: World, nowUs: i64, n: real)
    requires var c := Run(Fresh(fudge), es);
             && Serving(c, w, nowUs, n) && 0 <= PpsAge(c, nowUs) <= MICROS_PER_SEC
             && -500.0 <= w.rho <= 500.0 && 0.0 <= w.jitterUs <= 20.0 && Residual(c, w) <= 25.0
    ensures var c := Run(Fresh(fudge), es); ServedError(c, nowUs, n) <= Dispersion(c, true, nowUs) as real
  {
    var c := Run(Fresh(fudge), es);
    NudgeWithinJitter(Fresh(fudge), es);
    LockedShows(c, nowUs);
    LockedTerms(c, w, nowUs, n, LockedDispersion(c, nowUs));
    assert FullySynced(c, true, nowUs);
    hide Serving, Offset, ServedError, Drifted, LockedDispersion, Run;
    ErrorWithinDrift(c, w, nowUs, n);
  }

  // --- Where it falls short ---

  const JUST_LOCKED := [Nmea(1000, 500_000), Pulse(None, 1_000_000)]

  /**
   Still Locked nine seconds later, with no pulse since, the dispersion shown does
   not count the drift: at 45 ppm the served time is 405 us off, and 115 are shown.
   */
  lemma LockedDispersionFallsShort()
    ensures var c := Run(Fresh(1), JUST_LOCKED);
            && Serving(c, World(45.0, 0.0), 10_000_405, 9.0)
            && ParamsAt(c, true, 10_000_405).state == Locked
            && Dispersion(c, true, 10_000_405) == 115
            && ServedError(c, 10_000_405, 9.0) == 405.0
  {
    assert JUST_LOCKED[1..][1..] == [];
    hide Pack;
    ReachableInv(1, JUST_LOCKED);
    var c := LockAnchor(UpdateGps(Fresh(1), 1000, 500_000), 1001, 1_000_000);
    assert Run(Fresh(1), JUST_LOCKED) == c;
    assert ServedUs(c, 10_000_405) == 1_010_000_405;
  }
}
