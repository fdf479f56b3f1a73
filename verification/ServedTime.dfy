/** How far the time handed out between pulses is from true UTC. */
module ServedTime {
  import opened Wrappers
  import opened Numbers
  import opened Discipline
  import opened Runs
  import opened Counting
  import opened Labelling
  import opened CapturedRuns

  /** The disciplined time handed out at `nowUs`, in microseconds since 1970. */
  function ServedUs(c: Clock, nowUs: i64): int
    requires c.anchor.Some?
  {
    var t := TimeAt(c.anchor.value, c.freqPpm, nowUs);
    t.0 * MICROS_PER_SEC + t.1
  }

  /** `nowUs` is `n` true seconds, whole or not, after the edge at `lastUs`. */
  ghost predicate After(lastUs: int, nowUs: int, n: real, w: World) {
    0.0 <= n && RAbs((nowUs - lastUs) as real - n * (1_000_000.0 + w.rho)) <= w.jitterUs
  }

  /** Residual drift over `n` s, plus the slack as the clock scales it, plus truncation. */
  ghost function Drift(n: real, rho: real, freq: real, slack: real): real {
    n * RAbs(Skew(rho, freq)) + slack * Scale(freq) + 1.0
  }

  /** Drift since the last good edge, with jitter and nudge as slack. */
  ghost function ErrorBound(c: Clock, n: real, w: World): real
    requires c.anchor.Some? && c.lastPpsUs.Some?
  {
    Drift(n, w.rho, c.freqPpm, w.jitterUs + Abs(c.lastPpsUs.value - c.anchor.value.monotonicUs) as real)
  }

  lemma ScaledIsClose(raw: int, n: real, rho: real, freq: real, slack: real)
    requires -500.0 <= freq <= 500.0 && 0.0 <= n && RAbs(raw as real - n * (1_000_000.0 + rho)) <= slack
    ensures RAbs(raw as real * Scale(freq) - n * 1_000_000.0) <= n * RAbs(Skew(rho, freq)) + slack * Scale(freq)
  {
    var (x, k) := (raw as real, Scale(freq));
    SkewIsScaledRate(rho, freq);
    CorrectedDecomposes(x, n, rho, Skew(rho, freq), k);
    hide Scale, Skew;
    ErrorAddsUp(x * k, n, Skew(rho, freq), x - n * (1_000_000.0 + rho), k, slack);
  }

  lemma TruncationCostsOne(x: real, y: real, bound: real)
    requires 0.0 <= y && RAbs(x - y) <= bound
    ensures RAbs(Max(0, Trunc(x)) as real - y) <= bound + 1.0
  {
  }

  lemma NoSaturation(raw: int, freq: real)
    requires -500.0 <= freq <= 500.0 && Abs(raw) <= 3_000_000_000_000_000_000
    ensures Abs(Trunc(raw as real * Scale(freq))) <= 4_000_000_000_000_000_000
  {
    ProductAtMost(RAbs(raw as real), Scale(freq), 3_000_000_000_000_000_000.0, 1.25);
    assert raw as real * Scale(freq) == RAbs(raw as real) * Scale(freq)
        || raw as real * Scale(freq) == -(RAbs(raw as real) * Scale(freq));
    TruncBounded(raw as real * Scale(freq), 4_000_000_000_000_000_000);
  }

  lemma CorrectedIsClose(raw: i64, n: real, rho: real, freq: real, slack: real)
    requires -500.0 <= freq <= 500.0 && Abs(raw) <= 3_000_000_000_000_000_000
    requires 0.0 <= n && RAbs(raw as real - n * (1_000_000.0 + rho)) <= slack
    ensures CorrectedElapsed(freq, raw) <= 4_000_000_000_000_000_000
    ensures RAbs(CorrectedElapsed(freq, raw) as real - n * 1_000_000.0) <= Drift(n, rho, freq, slack)
  {
    ScaledIsClose(raw, n, rho, freq, slack);
    NoSaturation(raw, freq);
    CorrectedIsTruncated(freq, raw);
    hide CorrectedElapsed, Scale, Skew;
    TruncationCostsOne(raw as real * Scale(freq), n * 1_000_000.0, n * RAbs(Skew(rho, freq)) + slack * Scale(freq));
  }

  lemma ServedIsAnchorPlusElapsed(c: Clock, nowUs: i64)
    requires c.anchor.Some? && Second(c.anchor.value.unixSeconds)
    requires CorrectedElapsed(c.freqPpm, Sat(nowUs - c.anchor.value.monotonicUs)) <= 4_000_000_000_000_000_000
    ensures ServedUs(c, nowUs)
         == c.anchor.value.unixSeconds * MICROS_PER_SEC
            + CorrectedElapsed(c.freqPpm, Sat(nowUs - c.anchor.value.monotonicUs))
  {
    hide CorrectedElapsed;
    var elapsed := CorrectedElapsed(c.freqPpm, Sat(nowUs - c.anchor.value.monotonicUs));
    assert elapsed / MICROS_PER_SEC <= 4_000_000_000_000;
  }

  lemma AfterFromAnchor(last: int, anchorUs: int, nowUs: int, n: real, w: World)
    requires After(last, nowUs, n, w)
    ensures RAbs((nowUs - anchorUs) as real - n * (1_000_000.0 + w.rho)) <= w.jitterUs + Abs(last - anchorUs) as real
  {
    assert (nowUs - anchorUs) as real == (nowUs - last) as real + (last - anchorUs) as real;
  }

  /** With a true anchor, the time served `n` seconds after the last good edge is within the error bound of UTC. */
  lemma ServedTimeError(c: Clock, s: int, w: World, nowUs: i64, n: real)
    requires Inv(c) && c.ppsLocked && c.anchor.value.unixSeconds == s && Second(s)
    requires Instant(c.lastPpsUs.value) && Instant(nowUs) && After(c.lastPpsUs.value, nowUs, n, w)
    ensures RAbs(ServedUs(c, nowUs) as real - (s as real + n) * 1_000_000.0) <= ErrorBound(c, n, w)
  {
    var last: int, anchorUs: int := c.lastPpsUs.value, c.anchor.value.monotonicUs;
    var raw := nowUs - anchorUs;
    AfterFromAnchor(last, anchorUs, nowUs, n, w);
    assert Abs(raw) <= 3_000_000_000_000_000_000 && -500.0 <= c.freqPpm <= 500.0;
    hide After, Inv, ServedUs, CorrectedElapsed, Drift;
    CorrectedIsClose(raw, n, w.rho, c.freqPpm, w.jitterUs + Abs(last - anchorUs) as real);
    ServedIsAnchorPlusElapsed(c, nowUs);
  }

  // --- Over runs ---

  /** The true second of the last accepted pulse of a run; `s` before the first. */
  ghost function LastSecond(c: Clock, s: int, os: seq<Observation>): int
    decreases |os|
  {
    if os == [] then s
    else LastSecond(Step(c, os[0].event), if Accepts(c, os[0].event) then os[0].second else s, os[1..])
  }

  lemma {:induction false} LastLabelKept(c: Clock, s: int, os: seq<Observation>)
    requires Inv(c) && c.ppsLocked && c.anchor.value.unixSeconds == s && Second(s)
    requires Measured(os) && InTime(c, Some(s), os) && EveryPulseTrue(c, 0, os)
    ensures var c' := Run(c, Events(os));
            && Inv(c') && c'.ppsLocked
            && c'.anchor.value.unixSeconds == LastSecond(c, s, os) && Second(LastSecond(c, s, os))
    decreases |os|
  {
    if os != [] {
      var o := os[0];
      StepKeepsInv(c, o.event);
      LastLabelKept(Step(c, o.event), if Accepts(c, o.event) then o.second else s, os[1..]);
    }
  }

  /**
   On any captured run in time with the world and without a repeated mispairing,
   the time served `n` seconds after the last accepted edge is within the error
   bound of true UTC.
   */
  lemma ServedTimeOnRun(c: Clock, s: int, mis: int, os: seq<Observation>, w: World, nowUs: i64, n: real)
    requires Captured(c, os) && InTime(c, Some(s), os) && NoRepeatedMispairing(c, mis, os)
    requires c.anchor.Some? && c.anchor.value.unixSeconds == s && Second(s) && c.pendingStep == Pending(mis)
    requires var last := Run(c, Events(os)).lastPpsUs;
             last.Some? && Instant(last.value) && Instant(nowUs) && After(last.value, nowUs, n, w)
    ensures var c' := Run(c, Events(os));
            c'.anchor.Some?
            && RAbs(ServedUs(c', nowUs) as real - (LastSecond(c, s, os) as real + n) * 1_000_000.0)
               <= ErrorBound(c', n, w)
  {
    CapturedIsMeasured(c, os);
    EveryPulseTrueExactly(c, s, mis, os);
    LastLabelKept(c, s, os);
    ServedTimeError(Run(c, Events(os)), LastSecond(c, s, os), w, nowUs, n);
  }
}
