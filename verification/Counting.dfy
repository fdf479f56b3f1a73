/**
 Rounding the frequency-corrected elapsed time to whole seconds: when it counts
 the true seconds, and that the condition cannot be relaxed.
 */
module Counting {
  import opened Numbers
  import opened Discipline

  /** Rate error left after correction: the true offset seen through the estimate. */
  ghost function Skew(rho: real, freq: real): real {
    rho - freq - rho * freq / 1_000_000.0
  }

  ghost function Scale(freq: real): real {
    1.0 - freq / 1_000_000.0
  }

  /** `n` seconds of residual drift plus the start and end errors stay under half a second. */
  ghost predicate WithinBudget(n: nat, rho: real, freq: real, slack: real) {
    n as real * RAbs(Skew(rho, freq)) + slack * Scale(freq) < 500_000.0
  }

  /** Raw elapsed time is `n` true seconds of the skewed oscillator, up to `slack`. */
  ghost predicate Spans(rawUs: int, n: nat, rho: real, slack: real) {
    RAbs(rawUs as real - n as real * (1_000_000.0 + rho)) <= slack
  }

  lemma CorrectedIsTruncated(freq: real, rawUs: i64)
    ensures CorrectedElapsed(freq, rawUs) == Max(0, Sat(Trunc(rawUs as real * Scale(freq))))
  {
    if freq == 0.0 {
      assert rawUs as real * 1.0 == rawUs as real;
    }
  }

  /** The corrected reading is `n` seconds plus drift plus scaled endpoint error. */
  lemma CorrectedDecomposes(raw: real, n: real, rho: real, q: real, k: real)
    requires (1_000_000.0 + rho) * k == 1_000_000.0 + q
    ensures raw * k == n * 1_000_000.0 + n * q + (raw - n * (1_000_000.0 + rho)) * k
  {
    var w := 1_000_000.0 + rho;
    assert (raw - n * w) * k == raw * k - n * (w * k);
    assert n * (w * k) == n * (1_000_000.0 + q);
  }

  lemma SkewIsScaledRate(rho: real, freq: real)
    ensures (1_000_000.0 + rho) * Scale(freq) == 1_000_000.0 + Skew(rho, freq)
  {
  }

  /** Drift `q` per second and endpoint error `d`, scaled by `k`, add up to at most this much. */
  lemma ErrorAddsUp(x: real, n: real, q: real, d: real, k: real, slack: real)
    requires x == n * 1_000_000.0 + n * q + d * k
    requires 0.0 <= n && 0.0 <= k && RAbs(d) <= slack
    ensures RAbs(x - n * 1_000_000.0) <= n * RAbs(q) + slack * k
  {
    assert RAbs(n * q) == n * RAbs(q);
    assert d * k <= slack * k && -(slack * k) <= d * k;
  }

  lemma NearestSecond(x: real, n: nat)
    requires n <= 1_000_000_000_000
    requires RAbs(x - n as real * 1_000_000.0) < 500_000.0
    ensures (Max(0, Sat(Trunc(x))) + MICROS_PER_SEC / 2) / MICROS_PER_SEC == n
  {
    var lo, hi := n * MICROS_PER_SEC - 500_000, n * MICROS_PER_SEC + 500_000;
    assert lo as real < x < hi as real;
    assert lo <= Trunc(x) < hi;
  }

  lemma CountsTheSecond(raw: real, rho: real, q: real, k: real, n: nat, slack: real)
    requires (1_000_000.0 + rho) * k == 1_000_000.0 + q && 0.0 <= k
    requires n <= 1_000_000_000_000
    requires RAbs(raw - n as real * (1_000_000.0 + rho)) <= slack
    requires n as real * RAbs(q) + slack * k < 500_000.0
    ensures (Max(0, Sat(Trunc(raw * k))) + MICROS_PER_SEC / 2) / MICROS_PER_SEC == n
  {
    CorrectedDecomposes(raw, n as real, rho, q, k);
    ErrorAddsUp(raw * k, n as real, q, raw - n as real * (1_000_000.0 + rho), k, slack);
    NearestSecond(raw * k, n);
  }

  /** Within budget, rounding the corrected elapsed time counts the true seconds. */
  lemma ElapsedSecondsExact(freq: real, rho: real, n: nat, rawUs: i64, slack: real)
    requires -500.0 <= freq <= 500.0
    requires n <= 1_000_000_000_000
    requires Spans(rawUs, n, rho, slack) && WithinBudget(n, rho, freq, slack)
    ensures ElapsedSeconds(freq, rawUs) == n
  {
    SkewIsScaledRate(rho, freq);
    CountsTheSecond(rawUs as real, rho, Skew(rho, freq), Scale(freq), n, slack);
    CorrectedIsTruncated(freq, rawUs);
  }

  /** When drift and endpoint error pull the same way, they miss the second by half a second. */
  lemma ErrorOverflows(x: real, n: real, q: real, d: real, k: real, slack: real)
    requires x == n * 1_000_000.0 + n * q + d * k
    requires 0.0 <= n && 0.9995 <= k <= 1.0005
    requires if q >= 0.0 then slack - 1.0 <= d else d <= 1.0 - slack
    requires n * RAbs(q) + slack * k >= 500_002.0
    ensures if q >= 0.0 then x >= n * 1_000_000.0 + 500_000.0 else x < n * 1_000_000.0 - 500_000.0
  {
    if q >= 0.0 {
      assert n * q + slack * k >= 500_002.0;
      MulMonotone(k, slack - 1.0, d);
      assert slack * k - k == k * (slack - 1.0) <= k * d == d * k;
      assert n * q + d * k >= 500_002.0 - k;
    } else {
      assert slack * k - n * q >= 500_002.0;
      MulMonotone(k, d, 1.0 - slack);
      assert d * k == k * d <= k * (1.0 - slack) == k - slack * k;
      assert n * q + d * k <= k - 500_002.0;
    }
  }

  lemma WrongSecond(x: real, n: nat)
    requires 1 <= n <= 1_000_000_000
    requires x >= n as real * 1_000_000.0 + 500_000.0 || x < n as real * 1_000_000.0 - 500_000.0
    ensures (Max(0, Sat(Trunc(x))) + MICROS_PER_SEC / 2) / MICROS_PER_SEC != n
  {
    var lo, hi := n * MICROS_PER_SEC - 500_000, n * MICROS_PER_SEC + 500_000;
    assert x < lo as real || hi as real <= x;
    assert Trunc(x) < lo || hi <= Trunc(x);
  }

  /** The extreme whole-microsecond reading within `slack` of the centre, on the side of the drift. */
  function Extreme(centre: real, slack: real, upward: bool): int {
    if upward then (centre + slack).Floor else -((slack - centre).Floor)
  }

  lemma ExtremeIsFar(centre: real, slack: real, upward: bool)
    requires 0.0 <= centre <= 1_000_500_000_000_000.0 && 1.0 <= slack <= 1_000_000_000.0
    ensures I64_MIN <= Extreme(centre, slack, upward) <= I64_MAX
    ensures RAbs(Extreme(centre, slack, upward) as real - centre) <= slack
    ensures var d := Extreme(centre, slack, upward) as real - centre;
            if upward then slack - 1.0 <= d else d <= 1.0 - slack
  {
  }

  /**
   The budget cannot be relaxed by more than the resolution of the clock: beyond
   it some elapsed time within the same physical bounds is counted wrongly.
   */
  lemma BudgetIsTight(freq: real, rho: real, n: nat, slack: real) returns (rawUs: i64)
    requires -500.0 <= freq <= 500.0 && -500.0 <= rho <= 500.0
    requires 1 <= n <= 1_000_000_000 && 1.0 <= slack <= 1_000_000_000.0
    requires n as real * RAbs(Skew(rho, freq)) + slack * Scale(freq) >= 500_002.0
    ensures Spans(rawUs, n, rho, slack)
    ensures ElapsedSeconds(freq, rawUs) != n
  {
    SkewIsScaledRate(rho, freq);
    rawUs := BeyondBudget(rho, Skew(rho, freq), Scale(freq), n, slack);
    CorrectedIsTruncated(freq, rawUs);
  }

  lemma BeyondBudget(rho: real, q: real, k: real, n: nat, slack: real) returns (rawUs: i64)
    requires (1_000_000.0 + rho) * k == 1_000_000.0 + q && 0.9995 <= k <= 1.0005
    requires -500.0 <= rho <= 500.0
    requires 1 <= n <= 1_000_000_000 && 1.0 <= slack <= 1_000_000_000.0
    requires n as real * RAbs(q) + slack * k >= 500_002.0
    ensures Spans(rawUs, n, rho, slack)
    ensures (Max(0, Sat(Trunc(rawUs as real * k))) + MICROS_PER_SEC / 2) / MICROS_PER_SEC != n
  {
    var centre := n as real * (1_000_000.0 + rho);
    CentreBounded(n as real, 1_000_000.0 + rho);
    ExtremeIsFar(centre, slack, q >= 0.0);
    rawUs := Extreme(centre, slack, q >= 0.0);
    CorrectedDecomposes(rawUs as real, n as real, rho, q, k);
    MissesTheSecond(rawUs as real * k, n, q, rawUs as real - centre, k, slack);
  }

  lemma MissesTheSecond(x: real, n: nat, q: real, d: real, k: real, slack: real)
    requires 1 <= n <= 1_000_000_000
    requires x == n as real * 1_000_000.0 + n as real * q + d * k
    requires 0.9995 <= k <= 1.0005
    requires if q >= 0.0 then slack - 1.0 <= d else d <= 1.0 - slack
    requires n as real * RAbs(q) + slack * k >= 500_002.0
    ensures (Max(0, Sat(Trunc(x))) + MICROS_PER_SEC / 2) / MICROS_PER_SEC != n
  {
    ErrorOverflows(x, n as real, q, d, k, slack);
    WrongSecond(x, n);
  }

  lemma CentreBounded(m: real, rate: real)
    requires 0.0 <= m <= 1_000_000_000.0 && 0.0 <= rate <= 1_000_500.0
    ensures 0.0 <= m * rate <= 1_000_500_000_000_000.0
  {
    MulNonNegative(m, rate);
    ProductAtMost(m, rate, 1_000_000_000.0, 1_000_500.0);
  }
}
