/** Which UTC second a fresh sentence gives to an edge, in terms of how late the sentence was parsed. */
module Pairing {
  import opened Wrappers
  import opened Numbers
  import opened Discipline

  /** The record holds second `n`, parsed `lateUs` after the edge at `e0` that marks it. */
  ghost predicate Recorded(c: Clock, n: int, e0: int, lateUs: int) {
    && c.lastGpsUtc == Some(n) && c.lastGpsUpdateUs == Some(e0 + lateUs)
    && 0 <= n <= 1_000_000_000_000
  }

  lemma FloorOfShift(j: int, x: int)
    ensures (j * MICROS_PER_SEC + x) / MICROS_PER_SEC == j + x / MICROS_PER_SEC
  {
    var q, r := x / MICROS_PER_SEC, x % MICROS_PER_SEC;
    assert j * MICROS_PER_SEC + x == (j + q) * MICROS_PER_SEC + r;
  }

  /**
   An edge `j` seconds and `eps` microseconds after the sentence's own edge is
   answered only while the sentence is fresh; it is paired with its true second
   `n + j` exactly when the sentence falls in the one second the build-time
   fudge stands for, and a sentence one second later reads exactly one low.
   */
  lemma PairedExactly(c: Clock, n: int, e0: int, lateUs: int, j: int, eps: int)
    requires Recorded(c, n, e0, lateUs)
    requires I64_MIN <= e0 + j * MICROS_PER_SEC + eps <= I64_MAX
    requires I64_MIN <= j * MICROS_PER_SEC + eps - lateUs
    ensures var g := GpsSecondAtEdge(c, e0 + j * MICROS_PER_SEC + eps);
            && (g.Some? <==> j * MICROS_PER_SEC + eps - lateUs < GPS_STALE_THRESHOLD_US)
            && (g.Some? && c.fudge == 1 ==>
                  && (g.value == n + j <==> 0 < lateUs - eps <= 1_000_000)
                  && (g.value == n + j - 1 <==> 1_000_000 < lateUs - eps <= 2_000_000))
            && (g.Some? && c.fudge == 0 ==>
                  (g.value == n + j <==> -1_000_000 < lateUs - eps <= 0))
  {
    FloorOfShift(j, eps - lateUs);
  }
}
