/** Order of the timestamps in a reply: packing, the disciplined clock, and the reference. */
module Timestamps {
  import opened Wrappers
  import opened Numbers
  import opened Discipline
  import opened Runs
  import opened Counting
  import opened Holdover

  /** The 136-year era of an instant at or after 1970. */
  ghost function Era(unixSeconds: int): int {
    (unixSeconds + NTP_UNIX_EPOCH_OFFSET) / FRAC_SCALE
  }

  function Fraction(remUs: int): int {
    remUs * FRAC_SCALE / MICROS_PER_SEC
  }

  /** Microseconds keep their order and stay distinct in 2^-32 s units, below one second. */
  lemma FractionOrder(r: int, r': int)
    requires 0 <= r < MICROS_PER_SEC && 0 <= r' < MICROS_PER_SEC
    ensures 0 <= Fraction(r) < FRAC_SCALE
    ensures Fraction(r) <= Fraction(r') <==> r <= r'
  {
  }

  /** Within one era, packed order is time order. */
  lemma PackOrder(s: i64, r: int, s': i64, r': int)
    requires 0 <= s && 0 <= s' && Era(s) == Era(s')
    requires 0 <= r < MICROS_PER_SEC && 0 <= r' < MICROS_PER_SEC
    ensures Pack(s, r) <= Pack(s', r') <==> s < s' || (s == s' && r <= r')
  {
    FractionOrder(r, r');
    FractionOrder(r', r);
    var (a, b) := ((s + NTP_UNIX_EPOCH_OFFSET) % FRAC_SCALE, (s' + NTP_UNIX_EPOCH_OFFSET) % FRAC_SCALE);
    assert b - a == s' - s;
    SecondsDominate(a, Fraction(r), b, Fraction(r'));
  }

  /** The instant a timestamp stands for in a given era, in microseconds since 1970. */
  ghost function NtpUs(ts: u64, era: int): real {
    (era * 0x1_0000_0000 + ts / 0x1_0000_0000 - 2_208_988_800) as real * 1_000_000.0
    + (ts % 0x1_0000_0000) as real * 1_000_000.0 / 4_294_967_296.0
  }

  /** The two halves of a packed timestamp: seconds since 1900, wrapped, and 2^-32 s units, rounded down. */
  lemma PackedHalves(s: i64, r: int)
    requires 0 <= r < 1_000_000
    ensures Pack(s, r) / 0x1_0000_0000 == ((if s >= 0 then s else 0) + 2_208_988_800) % 0x1_0000_0000
    ensures 0 <= r * 0x1_0000_0000 - Pack(s, r) % 0x1_0000_0000 * 1_000_000 < 1_000_000
  {
    FractionOrder(r, r);
    var seconds := ((if s >= 0 then s else 0) + 2_208_988_800) % 0x1_0000_0000;
    assert Pack(s, r) == seconds * 0x1_0000_0000 + Fraction(r);
  }

  lemma FractionReadsBack(r: int, f: int)
    requires 0 <= r * 0x1_0000_0000 - f * 1_000_000 < 1_000_000
    ensures -1.0 < f as real * 1_000_000.0 / 4_294_967_296.0 - r as real <= 0.0
  {
    var lost := r * 0x1_0000_0000 - f * 1_000_000;
    assert f as real * 1_000_000.0 == r as real * 4_294_967_296.0 - lost as real;
  }

  /** Read in its own era, a packed instant is itself, less than a microsecond early. */
  lemma PackReadsBack(s: i64, r: int)
    requires 0 <= s && 0 <= r < 1_000_000
    ensures -1.0 < NtpUs(Pack(s, r), Era(s)) - (s * 1_000_000 + r) as real <= 0.0
  {
    PackedHalves(s, r);
    FractionReadsBack(r, Pack(s, r) % 0x1_0000_0000);
    assert Era(s) * 0x1_0000_0000 + Pack(s, r) / 0x1_0000_0000 - 2_208_988_800 == s;
    hide Pack, Era;
  }

  lemma SecondsDominate(a: int, f: int, b: int, g: int)
    requires 0 <= f < FRAC_SCALE && 0 <= g < FRAC_SCALE
    ensures a * FRAC_SCALE + f <= b * FRAC_SCALE + g <==> a < b || (a == b && f <= g)
  {
  }

  /** In the next era, less than 136 years later, the packed value falls back. */
  lemma PackWraps(s: i64, r: int, s': i64, r': int)
    requires 0 <= s && 0 <= s' && Era(s') == Era(s) + 1 && s' - s < FRAC_SCALE - 1
    requires 0 <= r < MICROS_PER_SEC && 0 <= r' < MICROS_PER_SEC
    ensures Pack(s', r') < Pack(s, r)
  {
    FractionOrder(r, r');
    FractionOrder(r', r);
    var (a, b) := ((s + NTP_UNIX_EPOCH_OFFSET) % FRAC_SCALE, (s' + NTP_UNIX_EPOCH_OFFSET) % FRAC_SCALE);
    assert b - a == s' - s - FRAC_SCALE;
    SecondsDominate(a, Fraction(r), b, Fraction(r'));
  }

  /** The corrected elapsed time never runs backwards. */
  lemma CorrectedMonotone(freq: real, a: i64, b: i64)
    requires -500.0 <= freq <= 500.0 && a <= b
    ensures CorrectedElapsed(freq, a) <= CorrectedElapsed(freq, b)
  {
    hide CorrectedElapsed;
    CorrectedIsTruncated(freq, a);
    CorrectedIsTruncated(freq, b);
    ScaledMonotone(a as real, b as real, Scale(freq));
  }

  lemma ScaledMonotone(x: real, y: real, k: real)
    requires x <= y && 0.0 <= k
    ensures Trunc(x * k) <= Trunc(y * k)
  {
    MulMonotone(k, x, y);
    TruncMonotone(x * k, y * k);
  }

  /** The disciplined second at `nowUs`. */
  function SecondAt(c: Clock, nowUs: i64): i64
    requires c.anchor.Some?
  {
    TimeAt(c.anchor.value, c.freqPpm, nowUs).0
  }

  /** Between re-anchorings the disciplined clock is monotone and never before its anchor second. */
  lemma ClockMonotone(c: Clock, t: i64, t': i64)
    requires Inv(c) && c.anchor.Some? && t <= t'
    ensures var (p, q) := (TimeAt(c.anchor.value, c.freqPpm, t), TimeAt(c.anchor.value, c.freqPpm, t'));
            c.anchor.value.unixSeconds <= p.0 <= q.0
            && (p.0 == q.0 < I64_MAX ==> p.1 <= q.1)
  {
    CorrectedMonotone(c.freqPpm, Sat(t - c.anchor.value.monotonicUs), Sat(t' - c.anchor.value.monotonicUs));
  }

  /**
   Time order of a served packet.  In every reachable state that serves stratum
   1 from a post-1970 anchor less than an era old, the reference, receive and
   transmit timestamps are in order if and only if no NTP era ends between the
   anchor second and the transmit instant.
   */
  lemma PacketOrderExactlyWithinEra(fudge: Fudge, es: seq<Event>, gpsFix: bool, rxUs: i64, dpUs: i64, txUs: i64,
                                    wall: u64)
    requires var c := Run(Fresh(fudge), es);
             && ParamsAt(c, gpsFix, dpUs).stratum == 1 && rxUs <= txUs
             && c.anchor.Some? && 0 <= c.anchor.value.unixSeconds <= 1_000_000_000_000
             && SecondAt(c, txUs) - c.anchor.value.unixSeconds < FRAC_SCALE - 1
    ensures var c := Run(Fresh(fudge), es);
            var (rx, tx) := (CurrentTimestamp(c, rxUs, wall), CurrentTimestamp(c, txUs, wall));
            ParamsAt(c, gpsFix, dpUs).refTs <= rx <= tx
            <==> Era(c.anchor.value.unixSeconds) == Era(SecondAt(c, txUs))
  {
    var c := Run(Fresh(fudge), es);
    ReachableInv(fudge, es);
    var s := c.anchor.value.unixSeconds;
    var (p, q) := (TimeAt(c.anchor.value, c.freqPpm, rxUs), TimeAt(c.anchor.value, c.freqPpm, txUs));
    ClockMonotone(c, rxUs, txUs);
    if Era(s) == Era(q.0) {
      PackOrder(s, 0, p.0, p.1);
      PackOrder(p.0, p.1, q.0, q.1);
    } else if Era(s) == Era(p.0) {
      PackWraps(p.0, p.1, q.0, q.1);
    } else {
      PackWraps(s, 0, p.0, p.1);
    }
  }

  /**
   The last second of an era: a server locked at Unix second 2 085 978 495 serves
   stratum 1, and a reply received before the era ends and sent after it is out of
   order.
   */
  lemma EraEndBreaksOrder()
    ensures var c := Run(Fresh(1), [Nmea(2_085_978_494, 1_000_200_000), Pulse(None, 1_001_000_000)]);
            var (rx, tx) := (CurrentTimestamp(c, 1_001_900_000, 0), CurrentTimestamp(c, 1_002_100_000, 0));
            && ParamsAt(c, true, 1_001_900_000).stratum == 1
            && !(ParamsAt(c, true, 1_001_900_000).refTs <= rx <= tx)
  {
    var es := [Nmea(2_085_978_494, 1_000_200_000), Pulse(None, 1_001_000_000)];
    var c := LockAnchor(UpdateGps(Fresh(1), 2_085_978_494, 1_000_200_000), 2_085_978_495, 1_001_000_000);
    assert es[1..] == [es[1]] && es[1..][1..] == [];
    assert Step(Step(Fresh(1), es[0]), es[1]) == c;
    assert Run(Fresh(1), es) == Run(Step(Fresh(1), es[0]), es[1..]) == c;
    assert SecondAt(c, 1_002_100_000) == 2_085_978_496;
    PacketOrderExactlyWithinEra(1, es, true, 1_001_900_000, 1_001_900_000, 1_002_100_000, 0);
  }
}
