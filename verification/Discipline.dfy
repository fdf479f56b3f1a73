/**
 The clock-discipline engine of the NTP server as functions on values: what
 each input does to the discipline state.  The class in Server.dfy updates its
 fields step by step and is proved to follow these functions; the other
 modules prove what the firmware promises about them.

 Times are monotonic microseconds, labels are Unix seconds.  Floating-point
 fields are exact reals.
 */
module Discipline {
  import opened Wrappers
  import opened Numbers

  const MICROS_PER_SEC := 1_000_000
  const SERVO_KP := 0.1
  const SERVO_KI := 0.01
  const SERVO_MAX_FREQ_PPM := 500.0
  const PPS_OUTLIER_THRESHOLD_US := 50_000
  const GPS_STALE_THRESHOLD_US := 2_000_000
  const MIN_INTERVAL_US := 800_000
  const MAX_INTERVAL_US := 1_200_000

  /** Which side of its edge the module's sentence is on: fixed when the firmware is built. */
  type Fudge = f: int | f == 0 || f == 1

  datatype Anchor = Anchor(unixSeconds: i64, monotonicUs: i64)

  datatype Clock = Clock(
    fudge: Fudge,
    anchor: Option<Anchor>,
    lastGpsUtc: Option<i64>,
    lastGpsUpdateUs: Option<i64>,
    ppsLocked: bool,
    ppsOffsetUs: int,
    ppsJitterUs: real,
    ppsHasSample: bool,
    freqPpm: real,
    lastPpsUs: Option<i64>,
    lastSyncTs: u64,
    pendingLeap: u8,
    glitchCount: u32,
    stepCount: u32,
    pendingStep: Option<int>)

  function Fresh(fudge: Fudge): Clock {
    Clock(fudge, None, None, None, false, 0, 0.0, false, 0.0, None, 0, 0, 0, 0, None)
  }

  // --- Timestamps, section 6 of RFC 5905 ---

  const NTP_UNIX_EPOCH_OFFSET := 2_208_988_800
  const FRAC_SCALE := 0x1_0000_0000

  /** Pack Unix seconds and a microsecond remainder; the seconds field keeps its low 32 bits. */
  function Pack(unixSeconds: i64, remUs: int): u64
    requires 0 <= remUs < MICROS_PER_SEC
  {
    var ntpSeconds := if unixSeconds >= 0 then unixSeconds + NTP_UNIX_EPOCH_OFFSET else NTP_UNIX_EPOCH_OFFSET;
    ntpSeconds % FRAC_SCALE * FRAC_SCALE + remUs * FRAC_SCALE / MICROS_PER_SEC
  }

  /** Monotonic elapsed time with the estimated oscillator offset taken out. */
  function CorrectedElapsed(freq: real, rawUs: i64): i64 {
    Max(0, if freq == 0.0 then rawUs else Sat(Trunc(rawUs as real * (1.0 - freq / 1_000_000.0))))
  }

  /** The disciplined second and microsecond remainder at `nowUs`. */
  function TimeAt(a: Anchor, freq: real, nowUs: i64): (r: (i64, int))
    ensures 0 <= r.1 < MICROS_PER_SEC
  {
    var elapsed := CorrectedElapsed(freq, Sat(nowUs - a.monotonicUs));
    (Sat(a.unixSeconds + elapsed / MICROS_PER_SEC), elapsed % MICROS_PER_SEC)
  }

  /** The served timestamp; `wall` is the system clock, used only without an anchor. */
  function CurrentTimestamp(c: Clock, nowUs: i64, wall: u64): u64 {
    match c.anchor
    case None => wall
    case Some(a) =>
      var t := TimeAt(a, c.freqPpm, nowUs);
      Pack(t.0, t.1)
  }

  // --- Pairing of GPS sentences with edges ---

  /** The UTC second the latest sentence gives to an edge, while that sentence is fresh. */
  function GpsSecondAtEdge(c: Clock, edgeUs: i64): Option<i64> {
    match c.lastGpsUpdateUs
    case None => None
    case Some(t) =>
      if !(Sat(edgeUs - t) < GPS_STALE_THRESHOLD_US) || c.lastGpsUtc.None? then None
      else Some(Sat(Sat(c.lastGpsUtc.value + Sat(edgeUs - t) / MICROS_PER_SEC) + c.fudge))
  }

  // --- Inputs ---

  datatype Event =
    | Seed(utc: i64, nowUs: i64)
    | Nmea(utc: i64, nowUs: i64)
    | Pulse(interval: Option<u32>, edgeUs: i64)
    | SetLeap(li: u8)

  function SeedUtc(c: Clock, utc: i64, nowUs: i64): Clock {
    if c.ppsLocked || c.anchor.Some? then c
    else c.(anchor := Some(Anchor(utc, nowUs)))
  }

  function UpdateGps(c: Clock, utc: i64, nowUs: i64): Clock {
    var c' := c.(lastGpsUtc := Some(utc), lastGpsUpdateUs := Some(nowUs));
    if c.ppsLocked then c' else c'.(anchor := Some(Anchor(utc, nowUs)))
  }

  function LockAnchor(c: Clock, unixSeconds: i64, edgeUs: i64): Clock {
    c.(anchor := Some(Anchor(unixSeconds, edgeUs)),
       ppsLocked := true,
       pendingStep := None,
       lastPpsUs := Some(edgeUs),
       lastSyncTs := Pack(unixSeconds, 0))
  }

  /** Lock onto the GPS second of this edge, when there is a fresh one. */
  function TryLock(c: Clock, edgeUs: i64): Clock {
    match GpsSecondAtEdge(c, edgeUs)
    case None => c
    case Some(u) => LockAnchor(c, u, edgeUs)
  }

  predicate InRange(interval: u32) {
    MIN_INTERVAL_US <= interval <= MAX_INTERVAL_US
  }

  function PhaseError(interval: u32): int {
    interval - MICROS_PER_SEC
  }

  predicate Outlier(c: Clock, err: int) {
    c.ppsHasSample && Abs(err) > PPS_OUTLIER_THRESHOLD_US
  }

  function UpdatedFreq(freq: real, err: int): real {
    Clamp(freq + (err as real - freq) * SERVO_KI, -SERVO_MAX_FREQ_PPM, SERVO_MAX_FREQ_PPM)
  }

  /** Whole seconds between the anchor and an edge, rounded to the nearest. */
  function ElapsedSeconds(freq: real, rawUs: i64): int {
    (CorrectedElapsed(freq, rawUs) + MICROS_PER_SEC / 2) / MICROS_PER_SEC
  }

  /** The second this edge should carry, counting from the anchor with the updated frequency. */
  function Predicted(c: Clock, err: int, edgeUs: i64): i64
    requires c.anchor.Some?
  {
    Sat(c.anchor.value.unixSeconds
        + ElapsedSeconds(UpdatedFreq(c.freqPpm, err), Sat(edgeUs - c.anchor.value.monotonicUs)))
  }

  /** GPS second minus predicted second; zero when they agree or GPS is not fresh. */
  function Disagreement(c: Clock, err: int, edgeUs: i64): int
    requires c.anchor.Some?
  {
    match GpsSecondAtEdge(c, edgeUs)
    case None => 0
    case Some(g) => g - Predicted(c, err, edgeUs)
  }

  /** A pulse steps the second when it repeats the disagreement that is already pending. */
  predicate Confirms(c: Clock, err: int, edgeUs: i64)
    requires c.anchor.Some?
  {
    Disagreement(c, err, edgeUs) != 0 && c.pendingStep == Some(Disagreement(c, err, edgeUs))
  }

  function LabelGiven(c: Clock, err: int, edgeUs: i64): i64
    requires c.anchor.Some?
  {
    if Confirms(c, err, edgeUs) then GpsSecondAtEdge(c, edgeUs).value else Predicted(c, err, edgeUs)
  }

  function Nudge(err: int): int {
    Trunc(err as real * SERVO_KP)
  }

  function NextJitter(c: Clock, err: int): real {
    if c.ppsHasSample then c.ppsJitterUs * 0.8 + Abs(err) as real * 0.2 else Abs(err) as real
  }

  /** An accepted pulse: the servo update and the re-anchoring. */
  function ServoUpdate(c: Clock, err: int, edgeUs: i64): Clock
    requires c.anchor.Some?
  {
    var second := LabelGiven(c, err, edgeUs);
    var delta := Disagreement(c, err, edgeUs);
    var confirms := Confirms(c, err, edgeUs);
    c.(freqPpm := UpdatedFreq(c.freqPpm, err),
       pendingStep := if delta == 0 || confirms then None else Some(delta),
       stepCount := if confirms then SatInc(c.stepCount) else c.stepCount,
       anchor := Some(Anchor(second, Sat(edgeUs - Nudge(err)))),
       ppsOffsetUs := err,
       ppsJitterUs := NextJitter(c, err),
       ppsHasSample := true,
       lastPpsUs := Some(edgeUs),
       lastSyncTs := Pack(second, 0))
  }

  function ObservePulse(c: Clock, interval: Option<u32>, edgeUs: i64): Clock {
    match interval
    case None => TryLock(c, edgeUs)
    case Some(i) =>
      if !InRange(i) then c
      else if !c.ppsLocked || c.anchor.None? then TryLock(c, edgeUs)
      else if Outlier(c, PhaseError(i)) then c.(glitchCount := SatInc(c.glitchCount))
      else ServoUpdate(c, PhaseError(i), edgeUs)
  }

  function Step(c: Clock, e: Event): Clock {
    match e
    case Seed(utc, now) => SeedUtc(c, utc, now)
    case Nmea(utc, now) => UpdateGps(c, utc, now)
    case Pulse(interval, edge) => ObservePulse(c, interval, edge)
    case SetLeap(li) => c.(pendingLeap := Min(li, 2))
  }

  /** The pulse passes every filter while the clock is locked, so the servo runs on it. */
  predicate Accepts(c: Clock, e: Event) {
    && e.Pulse? && e.interval.Some?
    && InRange(e.interval.value)
    && c.ppsLocked && c.anchor.Some?
    && !Outlier(c, PhaseError(e.interval.value))
  }

  /** The pulse (re-)establishes lock from GPS. */
  predicate Locks(c: Clock, e: Event) {
    && e.Pulse?
    && (e.interval.None? || (InRange(e.interval.value) && (!c.ppsLocked || c.anchor.None?)))
    && GpsSecondAtEdge(c, e.edgeUs).Some?
  }

  function Run(c: Clock, es: seq<Event>): Clock
    decreases |es|
  {
    if es == [] then c else Run(Step(c, es[0]), es[1..])
  }
}
