/** Stratum, leap indicator and root dispersion, and how they age when pulses stop. */
module Holdover {
  import opened Wrappers
  import opened Numbers
  import opened Discipline
  import opened Runs
  import opened Servo
  import opened Effects

  const HOLDOVER_ENTRY_US := 10_000_000
  const HOLDOVER_DISP_RATE_US_PER_SEC := 500
  const BASE_DISP_US := 1_000
  const MAX_DISP_US := 2_000_000
  const HOLDOVER_UNSYNC_US := 1_000_000
  const PHI_US_PER_S := 15
  const MIN_HW_ACCURACY_US := 100
  const STRATUM_UNSYNC := 16

  datatype DisciplineState = Locked | Holdover | Unsync

  datatype Params = Params(
    stratum: u8,
    state: DisciplineState,
    leap: u8,
    dispersionUs: int,
    rootDispShort: u32,
    refTs: u64)

  function PpsAge(c: Clock, nowUs: i64): i64 {
    match c.lastPpsUs
    case None => I64_MAX
    case Some(t) => Sat(nowUs - t)
  }

  predicate FullySynced(c: Clock, gpsFix: bool, nowUs: i64) {
    gpsFix && PpsAge(c, nowUs) < HOLDOVER_ENTRY_US && c.anchor.Some?
  }

  function LockedDispersion(c: Clock, nowUs: i64): int {
    var accuracy := if c.ppsHasSample then Max(Round(c.ppsJitterUs), MIN_HW_ACCURACY_US) else MIN_HW_ACCURACY_US;
    var phi := PHI_US_PER_S * Min(PpsAge(c, nowUs), MICROS_PER_SEC);
    // Integer division truncates toward zero.
    accuracy + (if phi >= 0 then phi / MICROS_PER_SEC else -(-phi / MICROS_PER_SEC))
  }

  function HoldoverDispersion(c: Clock, nowUs: i64): int {
    var secs := Max(0, Sat(PpsAge(c, nowUs) - HOLDOVER_ENTRY_US)) / MICROS_PER_SEC;
    Min(BASE_DISP_US + Sat(secs * HOLDOVER_DISP_RATE_US_PER_SEC), MAX_DISP_US)
  }

  function Dispersion(c: Clock, gpsFix: bool, nowUs: i64): int {
    if FullySynced(c, gpsFix, nowUs) then LockedDispersion(c, nowUs)
    else if c.anchor.Some? then HoldoverDispersion(c, nowUs)
    else MAX_DISP_US
  }

  /** The 16.16 short format of a microsecond count, in 64-bit arithmetic that wraps around. */
  function ShortFormat(us: int): u32 {
    us % 0x1_0000_0000_0000_0000 * 0x1_0000 % 0x1_0000_0000_0000_0000 / 1_000_000 % 0x1_0000_0000
  }

  function ParamsAt(c: Clock, gpsFix: bool, nowUs: i64): Params {
    var synced := FullySynced(c, gpsFix, nowUs);
    var disp := Dispersion(c, gpsFix, nowUs);
    var holdoverOk := c.ppsLocked && c.anchor.Some? && disp < HOLDOVER_UNSYNC_US;
    var stratum := if synced || holdoverOk then 1 else STRATUM_UNSYNC;
    Params(
      stratum,
      if synced then Locked else if stratum == 1 then Holdover else Unsync,
      if stratum == 1 then c.pendingLeap else 3,
      disp,
      ShortFormat(disp),
      c.lastSyncTs)
  }

  // --- The holdover law ---

  const HOLDOVER_LIMIT_US := 2_008_000_000

  /**
   In every state reachable from boot the served stratum depends only on the
   history of the pulses: it is 1 exactly while the last pulse that locked the
   clock or was accepted is younger than 2008 s, with or without a GPS fix.
   The state is Locked exactly with a fix and an age below 10 s.  At stratum 1
   the leap indicator is the last one announced; otherwise the alarm is raised.
   */
  lemma HoldoverLaw(fudge: Fudge, es: seq<Event>, gpsFix: bool, nowUs: i64)
    ensures var (last, p) := (LastGoodEdge(Fresh(fudge), es), ParamsAt(Run(Fresh(fudge), es), gpsFix, nowUs));
            && (p.stratum == 1 <==> last.Some? && nowUs - last.value < HOLDOVER_LIMIT_US)
            && (p.state == Locked <==> gpsFix && last.Some? && nowUs - last.value < HOLDOVER_ENTRY_US)
            && (p.state == Unsync <==> p.stratum != 1)
            && (if p.stratum == 1 then p.leap == LastAnnounced(es) else p.stratum == STRATUM_UNSYNC && p.leap == 3)
  {
    ReachableInv(fudge, es);
    AnnouncementKept(fudge, es);
    LastEdgeRemembered(Fresh(fudge), es);
    if Run(Fresh(fudge), es).lastPpsUs.Some? {
      AgeLimit(nowUs - Run(Fresh(fudge), es).lastPpsUs.value);
    }
  }

  /** The dispersion ceiling of one second is an age limit of 2008 s. */
  lemma AgeLimit(age: int)
    ensures Min(BASE_DISP_US
                + Sat(Max(0, Sat(Sat(age) - HOLDOVER_ENTRY_US)) / MICROS_PER_SEC * HOLDOVER_DISP_RATE_US_PER_SEC),
                MAX_DISP_US) < HOLDOVER_UNSYNC_US
            <==> age < HOLDOVER_LIMIT_US
  {
    var secs := Max(0, Sat(Sat(age) - HOLDOVER_ENTRY_US)) / MICROS_PER_SEC;
    assert secs < 1998 <==> age < HOLDOVER_LIMIT_US;
  }

  /** An anchor from the RTC or from sentences alone is never served at stratum 1. */
  lemma {:induction false} NoPulseNoGoodEdge(c: Clock, es: seq<Event>)
    requires forall e :: e in es ==> !e.Pulse?
    ensures LastGoodEdge(c, es).None?
    decreases |es|
  {
    if es != [] {
      NoPulseNoGoodEdge(Step(c, es[0]), es[1..]);
    }
  }

  lemma WithoutPulsesNeverStratumOne(fudge: Fudge, es: seq<Event>, gpsFix: bool, nowUs: i64)
    requires forall e :: e in es ==> !e.Pulse?
    ensures ParamsAt(Run(Fresh(fudge), es), gpsFix, nowUs).stratum == STRATUM_UNSYNC
  {
    NoPulseNoGoodEdge(Fresh(fudge), es);
    HoldoverLaw(fudge, es, gpsFix, nowUs);
  }

  // --- Dispersion ---

  lemma OlderIsWorse(age: int, age': int)
    requires age <= age'
    ensures Max(0, Sat(Sat(age) - HOLDOVER_ENTRY_US)) / MICROS_PER_SEC
         <= Max(0, Sat(Sat(age') - HOLDOVER_ENTRY_US)) / MICROS_PER_SEC
  {
  }

  /**
   Once the clock has locked, as long as no pulse is accepted and the state is
   not Locked, root dispersion never decreases over time, and it stays between
   1 ms and 2 s, whatever other inputs arrive.
   */
  lemma HoldoverDispersionNondecreasing(c: Clock, es: seq<Event>, fix: bool, fix': bool, nowUs: i64, nowUs': i64)
    requires Inv(c) && c.ppsLocked && LastGoodEdge(c, es).None? && nowUs <= nowUs'
    requires ParamsAt(c, fix, nowUs).state != Locked && ParamsAt(Run(c, es), fix', nowUs').state != Locked
    ensures BASE_DISP_US <= Dispersion(c, fix, nowUs) <= Dispersion(Run(c, es), fix', nowUs') <= MAX_DISP_US
  {
    RunKeepsInv(c, es);
    LastEdgeRemembered(c, es);
    OlderIsWorse(nowUs - c.lastPpsUs.value, nowUs' - c.lastPpsUs.value);
  }

  lemma RoundBounded(x: real, bound: nat)
    requires 0.0 <= x <= bound as real
    ensures 0 <= Round(x) <= bound
  {
  }

  /** While Locked the dispersion is bounded by the accepted phase errors, plus 15 us of ageing. */
  lemma LockedDispersionWithinErrors(fudge: Fudge, es: seq<Event>, gpsFix: bool, nowUs: i64, bound: nat)
    requires ErrorsWithin(Fresh(fudge), es, -(bound as int), bound)
    requires var c := Run(Fresh(fudge), es); FullySynced(c, gpsFix, nowUs) && 0 <= PpsAge(c, nowUs)
    ensures MIN_HW_ACCURACY_US <= Dispersion(Run(Fresh(fudge), es), gpsFix, nowUs)
         <= Max(bound, MIN_HW_ACCURACY_US) + PHI_US_PER_S
  {
    JitterWithinErrors(Fresh(fudge), es, bound);
    RoundBounded(Run(Fresh(fudge), es).ppsJitterUs, bound);
  }

  // --- Exact values ---

  /** The nearest integer to a non-negative value, halves up. */
  ghost function Nearest(x: real): int {
    (x + 0.5).Floor
  }

  /**
   The dispersion due to a clock whose last good edge is `ageUs` old: jitter, at
   least 100 us, with 15 us a second of ageing up to a second, while the fix and
   the edge are fresh; else 1 ms, growing by 500 us for every whole second past
   ten, up to 2 s.
   */
  ghost function DueDispersion(c: Clock, gpsFix: bool, ageUs: int): int {
    if gpsFix && ageUs < 10_000_000 then
      Max(100, if c.ppsHasSample then Nearest(c.ppsJitterUs) else 0) + 15 * Min(ageUs, 1_000_000) / 1_000_000
    else if ageUs < 10_000_000 then 1_000
    else Min(1_000 + (ageUs - 10_000_000) / 1_000_000 * 500, 2_000_000)
  }

  lemma DispersionExactly(c: Clock, gpsFix: bool, nowUs: i64)
    requires Inv(c) && 0 <= PpsAge(c, nowUs)
    ensures ParamsAt(c, gpsFix, nowUs).dispersionUs
         == if c.ppsLocked then DueDispersion(c, gpsFix, nowUs - c.lastPpsUs.value) else 2_000_000
  {
    hide Pack, ShortFormat;
  }

  /** At stratum 1 the reference timestamp is the anchor second. */
  lemma ReferenceIsAnchor(c: Clock, gpsFix: bool, nowUs: i64)
    requires Inv(c) && ParamsAt(c, gpsFix, nowUs).stratum == 1
    ensures c.anchor.Some? && ParamsAt(c, gpsFix, nowUs).refTs == Pack(c.anchor.value.unixSeconds, 0)
  {
    hide Pack, ShortFormat;
  }

  lemma ShortFormatExact(us: int)
    requires 0 <= us <= MAX_DISP_US
    ensures 0 <= us * 0x1_0000 - ShortFormat(us) * 1_000_000 < 1_000_000
  {
    assert us * 0x1_0000 / 1_000_000 <= 0x2_0000;
  }

  lemma DispersionBounded(c: Clock, gpsFix: bool, nowUs: i64)
    requires Inv(c) && 0 <= PpsAge(c, nowUs)
    ensures 0 <= Dispersion(c, gpsFix, nowUs) <= MAX_DISP_US
  {
    RoundBounded(c.ppsJitterUs, MAX_ERROR_US);
  }

  /**
   In every reachable state the casts to the 32-bit root dispersion field lose
   nothing: the 16.16 value under-reports the microsecond value by less than one
   unit of 2^-16 s.
   */
  lemma ShortFormatFits(fudge: Fudge, es: seq<Event>, gpsFix: bool, nowUs: i64)
    requires var c := Run(Fresh(fudge), es); 0 <= PpsAge(c, nowUs)
    ensures var p := ParamsAt(Run(Fresh(fudge), es), gpsFix, nowUs);
            0 <= p.dispersionUs * 0x1_0000 - p.rootDispShort * 1_000_000 < 1_000_000
  {
    var c := Run(Fresh(fudge), es);
    ReachableInv(fudge, es);
    DispersionBounded(c, gpsFix, nowUs);
    hide Inv, Dispersion, ShortFormat;
    ShortFormatExact(Dispersion(c, gpsFix, nowUs));
  }
}
