/**
 Whole runs from boot with hypotheses on the environment alone: second marks
 from an oscillator whose rate may wander, sentences that name their true second
 and are parsed well inside the second the build expects, isolated ones that do
 not, and pulses that come when they should.  Nothing is assumed about the
 clock's own state.
 */
module Schedule {
  import opened Wrappers
  import opened Numbers
  import opened Discipline
  import opened Runs
  import opened Counting
  import opened Pairing
  import opened Labelling
  import opened ServedTime

  /** When, on the monotonic clock, each UTC second begins, and the oscillator's rate over the gap that starts there. */
  datatype Sky = Sky(edgeAt: int -> int, rateFrom: int -> real, jitterUs: real) {
    function WorldFrom(s: int): World {
      World(rateFrom(s), jitterUs)
    }
  }

  /** What the oscillator may drift in three seconds, with the jitter. */
  const MARGIN_US := 10_500
  const PROMPT_US := 2_000_000
  const MAX_GAP := 470

  /**
   From every mark the oscillator keeps some rate within 500 ppm for 470 s, give
   or take 9 ms; over longer times the rate may wander anywhere in that range.
   */
  ghost predicate Regular(sky: Sky) {
    && (forall s: int :: Second(s) ==> ModestWorld(sky.WorldFrom(s)))
    && (forall s: int, s': int :: Second(s) && Second(s') && s <= s' <= s + MAX_GAP ==>
          Spans(sky.edgeAt(s') - sky.edgeAt(s), s' - s, sky.rateFrom(s), sky.jitterUs))
  }

  /** The sentence names the second it belongs to, and is parsed inside the second the fudge stands for. */
  ghost predicate Punctual(sky: Sky, fudge: Fudge, utc: int, nowUs: int) {
    var lateUs := nowUs - sky.edgeAt(utc);
    && Second(utc) && Instant(nowUs)
    && (if fudge == 1 then MARGIN_US < lateUs <= 1_000_000 - MARGIN_US
        else MARGIN_US - 1_000_000 < lateUs <= -MARGIN_US)
  }

  /** The first pulse since boot, or one whose interval is in range: all others are dropped in any state. */
  predicate Relevant(e: Event) {
    e.Pulse? && (e.interval.Some? ==> InRange(e.interval.value))
  }

  /** About one second after the pulse before it, so accepted by every locked clock. */
  predicate Steady(e: Event) {
    e.Pulse? && e.interval.Some? && Abs(PhaseError(e.interval.value)) <= PPS_OUTLIER_THRESHOLD_US
  }

  /**
   What the schedule remembers of a run: when the latest sentence was parsed and
   whether it was punctual; whether a pulse has found a fresh punctual sentence;
   whether one has been misled with no steady pulse set right since; the second of
   the last steady pulse (or of the first relevant one), and of the last relevant
   one.
   */
  datatype Watch = Watch(
    parsed: Option<i64>,
    punctual: bool,
    locked: bool,
    suspect: bool,
    steady: Option<int>,
    seen: int)

  const BOOT := Watch(None, false, false, false, None, -1)

  predicate FreshFor(t: Watch, edgeUs: int) {
    t.parsed.Some? && edgeUs - t.parsed.value < GPS_STALE_THRESHOLD_US
  }

  /** The edge is about to be paired with a sentence that is not punctual. */
  predicate Misled(t: Watch, edgeUs: int) {
    FreshFor(t, edgeUs) && !t.punctual
  }

  ghost function Next(sky: Sky, fudge: Fudge, t: Watch, o: Observation): Watch {
    match o.event
    case Nmea(utc, nowUs) => t.(parsed := Some(nowUs), punctual := Punctual(sky, fudge, utc, nowUs))
    case Pulse(_, edgeUs) =>
      if !Relevant(o.event) then t
      else
        t.(locked := t.locked || (FreshFor(t, edgeUs) && t.punctual),
           suspect := Misled(t, edgeUs) || (t.suspect && !Steady(o.event)),
           steady := if t.steady.None? || Steady(o.event) then Some(o.second) else t.steady,
           seen := o.second)
    case _ => t
  }

  /** The pulse marks its second, later than any before it and no more than 470 s after a steady one. */
  ghost predicate OnMark(sky: Sky, t: Watch, o: Observation)
    requires o.event.Pulse?
  {
    && Second(o.second) && Instant(o.event.edgeUs) && o.event.edgeUs == sky.edgeAt(o.second)
    && t.seen < o.second
    && (t.steady.Some? ==> o.second <= t.steady.value + MAX_GAP)
  }

  /**
   Relevant pulses are on their mark.  One that is misled comes after lock, and
   with a steady pulse set right since the one misled before it; any other is
   handled before a sentence parsed more than two seconds after it.
   */
  ghost predicate Fits(sky: Sky, t: Watch, o: Observation) {
    o.event.Pulse? && Relevant(o.event) ==>
      && OnMark(sky, t, o)
      && (if Misled(t, o.event.edgeUs) then t.locked && !t.suspect && o.event.interval.Some?
          else t.parsed.Some? && t.punctual ==> t.parsed.value - o.event.edgeUs <= PROMPT_US)
  }

  /** Sentences, irrelevant pulses and the RTC may be anything; what matters is what relevant pulses find. */
  ghost predicate Scheduled(sky: Sky, fudge: Fudge, t: Watch, os: seq<Observation>)
    decreases |os|
  {
    os != [] ==> Fits(sky, t, os[0]) && Scheduled(sky, fudge, Next(sky, fudge, t, os[0]), os[1..])
  }

  ghost function Watched(sky: Sky, fudge: Fudge, t: Watch, os: seq<Observation>): Watch
    decreases |os|
  {
    if os == [] then t else Watched(sky, fudge, Next(sky, fudge, t, os[0]), os[1..])
  }

  // --- Marks ---

  /** Within 470 s the marks advance by at least 999.5 ms a second, less the jitter. */
  lemma MarkAfter(sky: Sky, s: int, s': int)
    requires Regular(sky) && Second(s) && Second(s') && s <= s' <= s + MAX_GAP
    ensures sky.edgeAt(s') - sky.edgeAt(s) >= (s' - s) * 999_500 - 9_000
  {
    var n := (s' - s) as real;
    assert ModestWorld(sky.WorldFrom(s));
    DriftPerSecond((sky.edgeAt(s') - sky.edgeAt(s)) as real, n, sky.rateFrom(s), sky.jitterUs);
  }

  /** Marks more than 470 s apart are more than 400 s apart on the monotonic clock, however the rate wanders. */
  lemma {:induction false} MarksAdvance(sky: Sky, s: int, s': int)
    requires Regular(sky) && Second(s) && Second(s') && s + MAX_GAP < s'
    ensures sky.edgeAt(s') - sky.edgeAt(s) >= 400_000_000
    decreases s' - s
  {
    var next := s + MAX_GAP;
    MarkAfter(sky, s, next);
    if s' <= next + MAX_GAP {
      MarkAfter(sky, next, s');
    } else {
      MarksAdvance(sky, next, s');
    }
  }

  /** Two marks no more than three seconds apart differ from whole seconds by at most the margin. */
  lemma MarksAreClose(sky: Sky, s: int, s': int)
    requires Regular(sky) && Second(s) && Second(s')
    requires Abs(sky.edgeAt(s') - sky.edgeAt(s)) <= 3_000_000
    ensures Abs(sky.edgeAt(s') - sky.edgeAt(s) - (s' - s) * MICROS_PER_SEC) <= MARGIN_US
  {
    if s <= s' {
      LaterMarkIsClose(sky, s, s');
    } else {
      LaterMarkIsClose(sky, s', s);
    }
  }

  lemma LaterMarkIsClose(sky: Sky, s: int, s': int)
    requires Regular(sky) && Second(s) && Second(s') && s <= s'
    requires Abs(sky.edgeAt(s') - sky.edgeAt(s)) <= 3_000_000
    ensures Abs(sky.edgeAt(s') - sky.edgeAt(s) - (s' - s) * MICROS_PER_SEC) <= MARGIN_US
  {
    if s + MAX_GAP < s' {
      MarksAdvance(sky, s, s');
      assert false;
    } else {
      assert ModestWorld(sky.WorldFrom(s));
      NearWholeSeconds(sky.edgeAt(s') - sky.edgeAt(s), s' - s, sky.WorldFrom(s));
    }
  }

  lemma NearWholeSeconds(us: int, n: nat, w: World)
    requires ModestWorld(w) && Spans(us, n, w.rho, w.jitterUs) && us <= 3_000_000
    ensures Abs(us - n * MICROS_PER_SEC) <= MARGIN_US
  {
    DriftPerSecond(us as real, n as real, w.rho, w.jitterUs);
    assert n as real < 4.0;
    assert n <= 3;
  }

  lemma DriftAddsUp(u: real, x: real, centre: real, drift: real, jitter: real)
    requires centre == x * 1_000_000.0 + drift && -500.0 * x <= drift <= 500.0 * x && RAbs(u - centre) <= jitter
    ensures RAbs(u - x * 1_000_000.0) <= 500.0 * x + jitter
  {
  }

  lemma DriftPerSecond(u: real, x: real, rho: real, jitter: real)
    requires 0.0 <= x && -500.0 <= rho <= 500.0 && RAbs(u - x * (1_000_000.0 + rho)) <= jitter
    ensures RAbs(u - x * 1_000_000.0) <= 500.0 * x + jitter
  {
    MulNonNegative(x, 500.0 - rho);
    MulNonNegative(x, 500.0 + rho);
    assert x * (500.0 - rho) == 500.0 * x - x * rho;
    assert x * (500.0 + rho) == 500.0 * x + x * rho;
    DriftAddsUp(u, x, x * (1_000_000.0 + rho), x * rho, jitter);
  }

  // --- Pairing ---

  /** The clock's record is the latest sentence. */
  ghost predicate GoodRecord(sky: Sky, c: Clock, t: Watch) {
    && c.lastGpsUpdateUs == t.parsed
    && (t.parsed.Some? ==> c.lastGpsUtc.Some?)
    && (t.parsed.Some? && t.punctual ==> Punctual(sky, c.fudge, c.lastGpsUtc.value, t.parsed.value))
  }

  /** On its mark and not misled, an edge is paired with its true second, or with none when the record is stale. */
  lemma PairedTrue(sky: Sky, c: Clock, t: Watch, o: Observation)
    requires Regular(sky) && GoodRecord(sky, c, t) && Relevant(o.event)
    requires Fits(sky, t, o) && !Misled(t, o.event.edgeUs)
    ensures Mispairing(c, o) == 0
    ensures GpsSecondAtEdge(c, o.event.edgeUs).Some? <==> FreshFor(t, o.event.edgeUs)
  {
    if GpsSecondAtEdge(c, o.event.edgeUs).Some? {
      var (n, e0) := (c.lastGpsUtc.value, sky.edgeAt(c.lastGpsUtc.value));
      MarksAreClose(sky, n, o.second);
      PairedExactly(c, n, e0, t.parsed.value - e0, o.second - n,
                    o.event.edgeUs - e0 - (o.second - n) * MICROS_PER_SEC);
    }
  }

  // --- Labelling ---

  /** What the schedule keeps: once locked, a true anchor, and a step pending only while under suspicion. */
  ghost predicate TrueSoFar(sky: Sky, c: Clock, t: Watch) {
    && Inv(c) && GoodRecord(sky, c, t)
    && (t.locked ==> c.ppsLocked)
    && (t.steady.Some? ==> t.steady.value <= t.seen)
    && (c.ppsLocked ==>
          && t.steady.Some? && (c.pendingStep.Some? ==> t.suspect)
          && t.steady.value <= c.anchor.value.unixSeconds <= t.seen
          && AnchoredAt(sky, c, c.anchor.value.unixSeconds))
  }

  ghost predicate AnchoredAt(sky: Sky, c: Clock, s: int) {
    Second(s) && Instant(sky.edgeAt(s)) && c.lastPpsUs == Some(sky.edgeAt(s))
  }

  /** A pulse that locks the clock or is accepted by it is given its true second. */
  ghost predicate LabelledTrue(c: Clock, o: Observation) {
    Accepts(c, o.event) || Locks(c, o.event) ==>
      Step(c, o.event).anchor.Some? && Step(c, o.event).anchor.value.unixSeconds == o.second
  }

  lemma OnTimeOnSchedule(sky: Sky, c: Clock, t: Watch, o: Observation)
    requires Regular(sky) && TrueSoFar(sky, c, t) && Accepts(c, o.event) && Fits(sky, t, o)
    ensures OnTime(c, c.anchor.value.unixSeconds, o)
  {
    var s := c.anchor.value.unixSeconds;
    assert ModestWorld(sky.WorldFrom(s));
    assert Spans(sky.edgeAt(o.second) - sky.edgeAt(s), o.second - s, sky.rateFrom(s), sky.jitterUs);
    CalmGapOnTime(c, s, sky.WorldFrom(s), o);
  }

  /** The last mispairing a clock remembers; zero when no step is pending. */
  function Remembered(c: Clock): int {
    c.pendingStep.GetOr(0)
  }

  /** An accepted pulse keeps its second: its pairing is right, or nothing was pending for it to repeat. */
  lemma AcceptedOnSchedule(sky: Sky, c: Clock, t: Watch, o: Observation)
    requires Regular(sky) && TrueSoFar(sky, c, t) && Accepts(c, o.event) && Fits(sky, t, o)
    ensures Step(c, o.event).anchor.value.unixSeconds == o.second
    ensures Step(c, o.event).pendingStep.Some? ==> Misled(t, o.event.edgeUs)
  {
    OnTimeOnSchedule(sky, c, t, o);
    if !Misled(t, o.event.edgeUs) {
      PairedTrue(sky, c, t, o);
    }
    TruePulseExactly(c, c.anchor.value.unixSeconds, Remembered(c), o);
  }

  lemma AcceptedStep(sky: Sky, c: Clock, t: Watch, o: Observation)
    requires Regular(sky) && TrueSoFar(sky, c, t) && Accepts(c, o.event) && Fits(sky, t, o)
    ensures LabelledTrue(c, o) && TrueSoFar(sky, Step(c, o.event), Next(sky, c.fudge, t, o))
  {
    StepKeepsInv(c, o.event);
    AcceptedOnSchedule(sky, c, t, o);
    hide Inv, Regular;
  }

  lemma LockingStep(sky: Sky, c: Clock, t: Watch, o: Observation)
    requires Regular(sky) && TrueSoFar(sky, c, t) && Locks(c, o.event) && Fits(sky, t, o)
    ensures LabelledTrue(c, o) && TrueSoFar(sky, Step(c, o.event), Next(sky, c.fudge, t, o))
  {
    StepKeepsInv(c, o.event);
    PairedTrue(sky, c, t, o);
  }

  /** A pulse that is neither accepted nor locks, on a clock that is locked or finds no fresh sentence. */
  lemma RejectedStep(sky: Sky, c: Clock, t: Watch, o: Observation)
    requires Regular(sky) && TrueSoFar(sky, c, t) && Fits(sky, t, o) && o.event.Pulse?
    requires !Accepts(c, o.event) && !Locks(c, o.event)
    ensures TrueSoFar(sky, Step(c, o.event), Next(sky, c.fudge, t, o))
  {
    StepKeepsInv(c, o.event);
    if Relevant(o.event) && !Misled(t, o.event.edgeUs) {
      PairedTrue(sky, c, t, o);
    }
  }

  lemma OtherStep(sky: Sky, c: Clock, t: Watch, o: Observation)
    requires TrueSoFar(sky, c, t) && !o.event.Pulse?
    ensures TrueSoFar(sky, Step(c, o.event), Next(sky, c.fudge, t, o))
  {
    StepKeepsInv(c, o.event);
  }

  lemma TrueStep(sky: Sky, c: Clock, t: Watch, o: Observation)
    requires Regular(sky) && TrueSoFar(sky, c, t) && Fits(sky, t, o)
    ensures LabelledTrue(c, o) && TrueSoFar(sky, Step(c, o.event), Next(sky, c.fudge, t, o))
    ensures Step(c, o.event).fudge == c.fudge
  {
    if Accepts(c, o.event) {
      AcceptedStep(sky, c, t, o);
    } else if Locks(c, o.event) {
      LockingStep(sky, c, t, o);
    } else if o.event.Pulse? {
      RejectedStep(sky, c, t, o);
    } else {
      OtherStep(sky, c, t, o);
    }
    hide TrueSoFar, Fits, Next;
  }

  ghost predicate GoodPulsesTrue(c: Clock, os: seq<Observation>)
    decreases |os|
  {
    os != [] ==> LabelledTrue(c, os[0]) && GoodPulsesTrue(Step(c, os[0].event), os[1..])
  }

  lemma {:induction false} TrueOnSchedule(sky: Sky, c: Clock, t: Watch, os: seq<Observation>)
    requires Regular(sky) && TrueSoFar(sky, c, t) && Scheduled(sky, c.fudge, t, os)
    ensures GoodPulsesTrue(c, os) && TrueSoFar(sky, Run(c, Events(os)), Watched(sky, c.fudge, t, os))
    decreases |os|
  {
    if os != [] {
      TrueStep(sky, c, t, os[0]);
      hide TrueSoFar, Fits, LabelledTrue, Step, Next;
      TrueOnSchedule(sky, Step(c, os[0].event), Next(sky, c.fudge, t, os[0]), os[1..]);
    }
  }

  /**
   From boot, on schedule, every pulse that locks the clock or is accepted by it
   carries its true second: with no condition on the clock's state, whatever the
   RTC says, whatever isolated sentences say or how late they are, and whatever
   other pulses are missed, coalesced or rejected.
   */
  lemma SecondsTrueFromBoot(sky: Sky, fudge: Fudge, os: seq<Observation>)
    requires Regular(sky) && Scheduled(sky, fudge, BOOT, os)
    ensures GoodPulsesTrue(Fresh(fudge), os)
  {
    TrueOnSchedule(sky, Fresh(fudge), BOOT, os);
  }

  /**
   And once it is locked, the time it serves up to 470 s after its last good edge
   is within the error bound of UTC, which is under half a second.
   */
  lemma ServedTimeFromBoot(sky: Sky, fudge: Fudge, os: seq<Observation>, nowUs: i64, n: real)
    requires Regular(sky) && Scheduled(sky, fudge, BOOT, os)
    requires var c := Run(Fresh(fudge), Events(os));
             && c.ppsLocked && c.anchor.Some? && c.lastPpsUs.Some? && Instant(nowUs)
             && After(c.lastPpsUs.value, nowUs, n, sky.WorldFrom(c.anchor.value.unixSeconds))
    requires n <= 470.0
    ensures var c := Run(Fresh(fudge), Events(os));
            var s := c.anchor.value.unixSeconds;
            && c.lastPpsUs == Some(sky.edgeAt(s))
            && RAbs(ServedUs(c, nowUs) as real - (s as real + n) * 1_000_000.0)
               <= ErrorBound(c, n, sky.WorldFrom(s)) < 500_000.0
  {
    var c := Run(Fresh(fudge), Events(os));
    var w := sky.WorldFrom(c.anchor.value.unixSeconds);
    TrueOnSchedule(sky, Fresh(fudge), BOOT, os);
    ServedTimeError(c, c.anchor.value.unixSeconds, w, nowUs, n);
    BoundedWithin470(c, n, w);
  }

  lemma BoundedWithin470(c: Clock, n: real, w: World)
    requires Inv(c) && c.ppsLocked && ModestWorld(w) && 0.0 <= n <= 470.0
    ensures ErrorBound(c, n, w) < 500_000.0
  {
    var slack := w.jitterUs + Abs(c.lastPpsUs.value - c.anchor.value.monotonicUs) as real;
    SkewBounded(w.rho, c.freqPpm);
    ProductAtMost(n, RAbs(Skew(w.rho, c.freqPpm)), 470.0, 1_000.25);
    ProductAtMost(slack, Scale(c.freqPpm), 29_000.0, 1.0005);
  }
}
