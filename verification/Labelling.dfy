/**
 Whole runs against the true time.  The environment supplies, with every
 pulse, the UTC second its edge really marks; the theorems say when the clock
 gives the edge that second, whatever pulses are missed, coalesced or rejected
 in between.
 */
module Labelling {
  import opened Wrappers
  import opened Numbers
  import opened Discipline
  import opened Runs
  import opened Counting

  /** The oscillator's true offset over one gap, in ppm, and a bound on the error of its edge-to-edge time. */
  datatype World = World(rho: real, jitterUs: real)

  /** An input, with the true UTC second of its edge when it is a pulse. */
  datatype Observation = Observation(event: Event, second: int)

  /** Far inside the 64-bit ranges: instants within 30 000 years. */
  ghost predicate Instant(us: int) {
    -1_000_000_000_000_000_000 <= us <= 1_000_000_000_000_000_000
  }

  ghost predicate Second(s: int) {
    0 <= s <= 1_000_000_000_000
  }

  function Events(os: seq<Observation>): seq<Event> {
    if os == [] then [] else [os[0].event] + Events(os[1..])
  }

  /** Every pulse comes with an interval: none of them is the first since boot. */
  ghost predicate Measured(os: seq<Observation>) {
    forall k :: 0 <= k < |os| && os[k].event.Pulse? ==> os[k].event.interval.Some?
  }

  function ErrorOf(e: Event): int
    requires e.Pulse? && e.interval.Some?
  {
    PhaseError(e.interval.value)
  }

  /** Every accepted pulse, after the first `skip` of them, is given its true second. */
  ghost predicate EveryPulseTrue(c: Clock, skip: nat, os: seq<Observation>)
    decreases |os|
  {
    os != [] ==>
    var c' := Step(c, os[0].event);
    if Accepts(c, os[0].event) then
      && (skip > 0 || c'.anchor.value.unixSeconds == os[0].second)
      && EveryPulseTrue(c', if skip > 0 then skip - 1 else 0, os[1..])
    else
      EveryPulseTrue(c', skip, os[1..])
  }

  /**
   The time between the last good edge, whose true second is `s`, and this edge
   is what the world says it is, and short enough for the frequency estimate in
   use: `n` s of residual drift plus jitter and nudge stay under half a second.
   */
  ghost predicate Timely(c: Clock, s: int, w: World, o: Observation)
    requires Accepts(c, o.event)
  {
    c.lastPpsUs.Some? &&
    var last: int, anchorUs: int := c.lastPpsUs.value, c.anchor.value.monotonicUs;
    && Instant(last) && Instant(o.event.edgeUs) && Second(s) && Second(o.second)
    && s <= o.second
    && Spans(o.event.edgeUs - last, o.second - s, w.rho, w.jitterUs)
    && WithinBudget(o.second - s, w.rho, UpdatedFreq(c.freqPpm, ErrorOf(o.event)),
                    w.jitterUs + Abs(last - anchorUs) as real)
  }

  /** Starting the measurement at the nudged anchor instead of the edge costs at most the nudge. */
  lemma SpansFromAnchor(edge: int, last: int, anchorUs: int, n: nat, rho: real, jitter: real)
    requires Spans(edge - last, n, rho, jitter)
    ensures Spans(edge - anchorUs, n, rho, jitter + Abs(last - anchorUs) as real)
  {
    var centre := n as real * (1_000_000.0 + rho);
    assert (edge - anchorUs) as real == (edge - last) as real + (last - anchorUs) as real;
  }

  /** A timely pulse adds the true number of seconds, whatever second the anchor carries. */
  lemma TimelyPulseCountsTrueSeconds(c: Clock, s: int, w: World, o: Observation)
    requires Inv(c) && Accepts(c, o.event) && Timely(c, s, w, o)
    ensures Predicted(c, ErrorOf(o.event), o.event.edgeUs) == Sat(c.anchor.value.unixSeconds + (o.second - s))
  {
    var (last, anchorUs) := (c.lastPpsUs.value, c.anchor.value.monotonicUs);
    SpansFromAnchor(o.event.edgeUs, last, anchorUs, o.second - s, w.rho, w.jitterUs);
    ElapsedSecondsExact(UpdatedFreq(c.freqPpm, ErrorOf(o.event)), w.rho, o.second - s,
                        Sat(o.event.edgeUs - anchorUs), w.jitterUs + Abs(last - anchorUs) as real);
  }

  // --- Once true, always true ---

  /** By how much the pairing of the latest sentence misses the true second of this edge. */
  ghost function Mispairing(c: Clock, o: Observation): int
    requires o.event.Pulse?
  {
    match GpsSecondAtEdge(c, o.event.edgeUs)
    case None => 0
    case Some(g) => g - o.second
  }

  function Pending(mis: int): Option<int> {
    if mis == 0 then None else Some(mis)
  }

  /** Timely in some world: the oscillator's rate over this gap is its own. */
  ghost predicate OnTime(c: Clock, s: int, o: Observation)
    requires Accepts(c, o.event)
  {
    exists w: World :: Timely(c, s, w, o)
  }

  /** Every accepted pulse is on time; `s` is the true second of the previous one, if there is one. */
  ghost predicate InTime(c: Clock, s: Option<int>, os: seq<Observation>)
    decreases |os|
  {
    os != [] ==>
    var o := os[0];
    if Accepts(c, o.event) then
      && Second(o.second) && (s.Some? ==> OnTime(c, s.value, o))
      && InTime(Step(c, o.event), Some(o.second), os[1..])
    else
      InTime(Step(c, o.event), s, os[1..])
  }

  /** No two consecutive accepted pulses see the same wrong pairing; `mis` is the previous one's. */
  ghost predicate NoRepeatedMispairing(c: Clock, mis: int, os: seq<Observation>)
    decreases |os|
  {
    os != [] ==>
    var o := os[0];
    if Accepts(c, o.event) then
      && (Mispairing(c, o) == 0 || Mispairing(c, o) != mis)
      && NoRepeatedMispairing(Step(c, o.event), Mispairing(c, o), os[1..])
    else
      NoRepeatedMispairing(Step(c, o.event), mis, os[1..])
  }

  /** One pulse from a true anchor: labelled true exactly when it does not repeat the last mispairing. */
  lemma TruePulseExactly(c: Clock, s: int, mis: int, o: Observation)
    requires Inv(c) && Accepts(c, o.event) && OnTime(c, s, o)
    requires c.anchor.value.unixSeconds == s && c.pendingStep == Pending(mis)
    ensures var c' := Step(c, o.event);
            && (c'.anchor.value.unixSeconds == o.second <==> Mispairing(c, o) == 0 || Mispairing(c, o) != mis)
            && (c'.anchor.value.unixSeconds == o.second ==> c'.pendingStep == Pending(Mispairing(c, o)))
  {
    var w: World :| Timely(c, s, w, o);
    TimelyPulseCountsTrueSeconds(c, s, w, o);
  }

  /**
   Whole-run second labelling.  From a true anchor, over any run that keeps
   time with the world, every accepted pulse is given its true second if and
   only if no two consecutive accepted pulses see the same wrong GPS pairing.
   */
  lemma {:induction false} LabelsFollowPairing(c: Clock, s: int, mis: int, os: seq<Observation>)
    requires Inv(c) && c.ppsLocked && Measured(os) && InTime(c, Some(s), os)
    requires c.anchor.value.unixSeconds == s && c.pendingStep == Pending(mis)
    ensures EveryPulseTrue(c, 0, os) <==> NoRepeatedMispairing(c, mis, os)
    decreases |os|
  {
    if os != [] {
      var o := os[0];
      var c' := Step(c, o.event);
      StepKeepsInv(c, o.event);
      if Accepts(c, o.event) {
        TruePulseExactly(c, s, mis, o);
        if c'.anchor.value.unixSeconds == o.second {
          LabelsFollowPairing(c', o.second, Mispairing(c, o), os[1..]);
        }
      } else {
        LabelsFollowPairing(c', s, mis, os[1..]);
      }
    }
  }

  // --- Gaps in a modest world ---

  /** A gap of at most 470 s over which the oscillator is within 500 ppm, with jitter up to 9 ms. */
  ghost predicate CalmGap(c: Clock, s: int, w: World, o: Observation)
    requires Accepts(c, o.event)
  {
    && ModestWorld(w) && c.lastPpsUs.Some?
    && Instant(c.lastPpsUs.value) && Instant(o.event.edgeUs) && Second(s) && Second(o.second)
    && s <= o.second <= s + 470
    && Spans(o.event.edgeUs - c.lastPpsUs.value, o.second - s, w.rho, w.jitterUs)
  }

  ghost predicate Calm(c: Clock, s: int, os: seq<Observation>)
    decreases |os|
  {
    os != [] ==>
    var o := os[0];
    if Accepts(c, o.event) then
      (exists w: World :: CalmGap(c, s, w, o)) && Calm(Step(c, o.event), o.second, os[1..])
    else
      Calm(Step(c, o.event), s, os[1..])
  }

  ghost predicate ModestWorld(w: World) {
    -500.0 <= w.rho <= 500.0 && 0.0 <= w.jitterUs <= 9_000.0
  }

  lemma ModestGapWithinBudget(n: nat, rho: real, freq: real, slack: real)
    requires n <= 470 && -500.0 <= rho <= 500.0 && -500.0 <= freq <= 500.0 && 0.0 <= slack <= 29_000.0
    ensures WithinBudget(n, rho, freq, slack)
  {
    SkewBounded(rho, freq);
    ModestSum(n as real, RAbs(Skew(rho, freq)), slack, Scale(freq));
  }

  lemma ModestSum(n: real, q: real, slack: real, k: real)
    requires 0.0 <= n <= 470.0 && 0.0 <= q <= 1_000.25 && 0.0 <= slack <= 29_000.0 && k <= 1.0005
    ensures n * q + slack * k < 500_000.0
  {
    ProductAtMost(n, q, 470.0, 1_000.25);
    ProductAtMost(slack, k, 29_000.0, 1.0005);
  }

  /** The quarter of a ppm in the budget is the product of two 500 ppm offsets. */
  lemma SkewBounded(rho: real, freq: real)
    requires -500.0 <= rho <= 500.0 && -500.0 <= freq <= 500.0
    ensures RAbs(Skew(rho, freq)) <= RAbs(rho - freq) + 0.25
  {
    ProductBounded(rho, freq);
  }

  lemma ProductBounded(a: real, b: real)
    requires -500.0 <= a <= 500.0 && -500.0 <= b <= 500.0
    ensures -250_000.0 <= a * b <= 250_000.0
  {
    ProductAtMost(RAbs(a), RAbs(b), 500.0, 500.0);
    assert a * b == RAbs(a) * RAbs(b) || a * b == -(RAbs(a) * RAbs(b));
  }

  lemma CalmGapOnTime(c: Clock, s: int, w: World, o: Observation)
    requires Inv(c) && Accepts(c, o.event) && CalmGap(c, s, w, o)
    ensures Timely(c, s, w, o)
  {
    ModestGapWithinBudget(o.second - s, w.rho, UpdatedFreq(c.freqPpm, ErrorOf(o.event)),
                          w.jitterUs + Abs(c.lastPpsUs.value - c.anchor.value.monotonicUs) as real);
  }

  lemma {:induction false} CalmRunInTime(c: Clock, s: int, os: seq<Observation>)
    requires Inv(c) && c.ppsLocked && Measured(os) && Calm(c, s, os)
    ensures InTime(c, Some(s), os)
    decreases |os|
  {
    if os != [] {
      var o := os[0];
      StepKeepsInv(c, o.event);
      if Accepts(c, o.event) {
        var w: World :| CalmGap(c, s, w, o);
        CalmGapOnTime(c, s, w, o);
        CalmRunInTime(Step(c, o.event), o.second, os[1..]);
      } else {
        CalmRunInTime(Step(c, o.event), s, os[1..]);
      }
    }
  }

  // --- Repair within two pulses ---

  /** The next `n` accepted pulses are paired with their true GPS second. */
  ghost predicate PairedFor(c: Clock, n: nat, os: seq<Observation>)
    decreases |os|
  {
    os != [] && n > 0 ==>
    var o := os[0];
    if Accepts(c, o.event) then
      GpsSecondAtEdge(c, o.event.edgeUs) == Some(o.second) && PairedFor(Step(c, o.event), n - 1, os[1..])
    else
      PairedFor(Step(c, o.event), n, os[1..])
  }

  /** After one well-paired pulse the anchor is right, or the exact correction is pending. */
  ghost predicate OnTheMend(c: Clock, s: int) {
    && c.anchor.Some? && Abs(c.anchor.value.unixSeconds) <= 2_000_000_000_000_000_000
    && (if c.anchor.value.unixSeconds == s then c.pendingStep.None?
        else c.pendingStep == Some(s - c.anchor.value.unixSeconds))
  }

  lemma MendedByThis(c: Clock, s: int, o: Observation)
    requires Inv(c) && OnTheMend(c, s) && Accepts(c, o.event) && OnTime(c, s, o)
    requires GpsSecondAtEdge(c, o.event.edgeUs) == Some(o.second)
    ensures Step(c, o.event).anchor.value.unixSeconds == o.second && Step(c, o.event).pendingStep.None?
  {
    var w: World :| Timely(c, s, w, o);
    TimelyPulseCountsTrueSeconds(c, s, w, o);
  }

  /** The second well-paired pulse is labelled true, and from there labels follow the pairing. */
  lemma {:induction false} MendedByTheNext(c: Clock, s: int, os: seq<Observation>)
    requires Inv(c) && c.ppsLocked && OnTheMend(c, s)
    requires Measured(os) && InTime(c, Some(s), os) && PairedFor(c, 1, os)
    ensures EveryPulseTrue(c, 0, os) <==> NoRepeatedMispairing(c, 0, os)
    decreases |os|
  {
    if os != [] {
      var o := os[0];
      var c' := Step(c, o.event);
      StepKeepsInv(c, o.event);
      if Accepts(c, o.event) {
        MendedByThis(c, s, o);
        LabelsFollowPairing(c', o.second, 0, os[1..]);
      } else {
        MendedByTheNext(c', s, os[1..]);
      }
    }
  }

  /** From any locked state, one well-paired pulse puts the clock on the mend. */
  lemma PairedPulseMends(c: Clock, o: Observation)
    requires Inv(c) && Accepts(c, o.event) && Instant(c.anchor.value.unixSeconds) && Second(o.second)
    requires GpsSecondAtEdge(c, o.event.edgeUs) == Some(o.second)
    ensures OnTheMend(Step(c, o.event), o.second)
  {
  }

  lemma {:induction false} RepairFollowsPairing(c: Clock, os: seq<Observation>)
    requires Inv(c) && c.ppsLocked && Instant(c.anchor.value.unixSeconds)
    requires Measured(os) && InTime(c, None, os) && PairedFor(c, 2, os)
    ensures EveryPulseTrue(c, 1, os) <==> NoRepeatedMispairing(c, 0, os)
    decreases |os|
  {
    if os != [] {
      var o := os[0];
      var c' := Step(c, o.event);
      StepKeepsInv(c, o.event);
      if Accepts(c, o.event) {
        PairedPulseMends(c, o);
        MendedByTheNext(c', o.second, os[1..]);
      } else {
        RepairFollowsPairing(c', os[1..]);
      }
    }
  }
}
