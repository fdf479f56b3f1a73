/** The events of the pulse capture, as the discipline engine consumes them. */
module PulseFeed {
  import opened Wrappers
  import opened Numbers
  import opened Discipline
  import opened Runs
  import Holdover
  import Pps

  function AsPulse(e: Pps.PpsEvent): Event {
    match e
    case First(edge) => Pulse(None, Sat(edge))
    case Delta(interval, edge) => Pulse(Some(interval), Sat(edge))
  }

  function Pulses(es: seq<Event>): seq<Event> {
    if es == [] then [] else (if es[0].Pulse? then [es[0]] else []) + Pulses(es[1..])
  }

  lemma {:induction false} PulseInPlace(es: seq<Event>, i: nat)
    requires i < |es| && es[i].Pulse?
    ensures |Pulses(es[..i])| < |Pulses(es)| && Pulses(es)[|Pulses(es[..i])|] == es[i]
  {
    if i > 0 {
      assert es[..i][1..] == es[1..][..i - 1];
      PulseInPlace(es[1..], i - 1);
    }
  }

  lemma {:induction false} NoPulses(es: seq<Event>)
    requires Pulses(es) == []
    ensures forall e :: e in es ==> !e.Pulse?
  {
    if es != [] {
      NoPulses(es[1..]);
    }
  }

  /** The pulses of the run are the events polled so far, in order; other inputs come anywhere between. */
  ghost predicate Fed(es: seq<Event>, m: Pps.Machine) {
    && |Pulses(es)| == |m.events|
    && (forall k :: 0 <= k < |m.events| ==> Pulses(es)[k] == AsPulse(m.events[k]))
  }

  /** The pulse at `i` is the event reported after all the pulses before it. */
  lemma ReportedInOrder(es: seq<Event>, m: Pps.Machine, i: nat)
    requires Fed(es, m) && i < |es| && es[i].Pulse?
    ensures |Pulses(es[..i])| < |m.events| && es[i] == AsPulse(m.events[|Pulses(es[..i])|])
  {
    PulseInPlace(es, i);
  }

  /** Once the clock has locked, every pulse it is fed carries an interval. */
  lemma IntervalOnceLocked(fudge: Fudge, actions: seq<Pps.Action>, m: Pps.Machine, es: seq<Event>, i: nat)
    requires Pps.Reaches(actions, m) && Fed(es, m)
    requires i < |es| && es[i].Pulse? && Run(Fresh(fudge), es[..i]).ppsLocked
    ensures es[i].interval.Some?
  {
    var before := es[..i];
    ReachableInv(fudge, before);
    LastEdgeRemembered(Fresh(fudge), before);
    if Pulses(before) == [] {
      NoPulses(before);
      Holdover.NoPulseNoGoodEdge(Fresh(fudge), before);
    }
    ReportedInOrder(es, m, i);
    Pps.StreamIsFaithful(actions, m);
  }

  /**
   Fed from the pulse capture, a clock that has locked is never locked again:
   every later pulse carries an interval and goes through the filters.
   */
  lemma LockedOnce(fudge: Fudge, actions: seq<Pps.Action>, m: Pps.Machine, es: seq<Event>, i: nat)
    requires Pps.Reaches(actions, m) && Fed(es, m)
    requires i < |es| && Run(Fresh(fudge), es[..i]).ppsLocked
    ensures !Locks(Run(Fresh(fudge), es[..i]), es[i])
  {
    ReachableInv(fudge, es[..i]);
    if es[i].Pulse? {
      IntervalOnceLocked(fudge, actions, m, es, i);
    }
  }

  lemma {:induction false} PulsesAppend(es: seq<Event>, fs: seq<Event>)
    ensures Pulses(es + fs) == Pulses(es) + Pulses(fs)
  {
    if es == [] {
      assert es + fs == fs;
    } else {
      assert (es + fs)[1..] == es[1..] + fs;
      PulsesAppend(es[1..], fs);
    }
  }

  lemma {:induction false} NoPulsesAmong(es: seq<Event>)
    requires forall k :: 0 <= k < |es| ==> !es[k].Pulse?
    ensures Pulses(es) == []
  {
    if es != [] {
      NoPulsesAmong(es[1..]);
    }
  }

  /** `es[h]` and `es[i]` are pulses, and no pulse comes between them. */
  ghost predicate NextPulse(es: seq<Event>, h: nat, i: nat) {
    && h < i < |es| && es[h].Pulse? && es[i].Pulse?
    && (forall k :: h < k < i ==> !es[k].Pulse?)
  }

  lemma CountedOneOn(es: seq<Event>, h: nat, i: nat)
    requires NextPulse(es, h, i)
    ensures |Pulses(es[..i])| == |Pulses(es[..h])| + 1
  {
    assert es[..i] == es[..h] + ([es[h]] + es[h + 1..i]);
    PulsesAppend(es[..h], [es[h]] + es[h + 1..i]);
    NoPulsesAmong(es[h + 1..i]);
    assert ([es[h]] + es[h + 1..i])[1..] == es[h + 1..i];
  }

  lemma DeltaAt(actions: seq<Pps.Action>, m: Pps.Machine, k: nat)
    requires Pps.Reaches(actions, m) && 0 < k < |m.events|
    ensures m.events[k].Delta? && m.events[k].edgeUs <= I64_MAX && m.events[k - 1].edgeUs <= I64_MAX
    ensures m.events[k].edgeUs - m.events[k - 1].edgeUs < Pps.MODULUS ==>
              m.events[k].intervalUs == m.events[k].edgeUs - m.events[k - 1].edgeUs
  {
    Pps.ReachableInv(actions, m);
    Pps.StreamIsFaithful(actions, m);
    hide Pps.Reaches, Pps.DeltaUs, Pps.CursorAt, Pps.ReaderInv;
  }

  lemma IntervalReadsBack(actions: seq<Pps.Action>, m: Pps.Machine, k: nat)
    requires Pps.Reaches(actions, m) && 0 < k < |m.events|
    ensures var (p, e) := (AsPulse(m.events[k - 1]), AsPulse(m.events[k]));
            e.edgeUs - p.edgeUs < Pps.MODULUS ==> e.interval == Some(e.edgeUs - p.edgeUs)
  {
    DeltaAt(actions, m, k);
    hide Pps.Reaches;
  }

  /** A pulse less than 2^32 us after the one before it carries the time between their edges. */
  lemma IntervalIsTheGap(actions: seq<Pps.Action>, m: Pps.Machine, es: seq<Event>, h: nat, i: nat)
    requires Pps.Reaches(actions, m) && Fed(es, m) && NextPulse(es, h, i)
    requires es[i].edgeUs - es[h].edgeUs < Pps.MODULUS
    ensures es[i].interval == Some(es[i].edgeUs - es[h].edgeUs)
  {
    ReportedInOrder(es, m, h);
    ReportedInOrder(es, m, i);
    CountedOneOn(es, h, i);
    hide Pps.Reaches, Pulses, Fed, NextPulse;
    IntervalReadsBack(actions, m, |Pulses(es[..i])|);
  }

  /** Between two pulses the engine keeps its last good edge and its jitter sample. */
  lemma {:induction false} KeptBetweenPulses(c: Clock, es: seq<Event>)
    requires forall k :: 0 <= k < |es| ==> !es[k].Pulse?
    ensures Run(c, es).lastPpsUs == c.lastPpsUs && Run(c, es).ppsHasSample == c.ppsHasSample
    decreases |es|
  {
    if es != [] {
      KeptBetweenPulses(Step(c, es[0]), es[1..]);
    }
  }

  /** After a pulse that locked or was accepted the next one finds its edge; after an accepted one, a jitter sample. */
  lemma FoundByTheNext(fudge: Fudge, es: seq<Event>, h: nat, i: nat)
    requires NextPulse(es, h, i)
    requires var c := Run(Fresh(fudge), es[..h]); Accepts(c, es[h]) || Locks(c, es[h])
    ensures Run(Fresh(fudge), es[..i]).lastPpsUs == Some(es[h].edgeUs)
    ensures Accepts(Run(Fresh(fudge), es[..h]), es[h]) ==> Run(Fresh(fudge), es[..i]).ppsHasSample
  {
    var c := Run(Fresh(fudge), es[..h]);
    var rest := [es[h]] + es[h + 1..i];
    assert es[..i] == es[..h] + rest;
    RunAppend(Fresh(fudge), es[..h], rest);
    assert rest[1..] == es[h + 1..i];
    KeptBetweenPulses(Step(c, es[h]), es[h + 1..i]);
  }
}
