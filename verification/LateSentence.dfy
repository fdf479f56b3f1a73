/**
 A run on which one sentence parsed late, with the next two missing, costs a
 second: two pulses in a row are paired one low, and the step that should protect
 the clock moves it off true.
 */
module LateSentence {
  import opened Wrappers
  import opened Numbers
  import opened Discipline
  import opened Labelling
  import opened PulseFeed
  import opened CapturedRuns
  import Pps

  const LOCKED_ON := [Nmea(999, 500_000), Pulse(None, 1_000_000)]

  const AT_1001 := Observation(Pulse(Some(1_000_000), 2_000_000), 1001)
  const LATE := Observation(Nmea(1000, 2_500_000), 1000)
  const AT_1002 := Observation(Pulse(Some(1_000_000), 3_000_000), 1002)
  const AT_1003 := Observation(Pulse(Some(1_000_000), 4_000_000), 1003)

  /** The sentence for second 1000, whose edge is at 1 s, is parsed 1.5 s late. */
  const LATE_SENTENCE := [AT_1001, LATE, AT_1002, AT_1003]

  const EDGES: seq<u64> := [1_000_000, 2_000_000, 3_000_000, 4_000_000]

  lemma FourEdges()
    ensures Pps.Reported(EDGES) == [Pps.First(1_000_000), Pps.Delta(1_000_000, 2_000_000),
                                    Pps.Delta(1_000_000, 3_000_000), Pps.Delta(1_000_000, 4_000_000)]
  {
    assert EDGES[..3] == [1_000_000, 2_000_000, 3_000_000] && EDGES[..3][..2] == [1_000_000, 2_000_000];
    assert EDGES[..3][..2][..1] == [1_000_000] && EDGES[..3][..2][..1][..0] == [];
    assert Pps.Reported([1_000_000]) == [Pps.First(1_000_000)];
    assert Pps.Reported(EDGES[..3][..2]) == [Pps.First(1_000_000), Pps.Delta(1_000_000, 2_000_000)];
  }

  lemma PulsesOfLateSentence(es: seq<Event>)
    requires |es| == 6 && es[1].Pulse? && es[2].Pulse? && es[4].Pulse? && es[5].Pulse?
    requires !es[0].Pulse? && !es[3].Pulse?
    ensures Pulses(es) == [es[1], es[2], es[4], es[5]]
  {
    assert Pulses(es[4..]) == [es[4], es[5]] by {
      assert es[4..][1..] == es[5..] && es[5..][1..] == [];
      assert Pulses(es[5..]) == [es[5]];
    }
    assert es[3..][1..] == es[4..] && es[2..][1..] == es[3..] && es[1..][1..] == es[2..];
    assert Pulses(es[3..]) == [es[4], es[5]];
    assert Pulses(es[2..]) == [es[2], es[4], es[5]];
    assert Pulses(es[1..]) == [es[1], es[2], es[4], es[5]];
  }

  const ALL_EVENTS := [Nmea(999, 500_000), Pulse(None, 1_000_000),
                       AT_1001.event, LATE.event, AT_1002.event, AT_1003.event]

  lemma RunIsFed(m: Pps.Machine)
    requires m.events == Pps.Reported(EDGES)
    ensures Fed(ALL_EVENTS, m)
  {
    PulsesOfLateSentence(ALL_EVENTS);
    FourEdges();
    hide Pulses;
  }

  lemma EventsInOrder()
    ensures LOCKED_ON + Events(LATE_SENTENCE) == ALL_EVENTS
  {
    assert LATE_SENTENCE[1..] == [LATE, AT_1002, AT_1003] && [LATE, AT_1002, AT_1003][1..] == [AT_1002, AT_1003];
    assert [AT_1002, AT_1003][1..] == [AT_1003] && [AT_1003][1..] == [];
    assert Events([AT_1003]) == [AT_1003.event];
    assert Events([AT_1002, AT_1003]) == [AT_1002.event, AT_1003.event];
  }

  lemma LateSentenceIsCaptured()
    requires Run(Fresh(1), LOCKED_ON).ppsLocked
    ensures Captured(Run(Fresh(1), LOCKED_ON), LATE_SENTENCE)
  {
    var actions, m := Pps.AllReported(EDGES);
    RunIsFed(m);
    EventsInOrder();
    hide Pps.Reaches, Fed, Run;
  }

  /** A clock on the mark of second `s` in a perfect world, one second before the pulse `o`. */
  ghost predicate OneSecondBefore(c: Clock, s: int, o: Observation) {
    && c.ppsLocked && c.freqPpm == 0.0
    && o.event.Pulse? && o.event == Pulse(Some(1_000_000), o.event.edgeUs) && o.second == s + 1
    && 0 <= s <= 2_000 && 0 <= o.event.edgeUs <= 10_000_000
    && c.anchor == Some(Anchor(s, o.event.edgeUs - 1_000_000)) && c.lastPpsUs == Some(o.event.edgeUs - 1_000_000)
  }

  const PERFECT := World(0.0, 0.0)

  lemma PerfectPulse(c: Clock, s: int, o: Observation)
    requires OneSecondBefore(c, s, o)
    ensures Accepts(c, o.event) && Timely(c, s, PERFECT, o)
    ensures var c' := Step(c, o.event);
            && c'.ppsLocked && c'.freqPpm == 0.0 && c'.lastPpsUs == Some(o.event.edgeUs)
            && c'.lastGpsUtc == c.lastGpsUtc && c'.lastGpsUpdateUs == c.lastGpsUpdateUs && c'.fudge == c.fudge
            && (c.pendingStep.None? ==>
                  && c'.anchor == Some(Anchor(o.second, o.event.edgeUs))
                  && c'.pendingStep == Pending(Mispairing(c, o)))
  {
    assert UpdatedFreq(0.0, 0) == 0.0;
    assert Nudge(0) == 0;
    assert ElapsedSeconds(0.0, 1_000_000) == 1;
  }

  lemma LockedOnState()
    ensures Run(Fresh(1), LOCKED_ON) == LockAnchor(UpdateGps(Fresh(1), 999, 500_000), 1000, 1_000_000)
  {
    assert LOCKED_ON[1..][1..] == [];
  }

  /** What the run needs of a clock: its record of the latest sentence, and the step it has pending. */
  ghost predicate Knows(c: Clock, utc: int, parsedUs: int, pending: Option<int>) {
    c.fudge == 1 && c.lastGpsUtc == Some(utc) && c.lastGpsUpdateUs == Some(parsedUs) && c.pendingStep == pending
  }

  lemma LockedOn(c: Clock)
    requires c == LockAnchor(UpdateGps(Fresh(1), 999, 500_000), 1000, 1_000_000)
    ensures Knows(c, 999, 500_000, None) && OneSecondBefore(c, 1000, AT_1001)
  {
  }

  /** One pulse on the mark, whose pairing misses by `mis`. */
  lemma OnMarkPaired(c: Clock, s: int, o: Observation, utc: int, parsedUs: int, mis: int)
    requires OneSecondBefore(c, s, o) && Knows(c, utc, parsedUs, None)
    requires 0 <= utc <= 2_000 && 0 <= o.event.edgeUs - parsedUs < GPS_STALE_THRESHOLD_US
    requires mis == utc + (o.event.edgeUs - parsedUs) / MICROS_PER_SEC + 1 - o.second
    ensures Accepts(c, o.event) && Timely(c, s, PERFECT, o) && Mispairing(c, o) == mis
    ensures var c' := Step(c, o.event);
            && Knows(c', utc, parsedUs, Pending(mis)) && c'.ppsLocked && c'.freqPpm == 0.0
            && c'.anchor == Some(Anchor(o.second, o.event.edgeUs)) && c'.lastPpsUs == Some(o.event.edgeUs)
  {
    PerfectPulse(c, s, o);
    hide Step, Timely, OneSecondBefore;
  }

  lemma LastPulseRepeats(c: Clock)
    requires Knows(c, 1000, 2_500_000, Some(-1)) && OneSecondBefore(c, 1002, AT_1003)
    ensures InTime(c, Some(1002), [AT_1003]) && !NoRepeatedMispairing(c, -1, [AT_1003])
  {
    PerfectPulse(c, 1002, AT_1003);
    hide Step, Timely, OneSecondBefore;
    assert Mispairing(c, AT_1003) == -1;
    assert [AT_1003][1..] == [];
  }

  lemma AfterLateSentence(c1: Clock, c2: Clock, c3: Clock)
    requires c2 == Step(c1, LATE.event) && c3 == Step(c2, AT_1002.event) && Accepts(c2, AT_1002.event)
    requires Timely(c2, 1001, PERFECT, AT_1002) && Mispairing(c2, AT_1002) == -1
    requires InTime(c3, Some(1002), [AT_1003]) && !NoRepeatedMispairing(c3, -1, [AT_1003])
    ensures InTime(c1, Some(1001), [LATE, AT_1002, AT_1003])
    ensures !NoRepeatedMispairing(c1, 0, [LATE, AT_1002, AT_1003])
  {
    hide Step, Timely, Mispairing;
    assert [LATE, AT_1002, AT_1003][1..] == [AT_1002, AT_1003] && [AT_1002, AT_1003][1..] == [AT_1003];
    assert InTime(c2, Some(1001), [AT_1002, AT_1003]);
    assert !NoRepeatedMispairing(c2, 0, [AT_1002, AT_1003]);
  }

  lemma FromLockOn(c: Clock, c1: Clock)
    requires c1 == Step(c, AT_1001.event) && Accepts(c, AT_1001.event)
    requires Timely(c, 1000, PERFECT, AT_1001) && Mispairing(c, AT_1001) == 0
    requires InTime(c1, Some(1001), [LATE, AT_1002, AT_1003])
    requires !NoRepeatedMispairing(c1, 0, [LATE, AT_1002, AT_1003])
    ensures InTime(c, Some(1000), LATE_SENTENCE)
    ensures !NoRepeatedMispairing(c, 0, LATE_SENTENCE)
  {
    hide Step, Timely, Mispairing;
    assert LATE_SENTENCE[1..] == [LATE, AT_1002, AT_1003];
  }

  lemma LateArrives(c1: Clock)
    requires Knows(c1, 999, 500_000, None) && c1.ppsLocked && c1.freqPpm == 0.0
    requires c1.anchor == Some(Anchor(1001, 2_000_000)) && c1.lastPpsUs == Some(2_000_000)
    ensures Knows(Step(c1, LATE.event), 1000, 2_500_000, None)
    ensures OneSecondBefore(Step(c1, LATE.event), 1001, AT_1002)
  {
  }

  lemma ThirdSecond(c: Clock)
    requires c.ppsLocked && c.freqPpm == 0.0
    requires c.anchor == Some(Anchor(1002, 3_000_000)) && c.lastPpsUs == Some(3_000_000)
    ensures OneSecondBefore(c, 1002, AT_1003)
  {
  }

  /** Second 1001 is paired right; after the late sentence, 1002 and 1003 are both paired one low. */
  lemma LateSentenceRepeats(c: Clock)
    requires c == LockAnchor(UpdateGps(Fresh(1), 999, 500_000), 1000, 1_000_000)
    ensures InTime(c, Some(1000), LATE_SENTENCE)
    ensures !NoRepeatedMispairing(c, 0, LATE_SENTENCE)
  {
    LockedOn(c);
    hide Step, Timely, Mispairing, Accepts, InTime, NoRepeatedMispairing, OneSecondBefore, Knows;
    hide Pack, LockAnchor, UpdateGps;
    OnMarkPaired(c, 1000, AT_1001, 999, 500_000, 0);
    var c1 := Step(c, AT_1001.event);
    LateArrives(c1);
    var c2 := Step(c1, LATE.event);
    OnMarkPaired(c2, 1001, AT_1002, 1000, 2_500_000, -1);
    var c3 := Step(c2, AT_1002.event);
    ThirdSecond(c3);
    LastPulseRepeats(c3);
    AfterLateSentence(c1, c2, c3);
    FromLockOn(c, c1);
  }

  /**
   A late sentence costs a second when the next two do not come.  A clock locked
   on the mark of second 1000 loses nothing until a sentence is parsed 1.5 s after
   its edge; then two pulses in a row are paired one low, and the second of them, marking second 1003, is
   not given it.  The run is captured and in time with a perfect world.
   */
  lemma LateSentenceCostsASecond()
    ensures var c := Run(Fresh(1), LOCKED_ON);
            && Captured(c, LATE_SENTENCE) && InTime(c, Some(1000), LATE_SENTENCE)
            && c.anchor == Some(Anchor(1000, 1_000_000)) && c.pendingStep == Pending(0)
            && !EveryPulseTrue(c, 0, LATE_SENTENCE)
  {
    LockedOnState();
    LateSentenceIsCaptured();
    var c := Run(Fresh(1), LOCKED_ON);
    LateSentenceRepeats(c);
    EveryPulseTrueExactly(c, 1000, 0, LATE_SENTENCE);
  }
}
