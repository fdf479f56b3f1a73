/**
 A run on schedule in which the main loop stalls once: a sentence is parsed after
 the next edge has already fired, and one pulse is paired one second low.
 */
module StalledLoop {
  import opened Wrappers
  import opened Numbers
  import opened Discipline
  import opened Counting
  import opened Labelling
  import opened Schedule

  /** An oscillator whose rate changes by 2 ppm at second 20 000, for good. */
  const WANDERING := Sky(
    s => s * MICROS_PER_SEC + 2 * Max(0, s - 20_000),
    s => if s >= 20_000 then 2.0 else 0.0,
    1_000.0)

  lemma WanderingIsRegular()
    ensures Regular(WANDERING)
  {
    forall s: int, s': int | Second(s) && Second(s') && s <= s' <= s + MAX_GAP
      ensures Spans(WANDERING.edgeAt(s') - WANDERING.edgeAt(s), s' - s, WANDERING.rateFrom(s), WANDERING.jitterUs)
    {
      var us := WANDERING.edgeAt(s') - WANDERING.edgeAt(s);
      if s >= 20_000 {
        assert us == (s' - s) * 1_000_002;
      } else {
        assert 0 <= us - (s' - s) * 1_000_000 <= 940;
      }
    }
  }

  const SENTENCE_1000 := Observation(Nmea(1000, 1_000_500_000), 1000)
  const FIRST_1001 := Observation(Pulse(None, 1_001_000_000), 1001)
  /** Parsed 200 ms after the edge of second 1002, before the pulse of that edge is handled. */
  const LATE_1001 := Observation(Nmea(1001, 1_002_200_000), 1001)
  const AT_1002 := Observation(Pulse(Some(1_000_000), 1_002_000_000), 1002)
  const SENTENCE_1002 := Observation(Nmea(1002, 1_002_500_000), 1002)
  const AT_1003 := Observation(Pulse(Some(1_000_000), 1_003_000_000), 1003)

  const STALL := [SENTENCE_1000, FIRST_1001, LATE_1001, AT_1002, SENTENCE_1002, AT_1003]

  const T1 := Watch(Some(1_000_500_000), true, false, false, None, -1)
  const T2 := Watch(Some(1_000_500_000), true, true, false, Some(1001), 1001)
  const T3 := Watch(Some(1_002_200_000), false, true, false, Some(1001), 1001)
  const T4 := Watch(Some(1_002_200_000), false, true, true, Some(1002), 1002)
  const T5 := Watch(Some(1_002_500_000), true, true, true, Some(1002), 1002)

  lemma StallFits()
    ensures Fits(WANDERING, BOOT, SENTENCE_1000) && Next(WANDERING, 1, BOOT, SENTENCE_1000) == T1
    ensures Fits(WANDERING, T1, FIRST_1001) && Next(WANDERING, 1, T1, FIRST_1001) == T2
    ensures Fits(WANDERING, T2, LATE_1001) && Next(WANDERING, 1, T2, LATE_1001) == T3
    ensures Fits(WANDERING, T3, AT_1002) && Next(WANDERING, 1, T3, AT_1002) == T4
    ensures Fits(WANDERING, T4, SENTENCE_1002) && Next(WANDERING, 1, T4, SENTENCE_1002) == T5
    ensures Fits(WANDERING, T5, AT_1003)
  {
  }

  lemma Tails()
    ensures STALL[1..] == [FIRST_1001, LATE_1001, AT_1002, SENTENCE_1002, AT_1003]
    ensures [FIRST_1001, LATE_1001, AT_1002, SENTENCE_1002, AT_1003][1..]
         == [LATE_1001, AT_1002, SENTENCE_1002, AT_1003]
    ensures [LATE_1001, AT_1002, SENTENCE_1002, AT_1003][1..] == [AT_1002, SENTENCE_1002, AT_1003]
    ensures [AT_1002, SENTENCE_1002, AT_1003][1..] == [SENTENCE_1002, AT_1003]
    ensures [SENTENCE_1002, AT_1003][1..] == [AT_1003] && [AT_1003][1..] == []
  {
  }

  lemma StallIsScheduled()
    ensures Scheduled(WANDERING, 1, BOOT, STALL)
  {
    StallFits();
    Tails();
    hide Fits, Next;
    assert Scheduled(WANDERING, 1, T5, [AT_1003]);
    assert Scheduled(WANDERING, 1, T4, [SENTENCE_1002, AT_1003]);
    assert Scheduled(WANDERING, 1, T3, [AT_1002, SENTENCE_1002, AT_1003]);
    assert Scheduled(WANDERING, 1, T2, [LATE_1001, AT_1002, SENTENCE_1002, AT_1003]);
    assert Scheduled(WANDERING, 1, T1, [FIRST_1001, LATE_1001, AT_1002, SENTENCE_1002, AT_1003]);
  }

  /** The clock before the pulse of second 1002. */
  lemma BeforeTheLowPulse()
    ensures Run(Fresh(1), [SENTENCE_1000.event, FIRST_1001.event, LATE_1001.event])
         == UpdateGps(LockAnchor(UpdateGps(Fresh(1), 1000, 1_000_500_000), 1001, 1_001_000_000), 1001, 1_002_200_000)
  {
    var (e1, e2, e3) := (SENTENCE_1000.event, FIRST_1001.event, LATE_1001.event);
    assert [e1, e2, e3][1..] == [e2, e3] && [e2, e3][1..] == [e3] && [e3][1..] == [];
    hide Pack;
    var c := UpdateGps(Fresh(1), 1000, 1_000_500_000);
    assert Step(Fresh(1), e1) == c;
    var c' := LockAnchor(c, 1001, 1_001_000_000);
    assert Step(c, e2) == c';
    assert Run(c', [e3]) == Step(c', e3);
    assert Run(c, [e2, e3]) == Run(c', [e3]);
  }

  /**
   The conditions can be met, by a wandering oscillator and a run from boot whose
   third sentence mispairs an accepted pulse; that pulse, like every other, still
   carries its true second.
   */
  lemma StallIsAbsorbed()
    ensures Regular(WANDERING) && Scheduled(WANDERING, 1, BOOT, STALL)
    ensures var c := Run(Fresh(1), [SENTENCE_1000.event, FIRST_1001.event, LATE_1001.event]);
            Accepts(c, AT_1002.event) && Mispairing(c, AT_1002) == -1
    ensures GoodPulsesTrue(Fresh(1), STALL)
  {
    WanderingIsRegular();
    StallIsScheduled();
    BeforeTheLowPulse();
    SecondsTrueFromBoot(WANDERING, 1, STALL);
    hide Regular, Scheduled, GoodPulsesTrue, Run, Pack;
  }
}
