/**
 The main theorems over what the server can really see: runs from boot whose
 pulses come from the pulse capture, in the order it reported them, with any
 other inputs between them.
 */
module CapturedRuns {
  import opened Wrappers
  import opened Numbers
  import opened Discipline
  import opened Runs
  import opened Labelling
  import opened Servo
  import opened PulseFeed
  import Pps

  lemma {:induction false} EventAt(os: seq<Observation>, k: nat)
    ensures |Events(os)| == |os|
    ensures k < |os| ==> Events(os)[k] == os[k].event
    decreases |os|
  {
    if os != [] {
      EventAt(os[1..], if k > 0 then k - 1 else 0);
    }
  }

  /** After lock, the capture gives every pulse an interval. */
  lemma MeasuredOnceLocked(
      fudge: Fudge, actions: seq<Pps.Action>, m: Pps.Machine, pre: seq<Event>, os: seq<Observation>)
    requires Pps.Reaches(actions, m) && Fed(pre + Events(os), m)
    requires Run(Fresh(fudge), pre).ppsLocked
    ensures Measured(os)
  {
    forall k | 0 <= k < |os| && os[k].event.Pulse?
      ensures os[k].event.interval.Some?
    {
      EventAt(os, k);
      var es := pre + Events(os);
      assert es[..|pre| + k] == pre + Events(os)[..k];
      RunAppend(Fresh(fudge), pre, Events(os)[..k]);
      LockIsForEver(Run(Fresh(fudge), pre), Events(os)[..k]);
      IntervalOnceLocked(fudge, actions, m, es, |pre| + k);
    }
  }

  /**
   `c` is a locked state reached from boot and `os` a continuation of that run,
   all of whose pulses, before and after, are the capture's events in order.
   */
  ghost predicate Captured(c: Clock, os: seq<Observation>) {
    exists fudge: Fudge, pre: seq<Event>, actions: seq<Pps.Action>, m: Pps.Machine ::
      && c == Run(Fresh(fudge), pre) && c.ppsLocked
      && Pps.Reaches(actions, m) && Fed(pre + Events(os), m)
  }

  lemma CapturedIsMeasured(c: Clock, os: seq<Observation>)
    requires Captured(c, os)
    ensures Inv(c) && Measured(os)
  {
    var fudge: Fudge, pre, actions, m :|
      && c == Run(Fresh(fudge), pre) && c.ppsLocked
      && Pps.Reaches(actions, m) && Fed(pre + Events(os), m);
    ReachableInv(fudge, pre);
    MeasuredOnceLocked(fudge, actions, m, pre, os);
  }

  /**
   Whole-run second labelling.  Once the anchor is true, over any captured run
   that keeps time with the world, every accepted pulse is given its true second
   if and only if no two consecutive accepted pulses see the same wrong GPS
   pairing, whatever pulses are missed, coalesced or rejected.
   */
  lemma EveryPulseTrueExactly(c: Clock, s: int, mis: int, os: seq<Observation>)
    requires Captured(c, os) && InTime(c, Some(s), os)
    requires c.anchor.Some? && c.anchor.value.unixSeconds == s && c.pendingStep == Pending(mis)
    ensures EveryPulseTrue(c, 0, os) <==> NoRepeatedMispairing(c, mis, os)
  {
    CapturedIsMeasured(c, os);
    LabelsFollowPairing(c, s, mis, os);
  }

  /** Gaps of up to 470 s between accepted pulses, each at a modest rate of its own, never cost a second. */
  lemma GapsUpTo470SecondsKeepTheSecond(c: Clock, s: int, mis: int, os: seq<Observation>)
    requires Captured(c, os) && Calm(c, s, os)
    requires c.anchor.Some? && c.anchor.value.unixSeconds == s && c.pendingStep == Pending(mis)
    ensures EveryPulseTrue(c, 0, os) <==> NoRepeatedMispairing(c, mis, os)
  {
    CapturedIsMeasured(c, os);
    CalmRunInTime(c, s, os);
    LabelsFollowPairing(c, s, mis, os);
  }

  /** A clock that locks onto a correctly paired edge starts from a true anchor with nothing pending. */
  lemma TrueFromLockOn(c: Clock, o: Observation, os: seq<Observation>)
    requires Locks(c, o.event) && Mispairing(c, o) == 0
    requires Captured(Step(c, o.event), os) && InTime(Step(c, o.event), Some(o.second), os)
    ensures Step(c, o.event).anchor.Some? && Step(c, o.event).anchor.value.unixSeconds == o.second
    ensures EveryPulseTrue(Step(c, o.event), 0, os) <==> NoRepeatedMispairing(Step(c, o.event), 0, os)
  {
    EveryPulseTrueExactly(Step(c, o.event), o.second, 0, os);
  }

  /**
   Repair within two pulses.  From any locked state, however wrong its anchor
   and whatever step is pending, once two consecutive accepted pulses are
   correctly paired the second carries the true second, and every later one does
   too if and only if no two consecutive ones see the same wrong pairing.
   */
  lemma RepairedWithinTwoPulses(c: Clock, os: seq<Observation>)
    requires Captured(c, os) && InTime(c, None, os) && PairedFor(c, 2, os)
    requires c.anchor.Some? && Instant(c.anchor.value.unixSeconds)
    ensures EveryPulseTrue(c, 1, os) <==> NoRepeatedMispairing(c, 0, os)
  {
    CapturedIsMeasured(c, os);
    RepairFollowsPairing(c, os);
  }

  /**
   When one accepted pulse follows another, with no pulse between them and less
   than 2^32 us apart, re-anchoring without a step moves the disciplined time
   read at the edge by less than 71 ms.
   */
  lemma ConsecutiveJumpUnder71Ms(
      fudge: Fudge, actions: seq<Pps.Action>, m: Pps.Machine, es: seq<Event>, h: nat, i: nat)
    requires Pps.Reaches(actions, m) && Fed(es, m)
    requires NextPulse(es, h, i) && es[i].edgeUs - es[h].edgeUs < Pps.MODULUS
    requires Accepts(Run(Fresh(fudge), es[..h]), es[h])
    requires var c := Run(Fresh(fudge), es[..i]);
             && Accepts(c, es[i]) && !Confirms(c, PhaseError(es[i].interval.value), es[i].edgeUs)
             && Overrun(c, es[i]) == 0
    ensures Abs(Jump(Run(Fresh(fudge), es[..i]), es[i])) < 71_000
  {
    ReachableInv(fudge, es[..i]);
    FoundByTheNext(fudge, es, h, i);
    IntervalIsTheGap(actions, m, es, h, i);
    JumpAfterOneSecond(Run(Fresh(fudge), es[..i]), es[i]);
  }
}
