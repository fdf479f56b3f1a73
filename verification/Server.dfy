/**
 The server object.  Its methods update the fields step by step; each is proved
 to move the discipline state exactly as the functions of Discipline.dfy say,
 so everything proved about runs of those functions holds of this object.

 Readings of the monotonic clock, the system clock and received packets are
 parameters.
 */
module Server {
  import opened Wrappers
  import opened Numbers
  import opened Discipline
  import opened Runs
  import opened Holdover
  import opened Packets
  import opened ReplyBuffers
  import opened Timestamps
  import RateLimiting
  import AccessControl

  /** What the outside world supplies while one packet is handled. */
  datatype Readings = Readings(
    receiveUs: i64,
    receiveWall: u64,
    limitUs: i64,
    paramsUs: i64,
    transmitUs: i64,
    transmitWall: u64,
    precision: u8,
    text: Packet)

  function MomentOf(c: Clock, gpsFix: bool, r: Readings, limited: bool): Moment {
    Moment(
      ParamsAt(c, gpsFix, r.paramsUs),
      r.precision,
      CurrentTimestamp(c, r.receiveUs, r.receiveWall),
      CurrentTimestamp(c, r.transmitUs, r.transmitWall),
      limited,
      r.text)
  }

  lemma GpsIgnoresEstimate(c: Clock, freq: real, edgeUs: i64)
    ensures GpsSecondAtEdge(c.(freqPpm := freq), edgeUs) == GpsSecondAtEdge(c, edgeUs)
  {
  }

  /** The servo update in terms of the predicted second and the disagreement. */
  lemma ServoUpdateFrom(c: Clock, err: int, edgeUs: i64, predicted: int, delta: int, second: i64)
    requires c.anchor.Some? && predicted == Predicted(c, err, edgeUs) && delta == Disagreement(c, err, edgeUs)
    requires second == if delta != 0 && c.pendingStep == Some(delta) then predicted + delta else predicted
    ensures var confirms := delta != 0 && c.pendingStep == Some(delta);
            ServoUpdate(c, err, edgeUs)
            == c.(freqPpm := UpdatedFreq(c.freqPpm, err),
                  pendingStep := if delta == 0 || confirms then None else Some(delta),
                  stepCount := if confirms then SatInc(c.stepCount) else c.stepCount,
                  anchor := Some(Anchor(second, Sat(edgeUs - Nudge(err)))),
                  ppsOffsetUs := err,
                  ppsJitterUs := NextJitter(c, err),
                  ppsHasSample := true,
                  lastPpsUs := Some(edgeUs),
                  lastSyncTs := Pack(second, 0))
  {
    hide CorrectedElapsed, UpdatedFreq, Pack, Nudge, NextJitter, SatInc;
  }

  lemma NextJitterIgnoresRest(c: Clock, d: Clock, err: int)
    requires c.ppsHasSample == d.ppsHasSample && c.ppsJitterUs == d.ppsJitterUs
    ensures NextJitter(c, err) == NextJitter(d, err)
  {
  }

  class NtpServer {
    const fudge: Fudge
    var served: nat
    var anchor: Option<Anchor>
    var lastGpsUtc: Option<i64>
    var lastGpsUpdateUs: Option<i64>
    var ppsLocked: bool
    var ppsOffsetUs: int
    var ppsJitterUs: real
    var ppsHasSample: bool
    var freqPpm: real
    var lastPpsUs: Option<i64>
    var lastSyncTs: u64
    const limiter: RateLimiting.RateLimiter
    var acl: AccessControl.Acl
    var rateLimitedTotal: nat
    var aclBlockedTotal: nat
    var pendingLeap: u8
    var glitchCount: u32
    var stepCount: u32
    var pendingStep: Option<int>

    function State(): Clock
      reads this
    {
      Clock(fudge, anchor, lastGpsUtc, lastGpsUpdateUs, ppsLocked, ppsOffsetUs, ppsJitterUs, ppsHasSample, freqPpm,
            lastPpsUs, lastSyncTs, pendingLeap, glitchCount, stepCount, pendingStep)
    }

    ghost predicate Valid()
      reads this, acl, acl.entries
    {
      Inv(State()) && limiter.Valid() && acl.Valid()
    }

    constructor (fudge: Fudge, limiter: RateLimiting.RateLimiter, acl: AccessControl.Acl)
      requires limiter.Valid() && acl.Valid()
      ensures Valid() && State() == Fresh(fudge) && this.acl == acl && this.limiter == limiter
      ensures served == rateLimitedTotal == aclBlockedTotal == 0
    {
      this.fudge := fudge;
      served, rateLimitedTotal, aclBlockedTotal := 0, 0, 0;
      anchor, lastGpsUtc, lastGpsUpdateUs := None, None, None;
      ppsLocked, ppsOffsetUs, ppsJitterUs, ppsHasSample := false, 0, 0.0, false;
      freqPpm, lastPpsUs, lastSyncTs := 0.0, None, 0;
      this.limiter, this.acl := limiter, acl;
      pendingLeap, glitchCount, stepCount, pendingStep := 0, 0, 0, None;
    }

    method SetLeapIndicator(li: u8)
      requires Valid()
      modifies this`pendingLeap
      ensures Valid() && State() == Step(old(State()), SetLeap(li))
    {
      pendingLeap := Min(li, 2);
    }

    /** Seed coarse time from the RTC; an anchor that exists is left alone. */
    method SeedUtcSeconds(utc: i64, nowUs: i64)
      requires Valid()
      modifies this`anchor
      ensures Valid() && State() == Step(old(State()), Seed(utc, nowUs))
    {
      if ppsLocked || anchor.Some? {
        return;
      }
      anchor := Some(Anchor(utc, nowUs));
    }

    /** Record a GPS second; before PPS lock it also anchors the clock. */
    method UpdateGpsUtcSeconds(utc: i64, nowUs: i64)
      requires Valid()
      modifies this`lastGpsUtc, this`lastGpsUpdateUs, this`anchor
      ensures Valid() && State() == Step(old(State()), Nmea(utc, nowUs))
    {
      lastGpsUtc := Some(utc);
      lastGpsUpdateUs := Some(nowUs);
      if ppsLocked {
        return;
      }
      anchor := Some(Anchor(utc, nowUs));
    }

    method LockOnto(unixSeconds: i64, edgeUs: i64)
      modifies this`anchor, this`ppsLocked, this`pendingStep, this`lastPpsUs, this`lastSyncTs
      ensures State() == LockAnchor(old(State()), unixSeconds, edgeUs)
    {
      anchor := Some(Anchor(unixSeconds, edgeUs));
      ppsLocked := true;
      pendingStep := None;
      lastPpsUs := Some(edgeUs);
      lastSyncTs := Pack(unixSeconds, 0);
    }

    /** The second for an accepted edge: counted, cross-checked against GPS, stepped on confirmation. */
    method LabelEdge(a: Anchor, edgeUs: i64) returns (unixSeconds: i64, ghost predicted: i64)
      modifies this`pendingStep, this`stepCount
      ensures predicted == Sat(a.unixSeconds + ElapsedSeconds(freqPpm, Sat(edgeUs - a.monotonicUs)))
      ensures var delta := match GpsSecondAtEdge(old(State()), edgeUs) { case None => 0 case Some(g) => g - predicted };
              var confirms := delta != 0 && old(pendingStep) == Some(delta);
              && unixSeconds == (if confirms then predicted + delta else predicted)
              && pendingStep == (if delta == 0 || confirms then None else Some(delta))
              && stepCount == (if confirms then SatInc(old(stepCount)) else old(stepCount))
    {
      var rawElapsedUs := Sat(edgeUs - a.monotonicUs);
      var elapsedSecs := (CorrectedElapsed(freqPpm, rawElapsedUs) + MICROS_PER_SEC / 2) / MICROS_PER_SEC;
      var counted: i64 := Sat(a.unixSeconds + elapsedSecs);
      predicted := counted;
      unixSeconds := counted;
      var gps := GpsSecondAtEdge(State(), edgeUs);
      if gps.Some? && gps.value != counted {
        var delta := gps.value - counted;
        if pendingStep == Some(delta) {
          pendingStep := None;
          stepCount := SatInc(stepCount);
          unixSeconds := gps.value;
        } else {
          pendingStep := Some(delta);
        }
      } else {
        pendingStep := None;
      }
    }

    /** Re-anchor at the edge with the nudge, and update the diagnostics and the reference. */
    method Reanchor(phaseErrorUs: int, edgeUs: i64, unixSeconds: i64)
      modifies this`anchor, this`ppsOffsetUs, this`ppsJitterUs, this`ppsHasSample, this`lastPpsUs, this`lastSyncTs
      ensures State() == old(State()).(
                anchor := Some(Anchor(unixSeconds, Sat(edgeUs - Nudge(phaseErrorUs)))),
                ppsOffsetUs := phaseErrorUs,
                ppsJitterUs := NextJitter(old(State()), phaseErrorUs),
                ppsHasSample := true,
                lastPpsUs := Some(edgeUs),
                lastSyncTs := Pack(unixSeconds, 0))
    {
      hide Pack, Nudge, Sat, Abs;
      var sampleJitter := Abs(phaseErrorUs) as real;
      anchor := Some(Anchor(unixSeconds, Sat(edgeUs - Nudge(phaseErrorUs))));
      ppsOffsetUs := phaseErrorUs;
      if ppsHasSample {
        ppsJitterUs := ppsJitterUs * 0.8 + sampleJitter * 0.2;
      } else {
        ppsJitterUs := sampleJitter;
        ppsHasSample := true;
      }
      lastPpsUs := Some(edgeUs);
      lastSyncTs := Pack(unixSeconds, 0);
    }

    /** The servo update for a pulse that passed the filters, and the re-anchoring at its edge. */
    method RunServo(phaseErrorUs: int, edgeUs: i64)
      requires anchor.Some?
      modifies this
      ensures State() == ServoUpdate(old(State()), phaseErrorUs, edgeUs)
      ensures acl == old(acl) && served == old(served)
      ensures rateLimitedTotal == old(rateLimitedTotal) && aclBlockedTotal == old(aclBlockedTotal)
    {
      hide ServoUpdate, Sat, Abs, CorrectedElapsed, ElapsedSeconds, UpdatedFreq, Pack, Nudge, NextJitter;
      hide GpsSecondAtEdge, SatInc;
      ghost var was := State();
      GpsIgnoresEstimate(was, UpdatedFreq(freqPpm, phaseErrorUs), edgeUs);
      var a := anchor.value;
      freqPpm := UpdatedFreq(freqPpm, phaseErrorUs);
      ghost var predicted;
      var unixSeconds;
      unixSeconds, predicted := LabelEdge(a, edgeUs);
      ServoUpdateFrom(was, phaseErrorUs, edgeUs, predicted, Disagreement(was, phaseErrorUs, edgeUs), unixSeconds);
      NextJitterIgnoresRest(was, State(), phaseErrorUs);
      Reanchor(phaseErrorUs, edgeUs, unixSeconds);
    }

    /** Feed one pulse into the servo; no interval means the first pulse since boot. */
    method ObservePpsPulse(interval: Option<u32>, edgeUs: i64)
      requires Valid()
      modifies this
      ensures Valid() && State() == Step(old(State()), Pulse(interval, edgeUs))
      ensures acl == old(acl) && served == old(served)
      ensures rateLimitedTotal == old(rateLimitedTotal) && aclBlockedTotal == old(aclBlockedTotal)
    {
      StepKeepsInv(State(), Pulse(interval, edgeUs));
      hide Inv, ServoUpdate, LockAnchor, GpsSecondAtEdge, AccessControl.Acl.Valid;
      if interval.Some? && !(MIN_INTERVAL_US <= interval.value <= MAX_INTERVAL_US) {
        return;
      }
      if interval.None? || !ppsLocked || anchor.None? {
        var gps := GpsSecondAtEdge(State(), edgeUs);
        if gps.Some? {
          LockOnto(gps.value, edgeUs);
        }
        return;
      }
      var phaseErrorUs := interval.value - MICROS_PER_SEC;
      if ppsHasSample && Abs(phaseErrorUs) > PPS_OUTLIER_THRESHOLD_US {
        glitchCount := SatInc(glitchCount);
        return;
      }
      RunServo(phaseErrorUs, edgeUs);
    }

    /** The reply to an admitted request, filled in its buffer and stamped last. */
    method Answer(req: Packet, gpsFix: bool, receiveTs: u64, r: Readings) returns (reply: Packet)
      requires !Classify(req).Ignored?
      requires receiveTs == CurrentTimestamp(State(), r.receiveUs, r.receiveWall)
      ensures Reply(req, MomentOf(State(), gpsFix, r, false)) == Some(reply)
    {
      hide ParamsAt, CurrentTimestamp, Response, Mode6Response, ToBytes;
      var p := ParamsAt(State(), gpsFix, r.paramsUs);
      match Classify(req)
      case Control =>
        reply := BuildMode6Response(req, p.leap, p.stratum == 1, r.text);
      case Time(mode) =>
        var resp := BuildResponse(req, p, r.precision, receiveTs, mode);
        ghost var unstamped := resp[..];
        var transmitTs := CurrentTimestamp(State(), r.transmitUs, r.transmitWall);
        WriteBigEndian(resp, 40, 8, transmitTs);
        assert resp[..] == Stamped(unstamped, transmitTs);
        reply := resp[..];
    }

    /** The kiss-o'-death for a limited time request; limited control requests get nothing. */
    method Refuse(req: Packet) returns (reply: Option<Packet>)
      requires !Classify(req).Ignored?
      ensures forall m: Moment | m.limited :: Reply(req, m) == reply
    {
      hide KissOfDeath;
      match Classify(req)
      case Control =>
        reply := None;
      case Time(mode) =>
        var kiss := BuildKissOfDeath(req, mode);
        reply := Some(kiss[..]);
    }

    /**
     One packet through the poll loop.  The discipline state never changes; the
     reply is a function of the packet, the state, the limiter's answer and the
     clock readings.
     */
    method HandlePacket(req: Packet, src: Option<u32>, gpsFix: bool, r: Readings) returns (reply: Option<Packet>)
      requires Valid()
      modifies this, limiter.table
      ensures Valid() && State() == old(State()) && acl == old(acl)
      ensures var blocked := req != [] && src.Some?
                             && !old(AccessControl.Admits(acl.Contents(), acl.defaultAllow, src.value));
              var asks := !blocked && (AsksForTime(req) || AsksForControl(req));
              var check := RateLimiting.Checked(old(limiter.table[..]), src.GetOr(0), r.limitUs);
              var limited := asks && src.Some? && !check.0;
              && reply == (if asks then Reply(req, MomentOf(State(), gpsFix, r, limited)) else None)
              && limiter.table[..] == (if asks && src.Some? then check.1 else old(limiter.table[..]))
              && served == old(served) + (if asks && !limited then 1 else 0)
              && rateLimitedTotal == old(rateLimitedTotal) + (if limited then 1 else 0)
              && aclBlockedTotal == old(aclBlockedTotal) + (if blocked then 1 else 0)
    {
      ClassifiedExactly(req);
      hide Inv, ParamsAt, CurrentTimestamp, Reply, RateLimiting.Checked, Classify;
      reply := None;
      if req == [] {
        return;
      }
      var receiveTs := CurrentTimestamp(State(), r.receiveUs, r.receiveWall);
      if src.Some? {
        var allowed := acl.Allows(src.value);
        if !allowed {
          aclBlockedTotal := aclBlockedTotal + 1;
          return;
        }
      }
      if Classify(req).Ignored? {
        return;
      }
      var ok := true;
      if src.Some? {
        ok := limiter.Check(src.value, r.limitUs);
      }
      if ok {
        var answer := Answer(req, gpsFix, receiveTs, r);
        reply := Some(answer);
        served := served + 1;
      } else {
        reply := Refuse(req);
        rateLimitedTotal := rateLimitedTotal + 1;
      }
    }
  }

  /**
   The bytes of a served packet.  From every reachable state that serves stratum
   1, the reference, receive and transmit timestamps of a time reply read back in
   time order exactly when it is sent in the NTP era of the anchor.
   */
  lemma ServedPacketOrderExactly(fudge: Fudge, es: seq<Event>, req: Packet, gpsFix: bool, r: Readings)
    requires var c := Run(Fresh(fudge), es);
             && ParamsAt(c, gpsFix, r.paramsUs).stratum == 1 && r.receiveUs <= r.transmitUs
             && c.anchor.Some? && 0 <= c.anchor.value.unixSeconds <= 1_000_000_000_000
             && SecondAt(c, r.transmitUs) - c.anchor.value.unixSeconds < FRAC_SCALE - 1
    requires AsksForTime(req)
    ensures var c := Run(Fresh(fudge), es);
            var reply := Reply(req, MomentOf(c, gpsFix, r, false)).value;
            && |reply| == NTP_PACKET_LEN && reply[1] == 1
            && (FromBytes(reply[16..24]) <= FromBytes(reply[32..40]) <= FromBytes(reply[40..48])
                <==> Era(c.anchor.value.unixSeconds) == Era(SecondAt(c, r.transmitUs)))
  {
    var c := Run(Fresh(fudge), es);
    var m := MomentOf(c, gpsFix, r, false);
    TimeReplyReadsBack(req, m);
    PacketOrderExactlyWithinEra(fudge, es, gpsFix, r.receiveUs, r.paramsUs, r.transmitUs, r.receiveWall);
  }
}
