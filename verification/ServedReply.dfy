/** What the bytes of a served time reply tell the client, over whole runs from boot. */
module ServedReply {
  import opened Wrappers
  import opened Numbers
  import opened Discipline
  import opened Runs
  import opened Effects
  import opened Labelling
  import opened ServedTime
  import opened Holdover
  import opened Timestamps
  import opened Schedule
  import opened Packets
  import opened Server

  /** The reply to a time request from a client that is not limited. */
  ghost function Served(c: Clock, req: Packet, gpsFix: bool, r: Readings): Packet
    requires AsksForTime(req)
  {
    TimeReplyReadsBack(req, MomentOf(c, gpsFix, r, false));
    Reply(req, MomentOf(c, gpsFix, r, false)).value
  }

  lemma FieldsServed(c: Clock, req: Packet, gpsFix: bool, r: Readings)
    requires AsksForTime(req)
    ensures var p := ParamsAt(c, gpsFix, r.paramsUs);
            var b := Served(c, req, gpsFix, r);
            && |b| == 48 && b[0] / 64 == p.leap % 4 && b[1] == (if p.stratum >= 16 then 0 else p.stratum)
            && FromBytes(b[8..12]) == p.rootDispShort
            && b[12..16] == (if p.stratum == 1 then [0x47, 0x50, 0x53, 0] else [0x49, 0x4E, 0x49, 0x54])
            && FromBytes(b[16..24]) == (if p.stratum == 1 then p.refTs else 0)
            && FromBytes(b[32..40]) == CurrentTimestamp(c, r.receiveUs, r.receiveWall)
            && FromBytes(b[40..48]) == CurrentTimestamp(c, r.transmitUs, r.transmitWall)
  {
    hide ParamsAt, CurrentTimestamp, Reply;
    TimeReplyReadsBack(req, MomentOf(c, gpsFix, r, false));
  }

  /** The last pulse that locked the clock or was accepted is younger than 2008 s. */
  ghost predicate Young(fudge: Fudge, es: seq<Event>, nowUs: i64) {
    var last := LastGoodEdge(Fresh(fudge), es);
    last.Some? && nowUs - last.value < 2_008_000_000
  }

  lemma ParamsFromBoot(fudge: Fudge, es: seq<Event>, gpsFix: bool, nowUs: i64)
    ensures var p := ParamsAt(Run(Fresh(fudge), es), gpsFix, nowUs);
            p.stratum == (if Young(fudge, es, nowUs) then 1 else 16)
            && p.leap == (if Young(fudge, es, nowUs) then LastAnnounced(es) else 3)
  {
    HoldoverLaw(fudge, es, gpsFix, nowUs);
  }

  lemma {:induction false} AnnouncedIsSmall(es: seq<Event>)
    ensures LastAnnounced(es) <= 2
  {
    if es != [] {
      AnnouncedIsSmall(es[..|es| - 1]);
    }
  }

  /**
   The quality a client reads, over every run from boot, with or without a fix:
   stratum 1, "GPS" and the announced leap while the last good edge is younger
   than 2008 s; stratum 0, "INIT" and the alarm otherwise.
   */
  lemma QualityServed(fudge: Fudge, es: seq<Event>, req: Packet, gpsFix: bool, r: Readings)
    requires AsksForTime(req)
    ensures var b := Served(Run(Fresh(fudge), es), req, gpsFix, r);
            && |b| == 48
            && (if Young(fudge, es, r.paramsUs)
                then b[0] / 64 == LastAnnounced(es) && b[1] == 1 && b[12..16] == [0x47, 0x50, 0x53, 0]
                else b[0] / 64 == 3 && b[1] == 0 && b[12..16] == [0x49, 0x4E, 0x49, 0x54])
  {
    hide Served, ParamsAt, CurrentTimestamp, Young, LastAnnounced;
    FieldsServed(Run(Fresh(fudge), es), req, gpsFix, r);
    ParamsFromBoot(fudge, es, gpsFix, r.paramsUs);
    AnnouncedIsSmall(es);
  }

  lemma DispersionField(c: Clock, req: Packet, gpsFix: bool, r: Readings)
    requires AsksForTime(req)
    ensures var b := Served(c, req, gpsFix, r);
            |b| == 48 && FromBytes(b[8..12]) == ParamsAt(c, gpsFix, r.paramsUs).rootDispShort
  {
    hide Served, ParamsAt, CurrentTimestamp, FromBytes;
    FieldsServed(c, req, gpsFix, r);
  }

  lemma TimeFields(c: Clock, req: Packet, gpsFix: bool, r: Readings)
    requires AsksForTime(req)
    ensures var b := Served(c, req, gpsFix, r);
            && |b| == 48
            && FromBytes(b[32..40]) == CurrentTimestamp(c, r.receiveUs, r.receiveWall)
            && FromBytes(b[40..48]) == CurrentTimestamp(c, r.transmitUs, r.transmitWall)
  {
    hide Served, ParamsAt, CurrentTimestamp, FromBytes;
    FieldsServed(c, req, gpsFix, r);
  }

  lemma DispersionFromBoot(fudge: Fudge, es: seq<Event>, gpsFix: bool, nowUs: i64)
    requires 0 <= PpsAge(Run(Fresh(fudge), es), nowUs)
    ensures var c := Run(Fresh(fudge), es);
            var due := if c.ppsLocked && c.lastPpsUs.Some? then DueDispersion(c, gpsFix, nowUs - c.lastPpsUs.value)
                       else 2_000_000;
            0 <= due * 65_536 - ParamsAt(c, gpsFix, nowUs).rootDispShort * 1_000_000 < 1_000_000
  {
    ReachableInv(fudge, es);
    DispersionExactly(Run(Fresh(fudge), es), gpsFix, nowUs);
    hide ParamsAt, DueDispersion, PpsAge;
    ShortFormatFits(fudge, es, gpsFix, nowUs);
  }

  /** The root dispersion a client reads is the one due, in 2^-16 s units, rounded down. */
  lemma DispersionServed(fudge: Fudge, es: seq<Event>, req: Packet, gpsFix: bool, r: Readings)
    requires AsksForTime(req) && 0 <= PpsAge(Run(Fresh(fudge), es), r.paramsUs)
    ensures var c := Run(Fresh(fudge), es);
            var b := Served(c, req, gpsFix, r);
            var due := if c.ppsLocked && c.lastPpsUs.Some? then DueDispersion(c, gpsFix, r.paramsUs - c.lastPpsUs.value)
                       else 2_000_000;
            && |b| == 48
            && 0 <= due * 65_536 - FromBytes(b[8..12]) * 1_000_000 < 1_000_000
  {
    hide Served, ParamsAt, DueDispersion, FromBytes, PpsAge, Run;
    DispersionField(Run(Fresh(fudge), es), req, gpsFix, r);
    DispersionFromBoot(fudge, es, gpsFix, r.paramsUs);
  }

  /** The reference field at stratum 1 is the anchor second, with no fraction; otherwise it is empty. */
  lemma ReferenceServed(fudge: Fudge, es: seq<Event>, req: Packet, gpsFix: bool, r: Readings)
    requires AsksForTime(req)
    ensures var c := Run(Fresh(fudge), es);
            var b := Served(c, req, gpsFix, r);
            && |b| == 48
            && var t := FromBytes(b[16..24]);
               if Young(fudge, es, r.paramsUs) then
                 c.anchor.Some? && t % 0x1_0000_0000 == 0
                 && t / 0x1_0000_0000 == (Max(0, c.anchor.value.unixSeconds) + 2_208_988_800) % 0x1_0000_0000
               else t == 0
  {
    var c := Run(Fresh(fudge), es);
    hide Served, ParamsAt, CurrentTimestamp, Young, FromBytes, Pack, Run, Inv;
    ReachableInv(fudge, es);
    FieldsServed(c, req, gpsFix, r);
    ParamsFromBoot(fudge, es, gpsFix, r.paramsUs);
    if Young(fudge, es, r.paramsUs) {
      ReferenceIsAnchor(c, gpsFix, r.paramsUs);
      PackedHalves(c.anchor.value.unixSeconds, 0);
    }
  }

  // --- The time itself ---

  /** Before there is any anchor the system clock is served, at stratum 0 and with the alarm raised. */
  lemma SystemTimeServed(fudge: Fudge, es: seq<Event>, req: Packet, gpsFix: bool, r: Readings)
    requires AsksForTime(req) && Run(Fresh(fudge), es).anchor.None?
    ensures var b := Served(Run(Fresh(fudge), es), req, gpsFix, r);
            && |b| == 48 && b[0] / 64 == 3 && b[1] == 0
            && FromBytes(b[32..40]) == r.receiveWall && FromBytes(b[40..48]) == r.transmitWall
  {
    var c := Run(Fresh(fudge), es);
    ReachableInv(fudge, es);
    assert ParamsAt(c, gpsFix, r.paramsUs).stratum == 16 && ParamsAt(c, gpsFix, r.paramsUs).leap == 3;
    hide Served, ParamsAt, FromBytes, Inv, Run;
    FieldsServed(c, req, gpsFix, r);
  }

  /** The time on the wire, read in its own era, is the disciplined time, less than a microsecond early. */
  lemma WireTime(c: Clock, nowUs: i64, wall: u64)
    requires Inv(c) && c.anchor.Some? && 0 <= c.anchor.value.unixSeconds
    ensures -1.0 < NtpUs(CurrentTimestamp(c, nowUs, wall), Era(SecondAt(c, nowUs))) - ServedUs(c, nowUs) as real <= 0.0
  {
    ClockMonotone(c, nowUs, nowUs);
    var t := TimeAt(c.anchor.value, c.freqPpm, nowUs);
    hide TimeAt, Pack, NtpUs, Era;
    PackReadsBack(t.0, t.1);
  }

  /** How far a timestamp on the wire, read in the era of the clock, is from UTC `n` seconds after the anchor second. */
  ghost function WireError(c: Clock, ts: u64, nowUs: i64, n: real): real
    requires c.anchor.Some?
  {
    RAbs(NtpUs(ts, Era(SecondAt(c, nowUs))) - (c.anchor.value.unixSeconds as real + n) * 1_000_000.0)
  }

  lemma WireErrorBounded(c: Clock, w: World, nowUs: i64, wall: u64, n: real, bound: real)
    requires Inv(c) && c.anchor.Some? && 0 <= c.anchor.value.unixSeconds
    requires RAbs(ServedUs(c, nowUs) as real - (c.anchor.value.unixSeconds as real + n) * 1_000_000.0) <= bound
    ensures WireError(c, CurrentTimestamp(c, nowUs, wall), nowUs, n) <= bound + 1.0
  {
    hide ServedUs, NtpUs, CurrentTimestamp, Era, SecondAt, Inv;
    WireTime(c, nowUs, wall);
  }

  /** Locked, with `nowUs` `n` true seconds after the last good edge, and no more than 470. */
  ghost predicate Asked(sky: Sky, c: Clock, nowUs: i64, n: real) {
    && c.ppsLocked && c.anchor.Some? && c.lastPpsUs.Some? && Instant(nowUs) && n <= 470.0
    && After(c.lastPpsUs.value, nowUs, n, sky.WorldFrom(c.anchor.value.unixSeconds))
  }

  lemma WireFromBoot(sky: Sky, fudge: Fudge, os: seq<Observation>, nowUs: i64, wall: u64, n: real)
    requires Regular(sky) && Scheduled(sky, fudge, BOOT, os) && Asked(sky, Run(Fresh(fudge), Events(os)), nowUs, n)
    ensures var c := Run(Fresh(fudge), Events(os));
            WireError(c, CurrentTimestamp(c, nowUs, wall), nowUs, n)
            <= ErrorBound(c, n, sky.WorldFrom(c.anchor.value.unixSeconds)) + 1.0 < 500_001.0
  {
    var c := Run(Fresh(fudge), Events(os));
    var w := sky.WorldFrom(c.anchor.value.unixSeconds);
    ReachableInv(fudge, Events(os));
    ServedTimeFromBoot(sky, fudge, os, nowUs, n);
    AnchorSecondIsPositive(sky, fudge, os);
    hide WireError, ErrorBound, ServedUs, CurrentTimestamp, Regular, Scheduled, Inv, After, Run;
    WireErrorBounded(c, w, nowUs, wall, n, ErrorBound(c, n, w));
  }

  /**
   The time a client reads.  From boot, on schedule, once the clock is locked, the
   receive and transmit fields of a served reply are each within the drift bound
   and two microseconds of UTC at the moments they were taken, and so within half
   a second, up to 470 s after the last good edge.
   */
  lemma TimeServed(sky: Sky, fudge: Fudge, os: seq<Observation>, req: Packet, gpsFix: bool, r: Readings,
                   rx: real, tx: real)
    requires Regular(sky) && Scheduled(sky, fudge, BOOT, os) && AsksForTime(req)
    requires Asked(sky, Run(Fresh(fudge), Events(os)), r.receiveUs, rx)
    requires Asked(sky, Run(Fresh(fudge), Events(os)), r.transmitUs, tx)
    ensures var c := Run(Fresh(fudge), Events(os));
            var b := Served(c, req, gpsFix, r);
            var w := sky.WorldFrom(c.anchor.value.unixSeconds);
            && |b| == 48
            && FromBytes(b[32..40]) <= 0xFFFF_FFFF_FFFF_FFFF && FromBytes(b[40..48]) <= 0xFFFF_FFFF_FFFF_FFFF
            && WireError(c, FromBytes(b[32..40]), r.receiveUs, rx) <= ErrorBound(c, rx, w) + 1.0 < 500_001.0
            && WireError(c, FromBytes(b[40..48]), r.transmitUs, tx) <= ErrorBound(c, tx, w) + 1.0 < 500_001.0
  {
    assert Run(Fresh(fudge), Events(os)).anchor.Some?;
    hide Served, WireError, ErrorBound, CurrentTimestamp, Regular, Scheduled, FromBytes, Asked, Run, Events;
    TimeFields(Run(Fresh(fudge), Events(os)), req, gpsFix, r);
    WireFromBoot(sky, fudge, os, r.receiveUs, r.receiveWall, rx);
    WireFromBoot(sky, fudge, os, r.transmitUs, r.transmitWall, tx);
  }

  lemma AnchorSecondIsPositive(sky: Sky, fudge: Fudge, os: seq<Observation>)
    requires Regular(sky) && Scheduled(sky, fudge, BOOT, os) && Run(Fresh(fudge), Events(os)).ppsLocked
    ensures Run(Fresh(fudge), Events(os)).anchor.Some? && 0 <= Run(Fresh(fudge), Events(os)).anchor.value.unixSeconds
  {
    TrueOnSchedule(sky, Fresh(fudge), BOOT, os);
  }
}
