/**
 Requests and replies as bytes: the dispatch of the poll loop, the three reply
 builders, and why two servers never answer each other's answers.
 */
module Packets {
  import opened Wrappers
  import opened Numbers
  import opened Holdover

  const NTP_PACKET_LEN := 48
  const CONTROL_HEADER_LEN := 12
  const MODE_SYMMETRIC_ACTIVE := 1
  const MODE_SYMMETRIC_PASSIVE := 2
  const MODE_CLIENT := 3
  const MODE_SERVER := 4
  const MODE_CONTROL := 6
  const MODE6_ASSOC_ID := 1
  const MODE6_ERR_BAD_OPCODE := 3
  const MODE6_ERR_BAD_ASSOC := 4

  type Packet = seq<u8>

  /** "RATE" */
  const KISS_RATE: Packet := [0x52, 0x41, 0x54, 0x45]

  // --- Big-endian fields ---

  function ToBytes(n: nat, v: nat): (s: Packet)
    ensures |s| == n
  {
    if n == 0 then [] else ToBytes(n - 1, v / 256) + [v % 256]
  }

  function FromBytes(s: Packet): nat {
    if s == [] then 0 else FromBytes(s[..|s| - 1]) * 256 + s[|s| - 1]
  }

  ghost function Capacity(n: nat): nat {
    if n == 0 then 1 else Capacity(n - 1) * 256
  }

  lemma {:induction false} BytesRoundTrip(n: nat, v: nat)
    requires v < Capacity(n)
    ensures FromBytes(ToBytes(n, v)) == v
  {
    if n > 0 {
      BytesRoundTrip(n - 1, v / 256);
      assert ToBytes(n, v)[..n - 1] == ToBytes(n - 1, v / 256);
    }
  }

  lemma Capacities()
    ensures Capacity(2) == 0x1_0000 && Capacity(4) == 0x1_0000_0000 && Capacity(8) == 0x1_0000_0000_0000_0000
  {
    assert Capacity(1) == 0x100 && Capacity(3) == 0x100_0000;
    assert Capacity(5) == 0x100_0000_0000 && Capacity(6) == 0x1_0000_0000_0000;
  }

  // --- Dispatch ---

  datatype Request = Ignored | Control | Time(replyMode: u8)

  function ModeOf(p: Packet): int
    requires p != []
  {
    p[0] % 8
  }

  function VersionOf(p: Packet): int
    requires p != []
  {
    p[0] / 8 % 8
  }

  /** The association identifier of a control packet. */
  function AssocOf(p: Packet): nat
    requires |p| >= CONTROL_HEADER_LEN
  {
    p[6] as int * 256 + p[7] as int
  }

  function Zeros(n: nat): Packet {
    seq(n, _ => 0)
  }

  /** What the poll loop takes a received packet for. */
  function Classify(p: Packet): Request {
    if p == [] then Ignored
    else if ModeOf(p) == MODE_CONTROL then
      if |p| < CONTROL_HEADER_LEN || p[1] >= 0x80 then Ignored else Control
    else if ModeOf(p) == MODE_CLIENT || ModeOf(p) == MODE_SYMMETRIC_ACTIVE then
      if |p| < NTP_PACKET_LEN then Ignored
      else Time(if ModeOf(p) == MODE_CLIENT then MODE_SERVER else MODE_SYMMETRIC_PASSIVE)
    else Ignored
  }

  // --- Reply builders ---

  function ReplyVersion(v: int): int {
    if 1 <= v <= 4 then v else 4
  }

  /** Leap, version and mode packed in one byte; the shift drops all but two leap bits. */
  function FirstByte(leap: nat, version: nat, mode: nat): u8
    requires version < 8
  {
    leap % 4 * 64 + version * 8 + mode % 8
  }

  /** The standard 48-byte reply before its transmit timestamp is written. */
  function Response(req: Packet, p: Params, precision: u8, receiveTs: u64, replyMode: u8): Packet
    requires |req| >= NTP_PACKET_LEN
  {
    [FirstByte(p.leap, ReplyVersion(VersionOf(req)), replyMode),
     if p.stratum >= STRATUM_UNSYNC then 0 else p.stratum,
     req[2],
     precision]
    + Zeros(4)
    + ToBytes(4, p.rootDispShort)
    + RefId(p)
    + ToBytes(8, if p.stratum == 1 then p.refTs else 0)
    + req[40..48]
    + ToBytes(8, receiveTs)
    + Zeros(8)
  }

  /** "GPS" followed by a zero byte while serving, "INIT" otherwise. */
  function RefId(p: Params): (id: Packet)
    ensures |id| == 4
  {
    if p.stratum == 1 then [0x47, 0x50, 0x53, 0] else [0x49, 0x4E, 0x49, 0x54]
  }

  function Stamped(resp: Packet, transmitTs: u64): Packet
    requires |resp| == NTP_PACKET_LEN
  {
    resp[..40] + ToBytes(8, transmitTs)
  }

  function KissOfDeath(req: Packet, replyMode: u8): Packet
    requires |req| >= NTP_PACKET_LEN
  {
    [FirstByte(3, ReplyVersion(VersionOf(req)), replyMode), 0] + Zeros(10)
    + KISS_RATE + Zeros(8) + req[40..48] + Zeros(16)
  }

  /** Payload and error of a control reply; `text` is the variable listing for this request. */
  function ControlBody(opcode: int, assoc: int, synced: bool, text: Packet): (Packet, Option<int>) {
    if opcode == 1 then
      if assoc == 0 then ([0, MODE6_ASSOC_ID] + ToBytes(2, PeerStatus(synced)), None)
      else if assoc != MODE6_ASSOC_ID then ([], Some(MODE6_ERR_BAD_ASSOC))
      else ([], None)
    else if opcode == 2 then
      if assoc == 0 || assoc == MODE6_ASSOC_ID then (text, None) else ([], Some(MODE6_ERR_BAD_ASSOC))
    else ([], Some(MODE6_ERR_BAD_OPCODE))
  }

  function PeerStatus(synced: bool): nat {
    if synced then 0xD200 else 0x1000
  }

  function ControlStatus(opcode: int, assoc: int, error: Option<int>, synced: bool, leap: nat): int {
    match error
    case Some(code) => code * 256
    case None =>
      if opcode == 1 && assoc != 0 then PeerStatus(synced)
      else leap % 4 * 0x4000 + (if synced then 0x400 else 0)
  }

  function ZeroPad(p: Packet): (r: Packet)
    ensures |r| % 4 == 0 && |p| <= |r| < |p| + 4 && r[..|p|] == p
    ensures forall i :: |p| <= i < |r| ==> r[i] == 0
  {
    p + Zeros((4 - |p| % 4) % 4)
  }

  function Mode6Header(req: Packet, leap: u8, synced: bool, payload: Packet, error: Option<int>): (h: Packet)
    requires |req| >= CONTROL_HEADER_LEN
    requires error.Some? ==> 0 <= error.value < 256
    ensures |h| == CONTROL_HEADER_LEN
  {
    var opcode := req[1] % 32;
    var status := ControlStatus(opcode, AssocOf(req), error, synced, leap);
    [ReplyVersion(VersionOf(req)) * 8 + MODE_CONTROL,
     0x80 + (if error.Some? then 0x40 else 0) + opcode,
     req[2], req[3]]
    + ToBytes(2, status)
    + [req[6], req[7], 0, 0]
    + ToBytes(2, Min(|payload|, 0xFFFF))
  }

  function Mode6Response(req: Packet, leap: u8, synced: bool, text: Packet): Packet
    requires |req| >= CONTROL_HEADER_LEN
  {
    var (payload, error) := ControlBody(req[1] % 32, AssocOf(req), synced, text);
    var header := Mode6Header(req, leap, synced, payload, error);
    if payload == [] then header else ZeroPad(header + payload[..Min(|payload|, 0xFFFF)])
  }

  // --- Answering a packet ---

  /** Everything but the packet that an answer depends on. */
  datatype Moment = Moment(
    params: Params,
    precision: u8,
    receiveTs: u64,
    transmitTs: u64,
    limited: bool,
    text: Packet)

  /** The packet sent back for a packet that passed the access list, if any. */
  function Reply(req: Packet, m: Moment): Option<Packet>
  {
    match Classify(req)
    case Ignored => None
    case Control =>
      if m.limited then None else Some(Mode6Response(req, m.params.leap, m.params.stratum == 1, m.text))
    case Time(mode) =>
      if m.limited then Some(KissOfDeath(req, mode))
      else Some(Stamped(Response(req, m.params, m.precision, m.receiveTs, mode), m.transmitTs))
  }

  /** Whatever the request and the state, no reply is itself taken for a request. */
  lemma RepliesAreNeverRequests(req: Packet, m: Moment)
    requires Reply(req, m).Some?
    ensures Classify(Reply(req, m).value) == Ignored
  {
    match Classify(req)
    case Control =>
      ControlReplyIgnored(req, m);
    case Time(mode) =>
      hide Mode6Response;
      if m.limited {
        assert KissOfDeath(req, mode)[0] == FirstByte(3, ReplyVersion(VersionOf(req)), mode);
        FirstByteReadsBack(3, ReplyVersion(VersionOf(req)), mode);
      } else {
        ReplyLayout(req, m.params, m.precision, m.receiveTs, m.transmitTs, mode);
        hide Response, Stamped;
        FirstByteReadsBack(m.params.leap, ReplyVersion(VersionOf(req)), mode);
      }
  }

  lemma ControlReplyIgnored(req: Packet, m: Moment)
    requires Classify(req).Control? && !m.limited
    ensures Classify(Reply(req, m).value) == Ignored
  {
    var synced := m.params.stratum == 1;
    var (payload, error) := ControlBody(req[1] % 32, AssocOf(req), synced, m.text);
    var header := Mode6Header(req, m.params.leap, synced, payload, error);
    var r := Mode6Response(req, m.params.leap, synced, m.text);
    assert r[0] == header[0] == ReplyVersion(VersionOf(req)) * 8 + MODE_CONTROL;
    assert r[1] == header[1] >= 0x80;
  }

  /** Packets bounced between servers: each is some server's reply to the one before. */
  ghost predicate Exchange(ps: seq<Packet>, ms: seq<Moment>) {
    && |ps| == |ms| + 1
    && (forall i :: 0 <= i < |ms| ==> Reply(ps[i], ms[i]) == Some(ps[i + 1]))
  }

  /** Whatever starts it, an exchange between servers ends with the first reply. */
  lemma ExchangesEnd(ps: seq<Packet>, ms: seq<Moment>)
    requires Exchange(ps, ms)
    ensures |ps| <= 2
  {
    if |ps| > 2 {
      assert Reply(ps[0], ms[0]) == Some(ps[0 + 1]);
      assert Reply(ps[1], ms[1]) == Some(ps[1 + 1]);
      RepliesAreNeverRequests(ps[0], ms[0]);
    }
  }

  lemma FieldsInPlace(a: Packet, b: Packet, c: Packet, d: Packet, e: Packet, f: Packet, g: Packet, h: Packet)
    requires |a| == |b| == |c| == |d| == 4 && |e| == |f| == |g| == |h| == 8
    ensures var r := a + b + c + d + e + f + g + h;
            && |r| == NTP_PACKET_LEN && r[..4] == a && r[4..8] == b && r[8..12] == c && r[12..16] == d
            && r[16..24] == e && r[24..32] == f && r[32..40] == g && r[40..48] == h
  {
  }

  /** Where the fields of a stamped reply are. */
  lemma ReplyLayout(req: Packet, p: Params, precision: u8, receiveTs: u64, transmitTs: u64, replyMode: u8)
    requires |req| >= NTP_PACKET_LEN
    ensures var r := Stamped(Response(req, p, precision, receiveTs, replyMode), transmitTs);
            && |r| == NTP_PACKET_LEN
            && r[..4] == [FirstByte(p.leap, ReplyVersion(VersionOf(req)), replyMode),
                          if p.stratum >= STRATUM_UNSYNC then 0 else p.stratum, req[2], precision]
            && r[4..8] == Zeros(4)
            && r[8..12] == ToBytes(4, p.rootDispShort)
            && r[12..16] == RefId(p)
            && r[16..24] == ToBytes(8, if p.stratum == 1 then p.refTs else 0)
            && r[24..32] == req[40..48]
            && r[32..40] == ToBytes(8, receiveTs)
            && r[40..48] == ToBytes(8, transmitTs)
  {
    var head := [FirstByte(p.leap, ReplyVersion(VersionOf(req)), replyMode),
                 if p.stratum >= STRATUM_UNSYNC then 0 else p.stratum, req[2], precision];
    var refTs := ToBytes(8, if p.stratum == 1 then p.refTs else 0);
    StampedFields(req, p, precision, receiveTs, transmitTs, replyMode, head);
    hide ToBytes, FirstByte, RefId, Response, Stamped;
    FieldsInPlace(head, Zeros(4), ToBytes(4, p.rootDispShort), RefId(p), refTs, req[40..48], ToBytes(8, receiveTs),
                  ToBytes(8, transmitTs));
  }

  /** The stamped reply as its fields in order. */
  lemma StampedFields(
      req: Packet, p: Params, precision: u8, receiveTs: u64, transmitTs: u64, replyMode: u8, head: Packet)
    requires |req| >= NTP_PACKET_LEN
    requires head == [FirstByte(p.leap, ReplyVersion(VersionOf(req)), replyMode),
                      if p.stratum >= STRATUM_UNSYNC then 0 else p.stratum, req[2], precision]
    ensures |Response(req, p, precision, receiveTs, replyMode)| == NTP_PACKET_LEN
    ensures Stamped(Response(req, p, precision, receiveTs, replyMode), transmitTs)
         == head + Zeros(4) + ToBytes(4, p.rootDispShort) + RefId(p)
            + ToBytes(8, if p.stratum == 1 then p.refTs else 0) + req[40..48] + ToBytes(8, receiveTs)
            + ToBytes(8, transmitTs)
  {
    hide ToBytes, FirstByte, RefId;
  }

  lemma FirstByteReadsBack(leap: nat, version: nat, mode: nat)
    requires 1 <= version <= 4 && mode < 8
    ensures var b := FirstByte(leap, version, mode); b / 64 == leap % 4 && b / 8 % 8 == version && b % 8 == mode
  {
    var (li, b) := (leap % 4, FirstByte(leap, version, mode));
    assert b == li * 64 + version * 8 + mode;
    assert b / 8 == li * 8 + version;
  }

  // --- What a reply says, read from the request's own bytes ---

  /** A client or symmetric-active packet long enough to be a time request. */
  ghost predicate AsksForTime(req: Packet) {
    |req| >= 48 && req[0] % 8 in {1, 3}
  }

  /** A control packet with a whole header and no response bit. */
  ghost predicate AsksForControl(req: Packet) {
    |req| >= 12 && req[0] % 8 == 6 && req[1] / 128 % 2 == 0
  }

  /** The dispatch takes exactly these for requests. */
  lemma ClassifiedExactly(req: Packet)
    ensures Classify(req).Time? <==> AsksForTime(req)
    ensures Classify(req).Control? <==> AsksForControl(req)
  {
  }

  /** A time request is always answered, a control request unless its client is limited, and nothing else ever. */
  lemma AnsweredExactly(req: Packet, m: Moment)
    ensures Reply(req, m).Some? <==> AsksForTime(req) || (AsksForControl(req) && !m.limited)
  {
    hide Response, KissOfDeath, Mode6Response;
  }

  /** A client is answered in server mode, a symmetric-active peer in symmetric-passive mode. */
  function AnswerMode(mode: int): int {
    if mode == 3 then 4 else if mode == 1 then 2 else 6
  }

  /** Versions 1 to 4 are mirrored; any other is answered as 4. */
  function AnswerVersion(version: int): int {
    if version in {1, 2, 3, 4} then version else 4
  }

  /** What the first byte of a time reply says, and where it comes from. */
  lemma FirstByteOfReply(req: Packet, leap: nat, replyMode: u8)
    requires AsksForTime(req) && Classify(req) == Time(replyMode)
    ensures var b := FirstByte(leap, ReplyVersion(VersionOf(req)), replyMode);
            && b / 64 == leap % 4
            && b / 8 % 8 == AnswerVersion(req[0] / 8 % 8)
            && b % 8 == AnswerMode(req[0] % 8)
  {
    FirstByteReadsBack(leap, ReplyVersion(VersionOf(req)), replyMode);
    hide FirstByte;
  }

  /** Every field of a time reply reads back as what was put in; the originate field echoes the request. */
  lemma TimeReplyReadsBack(req: Packet, m: Moment)
    requires AsksForTime(req) && !m.limited
    ensures Reply(req, m).Some?
    ensures var r := Reply(req, m).value;
            && |r| == 48
            && r[0] % 8 == AnswerMode(req[0] % 8)
            && r[0] / 8 % 8 == AnswerVersion(req[0] / 8 % 8)
            && r[0] / 64 == m.params.leap % 4
            && r[1] == (if m.params.stratum >= 16 then 0 else m.params.stratum)
            && r[2] == req[2] && r[3] == m.precision
            && r[4..8] == [0, 0, 0, 0]
            && FromBytes(r[8..12]) == m.params.rootDispShort
            && r[12..16] == (if m.params.stratum == 1 then [0x47, 0x50, 0x53, 0] else [0x49, 0x4E, 0x49, 0x54])
            && FromBytes(r[16..24]) == (if m.params.stratum == 1 then m.params.refTs else 0)
            && r[24..32] == req[40..48]
            && FromBytes(r[32..40]) == m.receiveTs
            && FromBytes(r[40..48]) == m.transmitTs
  {
    var p := m.params;
    var mode := Classify(req).replyMode;
    ReplyLayout(req, p, m.precision, m.receiveTs, m.transmitTs, mode);
    FirstByteOfReply(req, p.leap, mode);
    hide Response, Stamped, ToBytes, FromBytes, FirstByte;
    assert Zeros(4) == [0, 0, 0, 0];
    ShortReadsBack(p.rootDispShort);
    TimestampReadsBack(if p.stratum == 1 then p.refTs else 0);
    TimestampReadsBack(m.receiveTs);
    TimestampReadsBack(m.transmitTs);
    var r := Reply(req, m).value;
    assert r[..4][0] == r[0] && r[..4][1] == r[1] && r[..4][2] == r[2] && r[..4][3] == r[3];
  }

  lemma ShortReadsBack(v: u32)
    ensures FromBytes(ToBytes(4, v)) == v
  {
    Capacities();
    BytesRoundTrip(4, v);
  }

  lemma TimestampReadsBack(v: u64)
    ensures FromBytes(ToBytes(8, v)) == v
  {
    Capacities();
    BytesRoundTrip(8, v);
  }

  /** A kiss-o'-death raises the alarm with stratum zero, names its reason, and echoes the request's stamp. */
  lemma KissReadsBack(req: Packet, m: Moment)
    requires AsksForTime(req) && m.limited
    ensures Reply(req, m).Some?
    ensures var r := Reply(req, m).value;
            && |r| == 48
            && r[0] % 8 == AnswerMode(req[0] % 8)
            && r[0] / 8 % 8 == AnswerVersion(req[0] / 8 % 8)
            && r[0] / 64 == 3 && r[1] == 0
            && r[12..16] == [0x52, 0x41, 0x54, 0x45] && r[24..32] == req[40..48]
            && (forall i :: 1 <= i < 12 || 16 <= i < 24 || 32 <= i < 48 ==> r[i] == 0)
  {
    FirstByteOfReply(req, 3, Classify(req).replyMode);
    hide FirstByte;
  }

  lemma HeaderLayout(req: Packet, leap: u8, synced: bool, payload: Packet, error: Option<int>)
    requires |req| >= CONTROL_HEADER_LEN
    requires error.Some? ==> 0 <= error.value < 256
    ensures var h := Mode6Header(req, leap, synced, payload, error);
            && h[0] == ReplyVersion(VersionOf(req)) * 8 + MODE_CONTROL
            && h[1] == 0x80 + (if error.Some? then 0x40 else 0) + req[1] % 32
            && h[2..4] == req[2..4] && h[6..8] == req[6..8] && h[8] == h[9] == 0
            && h[4..6] == ToBytes(2, ControlStatus(req[1] % 32, AssocOf(req), error, synced, leap))
            && h[10..12] == ToBytes(2, Min(|payload|, 0xFFFF))
  {
    hide ToBytes, ControlStatus;
  }

  lemma StatusFits(opcode: int, assoc: int, error: Option<int>, synced: bool, leap: u8)
    requires error.Some? ==> 0 <= error.value < 256
    ensures 0 <= ControlStatus(opcode, assoc, error, synced, leap) < 0x1_0000
  {
  }

  lemma FlagsReadBack(opcode: nat, failed: bool)
    requires opcode < 32
    ensures var b := 0x80 + (if failed then 0x40 else 0) + opcode;
            b % 32 == opcode && (b / 64 % 2 == 1 <==> failed) && b / 128 == 1
  {
  }

  lemma HeaderReadsBack(req: Packet, leap: u8, synced: bool, payload: Packet, error: Option<int>)
    requires |req| >= CONTROL_HEADER_LEN
    requires error.Some? ==> 0 <= error.value < 256
    ensures var h := Mode6Header(req, leap, synced, payload, error);
            && h[1] % 32 == req[1] % 32
            && h[1] / 128 == 1 && (h[1] / 64 % 2 == 1 <==> error.Some?)
            && h[0] / 64 == 0 && h[0] / 8 % 8 == AnswerVersion(req[0] / 8 % 8) && h[0] % 8 == 6
            && FromBytes(h[4..6]) == ControlStatus(req[1] % 32, AssocOf(req), error, synced, leap)
            && FromBytes(h[10..12]) == Min(|payload|, 0xFFFF)
  {
    hide Mode6Header, ToBytes, FromBytes, ControlStatus, AssocOf;
    HeaderLayout(req, leap, synced, payload, error);
    StatusFits(req[1] % 32, AssocOf(req), error, synced, leap);
    FlagsReadBack(req[1] % 32, error.Some?);
    ControlByteReadsBack(ReplyVersion(VersionOf(req)));
    WordReadsBack(Min(|payload|, 0xFFFF));
    WordReadsBack(ControlStatus(req[1] % 32, AssocOf(req), error, synced, leap));
  }

  lemma ControlByteReadsBack(version: nat)
    requires 1 <= version <= 4
    ensures var b := version * 8 + MODE_CONTROL; b / 64 == 0 && b / 8 % 8 == version && b % 8 == 6
  {
  }

  lemma WordReadsBack(v: nat)
    requires v < 0x1_0000
    ensures FromBytes(ToBytes(2, v)) == v
  {
    Capacities();
    BytesRoundTrip(2, v);
  }

  /** Padding only adds behind; what is there keeps its place. */
  lemma PaddingKeepsFields(h: Packet, body: Packet, r: Packet)
    requires |h| == CONTROL_HEADER_LEN && r == if body == [] then h else ZeroPad(h + body)
    ensures |r| % 4 == 0 && CONTROL_HEADER_LEN + |body| <= |r| < CONTROL_HEADER_LEN + |body| + 4
    ensures r[..CONTROL_HEADER_LEN] == h
    ensures forall i :: CONTROL_HEADER_LEN + |body| <= i < |r| ==> r[i] == 0
    ensures r[CONTROL_HEADER_LEN..CONTROL_HEADER_LEN + |body|] == body
  {
    if body != [] {
      assert r[..|h + body|] == h + body;
      assert r[CONTROL_HEADER_LEN..CONTROL_HEADER_LEN + |body|] == r[..|h + body|][CONTROL_HEADER_LEN..];
      assert r[..CONTROL_HEADER_LEN] == r[..|h + body|][..CONTROL_HEADER_LEN];
    }
  }

  /** An unknown opcode, or an association other than the one there is. */
  ghost predicate Fails(opcode: int, assoc: int) {
    opcode !in {1, 2} || assoc > 1
  }

  /** The payload a control request is due. */
  ghost function DuePayload(opcode: int, assoc: int, synced: bool, text: Packet): Packet {
    if Fails(opcode, assoc) || (opcode == 1 && assoc == 1) then []
    else if opcode == 2 then text
    else if synced then [0, 1, 0xD2, 0] else [0, 1, 0x10, 0]
  }

  /** The status word it is due: an error code, the status of the one association, or the system's. */
  ghost function DueStatus(opcode: int, assoc: int, synced: bool, leap: nat): int {
    if opcode !in {1, 2} then 0x300
    else if assoc > 1 then 0x400
    else if opcode == 1 && assoc == 1 then (if synced then 0xD200 else 0x1000)
    else leap % 4 * 0x4000 + (if synced then 0x400 else 0)
  }

  lemma BodyIsDue(opcode: nat, assoc: nat, synced: bool, text: Packet, leap: nat)
    ensures var (payload, error) := ControlBody(opcode, assoc, synced, text);
            && payload == DuePayload(opcode, assoc, synced, text)
            && (error.Some? <==> Fails(opcode, assoc))
            && ControlStatus(opcode, assoc, error, synced, leap) == DueStatus(opcode, assoc, synced, leap)
  {
    if opcode == 1 && assoc == 0 {
      assert ToBytes(1, PeerStatus(synced) / 256) == [PeerStatus(synced) / 256];
      assert ToBytes(2, PeerStatus(synced)) == [PeerStatus(synced) / 256, 0];
    }
  }

  /**
   What a control reply says.  It echoes opcode, sequence and association, sets
   the error bit exactly when the request fails, carries the status and the payload
   that are due, counts the payload, and ends in zeros up to a 32-bit boundary.
   */
  lemma ControlReplyMeans(req: Packet, m: Moment)
    requires AsksForControl(req) && !m.limited
    ensures Reply(req, m).Some?
    ensures var r := Reply(req, m).value;
            var (opcode, assoc) := (req[1] % 32, 256 * req[6] as int + req[7] as int);
            var synced := m.params.stratum == 1;
            var payload := DuePayload(opcode, assoc, synced, m.text);
            var count := Min(|payload|, 65_535);
            && |r| % 4 == 0 && 12 + count <= |r| < 16 + count
            && r[0] / 64 == 0 && r[0] / 8 % 8 == AnswerVersion(req[0] / 8 % 8) && r[0] % 8 == 6
            && r[1] / 128 == 1 && (r[1] / 64 % 2 == 1 <==> Fails(opcode, assoc)) && r[1] % 32 == opcode
            && r[2..4] == req[2..4]
            && FromBytes(r[4..6]) == DueStatus(opcode, assoc, synced, m.params.leap)
            && r[6..8] == req[6..8] && r[8] == r[9] == 0
            && FromBytes(r[10..12]) == count
            && r[12..12 + count] == payload[..count]
            && (forall i :: 12 + count <= i < |r| ==> r[i] == 0)
  {
    var synced := m.params.stratum == 1;
    BodyIsDue(req[1] % 32, AssocOf(req), synced, m.text, m.params.leap);
    hide FromBytes, ControlBody, ControlStatus, DueStatus, DuePayload, Mode6Response;
    ControlFields(req, m.params.leap, synced, m.text);
  }

  /** The fields of a control reply, in terms of its body and its status. */
  lemma ControlFields(req: Packet, leap: u8, synced: bool, text: Packet)
    requires |req| >= CONTROL_HEADER_LEN
    ensures var r := Mode6Response(req, leap, synced, text);
            var (payload, error) := ControlBody(req[1] % 32, AssocOf(req), synced, text);
            var count := Min(|payload|, 65_535);
            && |r| % 4 == 0 && 12 + count <= |r| < 16 + count
            && r[0] / 64 == 0 && r[0] / 8 % 8 == AnswerVersion(req[0] / 8 % 8) && r[0] % 8 == 6
            && r[1] / 128 == 1 && (r[1] / 64 % 2 == 1 <==> error.Some?) && r[1] % 32 == req[1] % 32
            && r[2..4] == req[2..4]
            && FromBytes(r[4..6]) == ControlStatus(req[1] % 32, AssocOf(req), error, synced, leap)
            && r[6..8] == req[6..8] && r[8] == r[9] == 0
            && FromBytes(r[10..12]) == count
            && r[12..12 + count] == payload[..count]
            && (forall i :: 12 + count <= i < |r| ==> r[i] == 0)
  {
    var (payload, error) := ControlBody(req[1] % 32, AssocOf(req), synced, text);
    var header := Mode6Header(req, leap, synced, payload, error);
    var r := Mode6Response(req, leap, synced, text);
    hide Mode6Header, FromBytes, ToBytes, ZeroPad, ControlStatus, PeerStatus;
    HeaderReadsBack(req, leap, synced, payload, error);
    HeaderLayout(req, leap, synced, payload, error);
    PaddingKeepsFields(header, payload[..Min(|payload|, 0xFFFF)], r);
    SameFields(r, header);
  }

  lemma SameFields(r: Packet, h: Packet)
    requires |h| == CONTROL_HEADER_LEN <= |r| && r[..CONTROL_HEADER_LEN] == h
    ensures forall i :: 0 <= i < CONTROL_HEADER_LEN ==> r[i] == h[i]
    ensures r[2..4] == h[2..4] && r[4..6] == h[4..6] && r[6..8] == h[6..8] && r[10..12] == h[10..12]
  {
    assert forall i :: 0 <= i < CONTROL_HEADER_LEN ==> r[i] == r[..CONTROL_HEADER_LEN][i];
  }
}
