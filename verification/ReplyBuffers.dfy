/** The reply builders as the server runs them: byte buffers filled field by field. */
module ReplyBuffers {
  import opened Wrappers
  import opened Numbers
  import opened Holdover
  import opened Packets

  lemma ToBytesShifts(n: nat, v: nat, tail: Packet)
    ensures ToBytes(n + 1, v) + tail == ToBytes(n, v / 256) + ([v % 256] + tail)
  {
  }

  /** Write the low `n` bytes of `v`, most significant first. */
  method WriteBigEndian(buf: array<u8>, at: nat, n: nat, v: nat)
    requires at + n <= buf.Length
    modifies buf
    ensures buf[..] == old(buf[..at]) + ToBytes(n, v) + old(buf[at + n..])
  {
    var (i, x) := (n, v);
    ghost var done := [];
    while i > 0
      invariant 0 <= i <= n && |done| == n - i
      invariant ToBytes(i, x) + done == ToBytes(n, v)
      invariant buf[..at + i] == old(buf[..at + i])
      invariant buf[at + i..at + n] == done
      invariant buf[at + n..] == old(buf[at + n..])
    {
      ToBytesShifts(i - 1, x, done);
      var (high, low) := (x / 256, x % 256);
      buf[at + i - 1] := low;
      done := [low] + done;
      i, x := i - 1, high;
    }
    assert buf[..] == buf[..at] + buf[at..at + n] + buf[at + n..];
  }

  method CopyInto(buf: array<u8>, at: nat, src: Packet)
    requires at + |src| <= buf.Length
    modifies buf
    ensures buf[..] == old(buf[..at]) + src + old(buf[at + |src|..])
  {
    for i := 0 to |src|
      invariant buf[..at] == old(buf[..at])
      invariant buf[at..at + i] == src[..i]
      invariant buf[at + |src|..] == old(buf[at + |src|..])
    {
      buf[at + i] := src[i];
    }
    assert buf[..] == buf[..at] + buf[at..at + |src|] + buf[at + |src|..];
  }

  /** The buffer holds `done` and is still zero behind it. */
  ghost predicate Filled(buf: array<u8>, done: Packet)
    reads buf
  {
    |done| <= buf.Length && buf[..] == done + Zeros(buf.Length - |done|)
  }

  /** Copy the next field behind what is already there. */
  method PutField(buf: array<u8>, at: nat, ghost done: Packet, src: Packet)
    requires Filled(buf, done) && at == |done| && at + |src| <= buf.Length
    modifies buf
    ensures Filled(buf, done + src)
  {
    CopyInto(buf, at, src);
  }

  /** Encode the next field behind what is already there. */
  method PutNumber(buf: array<u8>, at: nat, ghost done: Packet, n: nat, v: nat)
    requires Filled(buf, done) && at == |done| && at + n <= buf.Length
    modifies buf
    ensures Filled(buf, done + ToBytes(n, v))
  {
    WriteBigEndian(buf, at, n, v);
  }

  lemma SkipZeros(buf: array<u8>, done: Packet, n: nat)
    requires Filled(buf, done) && |done| + n <= buf.Length
    ensures Filled(buf, done + Zeros(n))
  {
  }

  method BuildResponse(req: Packet, p: Params, precision: u8, receiveTs: u64, replyMode: u8) returns (resp: array<u8>)
    requires |req| >= NTP_PACKET_LEN
    ensures fresh(resp) && resp.Length == NTP_PACKET_LEN
    ensures resp[..] == Response(req, p, precision, receiveTs, replyMode)
  {
    resp := new u8[NTP_PACKET_LEN](_ => 0);
    resp[0] := FirstByte(p.leap, ReplyVersion(VersionOf(req)), replyMode);
    resp[1] := if p.stratum >= STRATUM_UNSYNC then 0 else p.stratum;
    resp[2] := req[2];
    resp[3] := precision;
    ghost var done := [resp[0], resp[1], resp[2], resp[3]];
    assert Filled(resp, done);
    SkipZeros(resp, done, 4);
    done := done + Zeros(4);
    hide ToBytes, FirstByte, RefId, Filled;
    PutNumber(resp, 8, done, 4, p.rootDispShort);
    done := done + ToBytes(4, p.rootDispShort);
    PutField(resp, 12, done, RefId(p));
    done := done + RefId(p);
    var refTs := if p.stratum == 1 then p.refTs else 0;
    PutNumber(resp, 16, done, 8, refTs);
    done := done + ToBytes(8, refTs);
    PutField(resp, 24, done, req[40..48]);
    done := done + req[40..48];
    PutNumber(resp, 32, done, 8, receiveTs);
    Finished(resp, done + ToBytes(8, receiveTs), 8);
  }

  lemma Finished(buf: array<u8>, done: Packet, left: nat)
    requires Filled(buf, done) && |done| + left == buf.Length
    ensures buf[..] == done + Zeros(left)
  {
  }

  method BuildKissOfDeath(req: Packet, replyMode: u8) returns (resp: array<u8>)
    requires |req| >= NTP_PACKET_LEN
    ensures fresh(resp) && resp.Length == NTP_PACKET_LEN
    ensures resp[..] == KissOfDeath(req, replyMode)
  {
    resp := new u8[NTP_PACKET_LEN](_ => 0);
    resp[0] := FirstByte(3, ReplyVersion(VersionOf(req)), replyMode);
    ghost var done := [resp[0], 0];
    assert Filled(resp, done);
    hide FirstByte, Filled;
    SkipZeros(resp, done, 10);
    done := done + Zeros(10);
    PutField(resp, 12, done, KISS_RATE);
    done := done + KISS_RATE;
    SkipZeros(resp, done, 8);
    done := done + Zeros(8);
    PutField(resp, 24, done, req[40..48]);
    Finished(resp, done + req[40..48], 16);
  }

  lemma AssocReadsBack(req: Packet)
    requires |req| >= CONTROL_HEADER_LEN
    ensures ToBytes(2, AssocOf(req)) == [req[6], req[7]]
  {
    assert ToBytes(1, req[6]) == [req[6]];
  }

  ghost function HeaderParts(first: Packet, status: nat, assoc: nat, count: nat): Packet {
    first + ToBytes(2, status) + ToBytes(2, assoc) + Zeros(2) + ToBytes(2, count)
  }

  /** The 12 header bytes, written in the order of the fields. */
  method FillControlHeader(first: Packet, status: nat, assoc: nat, count: nat) returns (header: array<u8>)
    requires |first| == 4
    ensures fresh(header) && header[..] == HeaderParts(first, status, assoc, count)
  {
    header := new u8[CONTROL_HEADER_LEN](_ => 0);
    assert Filled(header, []);
    ghost var done := [];
    hide ToBytes, Filled;
    PutField(header, 0, done, first);
    done := done + first;
    PutNumber(header, 4, done, 2, status);
    done := done + ToBytes(2, status);
    PutNumber(header, 6, done, 2, assoc);
    done := done + ToBytes(2, assoc);
    SkipZeros(header, done, 2);
    done := done + Zeros(2);
    PutNumber(header, 10, done, 2, count);
    Finished(header, done + ToBytes(2, count), 0);
    assert [] + first == first;
  }

  lemma HeaderFields(req: Packet, leap: u8, synced: bool, payload: Packet, error: Option<int>)
    requires |req| >= CONTROL_HEADER_LEN
    requires error.Some? ==> 0 <= error.value < 256
    ensures Mode6Header(req, leap, synced, payload, error)
         == HeaderParts([ReplyVersion(VersionOf(req)) * 8 + MODE_CONTROL,
                         0x80 + (if error.Some? then 0x40 else 0) + req[1] % 32, req[2], req[3]],
                        ControlStatus(req[1] % 32, AssocOf(req), error, synced, leap),
                        AssocOf(req), Min(|payload|, 0xFFFF))
  {
    AssocReadsBack(req);
    hide ToBytes, ControlStatus, AssocOf;
    assert [req[6], req[7], 0, 0] == [req[6], req[7]] + Zeros(2);
  }

  method BuildMode6Header(req: Packet, leap: u8, synced: bool, payload: Packet, error: Option<int>)
    returns (header: array<u8>)
    requires |req| >= CONTROL_HEADER_LEN
    requires error.Some? ==> 0 <= error.value < 256
    ensures fresh(header) && header[..] == Mode6Header(req, leap, synced, payload, error)
  {
    var opcode := req[1] % 32;
    var first := [ReplyVersion(VersionOf(req)) * 8 + MODE_CONTROL,
                  0x80 + (if error.Some? then 0x40 else 0) + opcode, req[2], req[3]];
    var status := ControlStatus(opcode, AssocOf(req), error, synced, leap);
    header := FillControlHeader(first, status, AssocOf(req), Min(|payload|, 0xFFFF));
    HeaderFields(req, leap, synced, payload, error);
    hide HeaderParts, Mode6Header;
  }

  /** The control reply grows at its end: header, payload, then zeros up to a 32-bit boundary. */
  method BuildMode6Response(req: Packet, leap: u8, synced: bool, text: Packet) returns (resp: Packet)
    requires |req| >= CONTROL_HEADER_LEN
    ensures resp == Mode6Response(req, leap, synced, text)
  {
    var (payload, error) := ControlBody(req[1] % 32, AssocOf(req), synced, text);
    var header := BuildMode6Header(req, leap, synced, payload, error);
    resp := header[..];
    if payload != [] {
      resp := resp + payload[..Min(|payload|, 0xFFFF)];
      ghost var unpadded := resp;
      while |resp| % 4 != 0
        invariant |unpadded| <= |resp| <= |unpadded| + (4 - |unpadded| % 4) % 4
        invariant resp == unpadded + Zeros(|resp| - |unpadded|)
        decreases (4 - |resp| % 4) % 4
      {
        resp := resp + [0];
      }
    }
  }
}
