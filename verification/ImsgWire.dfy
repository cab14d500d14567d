/** The bytes of an imsg: a 16-byte header followed by the payload. */
module ImsgWire {
  import opened ByteOrder

  const IMSG_HEADER_SIZE: nat := 16
  const MAX_IMSGSIZE: nat := 16384
  const IBUF_READ_SIZE: nat := 65535
  const IMSGF_HASFD: nat := 1

  /** struct imsg_hdr. */
  datatype Header = Header(typ: u32, len: u16, flags: u16, peerid: u32, pid: u32)

  /** A descriptor, or -1. */
  type Fd = int

  /** A message as composed and as returned by imsg_get; fd is -1 if none travels with it. */
  datatype Msg = Msg(typ: u32, peerid: u32, pid: u32, data: seq<byte>, fd: Fd)

  function PutHeader(h: Header): (b: seq<byte>)
    ensures |b| == IMSG_HEADER_SIZE
  {
    PutU32(h.typ) + PutU16(h.len) + PutU16(h.flags) + PutU32(h.peerid) + PutU32(h.pid)
  }

  function GetHeader(b: seq<byte>): Header
    requires |b| >= IMSG_HEADER_SIZE
  {
    Header(GetU32(b[..4]), GetU16(b[4..6]), GetU16(b[6..8]), GetU32(b[8..12]), GetU32(b[12..16]))
  }

  /** The layout of struct imsg_hdr. */
  lemma HeaderLayout(h: Header)
    ensures var b := PutHeader(h);
            && b[..4] == PutU32(h.typ) && b[4..6] == PutU16(h.len) && b[6..8] == PutU16(h.flags)
            && b[8..12] == PutU32(h.peerid) && b[12..] == PutU32(h.pid)
  {
    hide PutU16, PutU32;
  }

  lemma HeaderRoundTrip(h: Header, rest: seq<byte>)
    ensures GetHeader(PutHeader(h) + rest) == h
  {
    hide PutU16, PutU32, GetU16, GetU32;
    U32RoundTrip(h.typ);
    U16RoundTrip(h.len);
    U16RoundTrip(h.flags);
    U32RoundTrip(h.peerid);
    U32RoundTrip(h.pid);
    var b := PutHeader(h) + rest;
    assert b[..4] == PutU32(h.typ);
    assert b[4..6] == PutU16(h.len);
    assert b[6..8] == PutU16(h.flags);
    assert b[8..12] == PutU32(h.peerid);
    assert b[12..16] == PutU32(h.pid);
  }

  /** A message that fits: what imsg_compose accepts. */
  predicate Fits(m: Msg) { |m.data| <= MAX_IMSGSIZE - IMSG_HEADER_SIZE }

  function HeaderOf(m: Msg): Header
    requires Fits(m)
  {
    Header(m.typ, IMSG_HEADER_SIZE + |m.data|, if m.fd == -1 then 0 else IMSGF_HASFD, m.peerid, m.pid)
  }

  /** The bytes queued for m. */
  function Encode(m: Msg): (b: seq<byte>)
    requires Fits(m)
    ensures |b| == IMSG_HEADER_SIZE + |m.data|
  {
    PutHeader(HeaderOf(m)) + m.data
  }

  /** What imsg_get finds at the front of the receive buffer. */
  datatype Parse =
    | Incomplete                                  // returns 0
    | Malformed                                   // returns -1
    | Frame(hdr: Header, data: seq<byte>)         // a whole message

  function ParseFront(r: seq<byte>): (p: Parse)
    ensures p.Frame? ==> IMSG_HEADER_SIZE <= p.hdr.len <= |r| && |p.data| == p.hdr.len - IMSG_HEADER_SIZE
  {
    if IMSG_HEADER_SIZE > |r| then Incomplete else
    var hdr := GetHeader(r);
    if hdr.len < IMSG_HEADER_SIZE || hdr.len > MAX_IMSGSIZE then Malformed else
    if hdr.len > |r| then Incomplete else
    Frame(hdr, r[IMSG_HEADER_SIZE..hdr.len])
  }

  predicate HasFd(h: Header) { h.flags % 2 == IMSGF_HASFD }

  /** The message imsg_get returns from buffer r and descriptor queue fds. */
  function FrontMsg(r: seq<byte>, fds: seq<Fd>): Msg
    requires ParseFront(r).Frame?
  {
    var p := ParseFront(r);
    Msg(p.hdr.typ, p.hdr.peerid, p.hdr.pid, p.data, if HasFd(p.hdr) && fds != [] then fds[0] else -1)
  }

  function FdsLeft(r: seq<byte>, fds: seq<Fd>): seq<Fd>
    requires ParseFront(r).Frame?
  {
    if HasFd(ParseFront(r).hdr) && fds != [] then fds[1..] else fds
  }

  /** Any prefix of an encoded message followed by anything parses as that message, or as incomplete. */
  lemma ParseEncoded(m: Msg, r: seq<byte>, rest: seq<byte>)
    requires Fits(m) && r <= Encode(m) + rest
    ensures |r| < |Encode(m)| ==> ParseFront(r) == Incomplete
    ensures |r| >= |Encode(m)| ==> ParseFront(r) == Frame(HeaderOf(m), m.data)
  {
    hide GetHeader, PutHeader;
    if |r| >= IMSG_HEADER_SIZE {
      var h := HeaderOf(m);
      PrefixOf(r, PutHeader(h), m.data, rest);
      HeaderRoundTrip(h, r[16..]);
      if |r| >= |Encode(m)| {
        assert r[16..h.len] == r[16..][..|m.data|] == m.data;
      }
    }
  }

  lemma PrefixOf(r: seq<byte>, p: seq<byte>, data: seq<byte>, rest: seq<byte>)
    requires |p| <= |r| && r <= p + data + rest
    ensures r == p + r[|p|..] && r[|p|..] <= data + rest
    ensures |r| >= |p| + |data| ==> r[|p|..][..|data|] == data
  {
    var all := p + data + rest;
    assert all[..|p|] == p && all[|p|..] == data + rest;
    assert r == all[..|r|];
    assert r[..|p|] == p && r[|p|..] == all[|p|..][..|r| - |p|];
  }

  /** The bytes of a message on the wire: header fields at their places, then the data. */
  lemma EncodeBytes(m: Msg)
    requires Fits(m)
    ensures var b := Encode(m);
            && b[..4] == PutU32(m.typ) && b[8..12] == PutU32(m.peerid) && b[12..16] == PutU32(m.pid) && b[16..] == m.data
            && b[4] as int + 0x100 * b[5] as int == |b| == 16 + |m.data|
            && b[6] == (if m.fd == -1 then 0 else 1) && b[7] == 0
  {
    var h := HeaderOf(m);
    HeaderLayout(h);
    U16Bytes(h.len);
    U16Bytes(h.flags);
    hide PutU16, PutU32, PutHeader;
    var b, p := Encode(m), PutHeader(h);
    assert b[..4] == p[..4] && b[4..6] == p[4..6] && b[6..8] == p[6..8] && b[8..12] == p[8..12] && b[12..16] == p[12..];
    assert b[4] == b[4..6][0] && b[5] == b[4..6][1] && b[6] == b[6..8][0] && b[7] == b[6..8][1];
  }

  /** What imsg_get makes of any bytes whatever: too few, a length out of range, or a whole message. */
  lemma ParseExactly(r: seq<byte>)
    ensures |r| < 16 ==> ParseFront(r) == Incomplete
    ensures |r| >= 16 ==>
              var len := r[4] as int + 0x100 * r[5] as int;
              && (ParseFront(r).Malformed? <==> len < 16 || len > 16384)
              && (ParseFront(r).Incomplete? <==> 16 <= len <= 16384 && len > |r|)
              && (ParseFront(r).Frame? ==> ParseFront(r).hdr.len == len && ParseFront(r).data == r[16..len])
  {
    if |r| >= 16 {
      assert r[4..6][0] == r[4] && r[4..6][1] == r[5];
    }
  }

  /** The message returned: its fields read where EncodeBytes puts them, its descriptor the first received if bit 0 of the flags is set. */
  lemma FrontBytes(r: seq<byte>, fds: seq<Fd>)
    requires ParseFront(r).Frame?
    ensures |r| >= 16
    ensures var m := FrontMsg(r, fds);
            && m.typ == GetU32(r[..4]) && m.peerid == GetU32(r[8..12]) && m.pid == GetU32(r[12..16]) && m.data == ParseFront(r).data
            && m.fd == (if r[6] % 2 == 1 && fds != [] then fds[0] else -1)
            && FdsLeft(r, fds) == (if r[6] % 2 == 1 && fds != [] then fds[1..] else fds)
  {
    hide GetU32;
    assert r[6..8][0] == r[6];
  }
}
