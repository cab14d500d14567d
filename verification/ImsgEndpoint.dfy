/** imsg.c: one end of the socket pair. */
module ImsgEndpoint {
  import opened ByteOrder
  import opened ImsgWire
  import opened ImsgQueue
  import opened ImsgBuffer

  /** What recvmsg returns: an error, or bytes and one descriptor per control message. */
  datatype RecvResult = RecvError(again: bool) | Received(data: seq<byte>, fds: seq<Fd>)

  /** recvmsg stays within the space it is offered, and the descriptors it delivers are open. */
  predicate Possible(res: RecvResult, space: int) { res.Received? ==> |res.data| <= space && -1 !in res.fds }

  /** struct imsgbuf; wpos bytes of rbuf are received and not returned yet. */
  class Imsgbuf {
    const rbuf: array<byte>
    var wpos: nat
    var fds: seq<Fd>
    const w: Msgbuf
    const pid: u32

    ghost predicate Valid()
      reads this, w, w.bufs
    {
      rbuf.Length == IBUF_READ_SIZE && wpos <= IBUF_READ_SIZE && -1 !in fds && w.Valid()
    }

    ghost function Unread(): seq<byte>
      reads this, rbuf, w, w.bufs
      requires Valid()
    {
      rbuf[..wpos]
    }

    /** imsg_init. */
    constructor (pid: u32)
      ensures Valid() && Unread() == [] && fds == [] && w.Queue() == [] && this.pid == pid
    {
      rbuf := new byte[IBUF_READ_SIZE];
      w := new Msgbuf();
      wpos, fds := 0, [];
      this.pid := pid;
    }

    /** imsg_read; recvmsg is offered what is free of the buffer. */
    method Read(res: RecvResult) returns (n: int)
      requires Valid() && Possible(res, IBUF_READ_SIZE - wpos)
      modifies this, rbuf
      ensures Valid()
      ensures res.RecvError? ==> n == (if res.again then -2 else -1) && unchanged(this) && unchanged(rbuf)
      ensures res.Received? ==> n == |res.data| && Unread() == old(Unread()) + res.data && fds == old(fds) + res.fds
    {
      if res.RecvError? {
        return if res.again then -2 else -1;
      }
      forall i | 0 <= i < |res.data| {
        rbuf[wpos + i] := res.data[i];
      }
      assert rbuf[..wpos] == old(rbuf[..wpos]);
      assert rbuf[wpos..wpos + |res.data|] == res.data;
      wpos := wpos + |res.data|;
      fds := fds + res.fds;
      return |res.data|;
    }

    /** imsg_get_fd. */
    method GetFd() returns (fd: Fd)
      requires Valid()
      modifies this`fds
      ensures Valid()
      ensures fd == (if old(fds) == [] then -1 else old(fds)[0]) && fds == if old(fds) == [] then [] else old(fds)[1..]
    {
      if fds == [] {
        return -1;
      }
      fd := fds[0];
      fds := fds[1..];
    }

    /** imsg_clear: forgets and closes everything queued, and every descriptor received. */
    method Clear()
      requires Valid()
      modifies this`fds, w
      ensures Valid() && w.Queue() == [] && fds == [] && w.closed == old(w.closed) + QueueFds(old(w.Queue())) + old(fds)
    {
      hide QueueFds, AbsAll;
      w.Clear();
      var fd := GetFd();
      while fd != -1
        invariant Valid() && w.bufs == []
        invariant w.closed + FdOf(fd) + fds == old(w.closed) + QueueFds(old(w.Queue())) + old(fds) && (fd == -1 ==> fds == [])
        decreases |FdOf(fd) + fds|
      {
        w.closed := w.closed + [fd];
        fd := GetFd();
      }
    }

    /** Moves what follows the first len bytes to the front of the buffer. */
    method Compact(len: nat)
      requires Valid() && 0 < len <= wpos
      modifies this`wpos, rbuf
      ensures Valid() && Unread() == old(Unread())[len..]
    {
      var left := wpos - len;
      for i := 0 to left
        invariant forall j :: 0 <= j < i ==> rbuf[j] == old(rbuf[j + len])
        invariant forall j :: i <= j < rbuf.Length ==> rbuf[j] == old(rbuf[j])
      {
        rbuf[i] := rbuf[i + len];
      }
      wpos := left;
    }

    /** imsg_get. */
    method Get() returns (n: int, m: Msg)
      requires Valid()
      modifies this`wpos, this`fds, rbuf
      ensures Valid()
      ensures match ParseFront(old(Unread()))
              case Incomplete => n == 0 && unchanged(this) && unchanged(rbuf)
              case Malformed => n == -1 && unchanged(this) && unchanged(rbuf)
              case Frame(hdr, _) =>
                && n == hdr.len && m == FrontMsg(old(Unread()), old(fds))
                && Unread() == old(Unread())[n..] && fds == FdsLeft(old(Unread()), old(fds))
    {
      hide GetHeader;
      m := Msg(0, 0, 0, [], -1);
      var av := wpos;
      if IMSG_HEADER_SIZE > av {
        return 0, m;
      }
      assert rbuf[..16] == Unread()[..16] && GetHeader(Unread()[..16]) == GetHeader(Unread()) by { HeaderPrefix(Unread()); }
      var hdr := GetHeader(rbuf[..16]);
      if hdr.len < IMSG_HEADER_SIZE || hdr.len > MAX_IMSGSIZE {
        return -1, m;
      }
      if hdr.len > av {
        return 0, m;
      }
      var data := rbuf[16..hdr.len];
      assert data == Unread()[16..hdr.len];
      var fd := -1;
      if hdr.flags % 2 == IMSGF_HASFD {
        fd := GetFd();
      }
      Compact(hdr.len);
      return hdr.len, Msg(hdr.typ, hdr.peerid, hdr.pid, data, fd);
    }

    /** imsg_create: a buffer with a header whose length is not known yet; datalen wraps at 16 bits. */
    method Create(typ: u32, peerid: u32, pid0: u32, datalen0: u16) returns (wbuf: Ibuf?, ghost h: Header)
      ensures wbuf == null <==> (datalen0 + IMSG_HEADER_SIZE) % 0x1_0000 > MAX_IMSGSIZE
      ensures wbuf != null ==> fresh(wbuf) && Holds(wbuf, h, [])
      ensures h.typ == typ && h.peerid == peerid && h.flags == 0 && h.pid == if pid0 == 0 then pid else pid0
    {
      var datalen := (datalen0 + IMSG_HEADER_SIZE) % 0x1_0000;
      var junk: u16 := *;
      var hdr := Header(typ, junk, 0, peerid, if pid0 == 0 then pid else pid0);
      h := hdr;
      if datalen > MAX_IMSGSIZE {
        return null, h;
      }
      wbuf := new Ibuf.Open(datalen, seq(datalen, _ => 0));
      wbuf.max := MAX_IMSGSIZE;
      var ok := wbuf.Add(PutHeader(hdr));
      assert wbuf.buf[..wbuf.wpos] == PutHeader(hdr) + [];
    }

    /** imsg_add: appends data to a buffer that holds a header and some data. */
    method AddData(msg: Ibuf, data: seq<byte>, ghost h: Header, ghost before: seq<byte>) returns (ok: bool)
      requires Holds(msg, h, before)
      modifies msg
      ensures ok == (IMSG_HEADER_SIZE + |before| + |data| <= MAX_IMSGSIZE)
      ensures ok ==> Holds(msg, h, before + data)
    {
      if |data| == 0 {
        assert before + data == before;
        return true;
      }
      ok := msg.Add(data);
      assert PutHeader(h) + before + data == PutHeader(h) + (before + data);
    }

    /** imsg_close: writes flags and length into the header and queues the buffer. */
    method Close(msg: Ibuf, ghost h: Header, ghost data: seq<byte>)
      requires Valid() && Holds(msg, h, data) && h.flags == 0 && msg !in w.bufs
      modifies msg, w
      ensures Valid() && msg.fd == old(msg.fd)
      ensures w.Queue() == old(w.Queue()) + [OutBuf(Encode(Msg(h.typ, h.peerid, h.pid, data, msg.fd)), msg.fd)]
      ensures w.closed == old(w.closed)
    {
      hide GetHeader, GetU16, PutU16, PutU32;
      ghost var m := Msg(h.typ, h.peerid, h.pid, data, msg.fd);
      Patched(msg.buf, h, HeaderOf(m));
      U16RoundTrip(h.flags);
      var was := GetU16(msg.buf[6..8]);
      var flags := was - was % 2;
      if msg.fd != -1 {
        flags := flags + IMSGF_HASFD;
      }
      msg.buf := msg.buf[..4] + PutU16(msg.wpos) + PutU16(flags) + msg.buf[8..];
      assert msg.buf[..msg.wpos] == Encode(m) by {
        hide PutHeader;
        var g := HeaderOf(m);
        assert msg.buf == PutHeader(g) + old(msg.buf)[16..];
        assert old(msg.buf)[16..msg.wpos] == old(msg.buf)[..msg.wpos][16..] == data;
      }
      w.Enqueue(msg);
    }

    /** imsg_compose: succeeds exactly if header and payload fit, and then queues the message. */
    method Compose(typ: u32, peerid: u32, pid0: u32, fd: Fd, data: seq<byte>) returns (r: int)
      requires Valid() && |data| < 0x1_0000
      modifies w
      ensures Valid() && r == if |data| <= MAX_IMSGSIZE - IMSG_HEADER_SIZE then 1 else -1
      ensures r == 1 ==> var m := Msg(typ, peerid, if pid0 == 0 then pid else pid0, data, fd);
                         w.Queue() == old(w.Queue()) + [OutBuf(Encode(m), fd)] && w.closed == old(w.closed)
      ensures r == -1 ==> unchanged(w)
    {
      hide Encode, PutHeader, AbsAll, HeaderOf;
      assert allocated(w.bufs);
      var wbuf;
      ghost var h;
      wbuf, h := Create(typ, peerid, pid0, |data|);
      if wbuf == null {
        return -1;
      }
      var ok := AddData(wbuf, data, h, []);
      assert [] + data == data;
      if !ok {
        return -1;
      }
      wbuf.fd := fd;
      Close(wbuf, h, data);
      return 1;
    }

    /** imsg_composev: lengths are cut to 16 bits, the sum and each piece on its own. */
    method Composev(typ: u32, peerid: u32, pid0: u32, fd: Fd, iov: seq<seq<byte>>) returns (r: int)
      requires Valid() && Total(iov) < 0x8000_0000
      modifies w
      ensures Valid() && r == if |Payload(iov)| <= MAX_IMSGSIZE - IMSG_HEADER_SIZE then 1 else -1
      ensures r == 1 ==> var m := Msg(typ, peerid, if pid0 == 0 then pid else pid0, Payload(iov), fd);
                         w.Queue() == old(w.Queue()) + [OutBuf(Encode(m), fd)] && w.closed == old(w.closed)
      ensures r == -1 ==> unchanged(w)
    {
      hide Encode, PutHeader, AbsAll, HeaderOf, Payload, Total;
      assert allocated(w.bufs);
      var datalen := SumLengths(iov);
      PayloadLength(iov);
      var wbuf;
      ghost var h;
      wbuf, h := Create(typ, peerid, pid0, datalen % 0x1_0000);
      if wbuf == null {
        return -1;
      }
      var ok := AddPieces(wbuf, iov, h);
      if !ok {
        return -1;
      }
      wbuf.fd := fd;
      Close(wbuf, h, Payload(iov));
      return 1;
    }

    /** The second loop of imsg_composev. */
    method AddPieces(msg: Ibuf, iov: seq<seq<byte>>, ghost h: Header) returns (ok: bool)
      requires Holds(msg, h, [])
      modifies msg
      ensures ok == (|Payload(iov)| <= MAX_IMSGSIZE - IMSG_HEADER_SIZE)
      ensures ok ==> Holds(msg, h, Payload(iov))
    {
      hide PutHeader, Holds, Payload;
      PayloadPrefix(iov, 0);
      for i := 0 to |iov|
        invariant Holds(msg, h, Payload(iov[..i]))
        invariant |Payload(iov[..i])| <= |Payload(iov)|
        invariant |Payload(iov[..i])| <= MAX_IMSGSIZE - IMSG_HEADER_SIZE
      {
        PayloadPrefix(iov, i);
        ok := AddData(msg, iov[i][..|iov[i]| % 0x1_0000], h, Payload(iov[..i]));
        if !ok {
          return;
        }
      }
      assert iov[..|iov|] == iov;
      return true;
    }
  }

  /** The first loop of imsg_composev. */
  method SumLengths(iov: seq<seq<byte>>) returns (datalen: nat)
    ensures datalen == Total(iov)
  {
    hide Total;
    datalen := 0;
    TotalPrefix(iov, 0);
    for i := 0 to |iov|
      invariant datalen == Total(iov[..i])
    {
      TotalPrefix(iov, i);
      datalen := datalen + |iov[i]|;
    }
    assert iov[..|iov|] == iov;
  }

  function Total(iov: seq<seq<byte>>): nat {
    if iov == [] then 0 else Total(iov[..|iov| - 1]) + |iov[|iov| - 1]|
  }

  /** The bytes that reach the buffer: a piece loses every full 64 KiB of its length. */
  function Payload(iov: seq<seq<byte>>): seq<byte> {
    if iov == [] then [] else Payload(iov[..|iov| - 1]) + iov[|iov| - 1][..|iov[|iov| - 1]| % 0x1_0000]
  }

  lemma TotalPrefix(iov: seq<seq<byte>>, i: nat)
    requires i <= |iov|
    ensures i == 0 ==> Total(iov[..i]) == 0
    ensures i < |iov| ==> Total(iov[..i + 1]) == Total(iov[..i]) + |iov[i]|
  {
    if i < |iov| { assert iov[..i + 1][..i] == iov[..i]; }
  }

  lemma {:induction false} PayloadPrefix(iov: seq<seq<byte>>, i: nat)
    requires i <= |iov|
    ensures i == 0 ==> Payload(iov[..i]) == []
    ensures i < |iov| ==> Payload(iov[..i + 1]) == Payload(iov[..i]) + iov[i][..|iov[i]| % 0x1_0000]
    ensures i < |iov| ==> |Payload(iov[..i + 1])| <= |Payload(iov)|
    ensures |Payload(iov[..i])| <= |Payload(iov)|
    decreases |iov| - i
  {
    if i < |iov| {
      assert iov[..i + 1][..i] == iov[..i];
      PayloadPrefix(iov, i + 1);
    } else {
      assert iov[..i] == iov;
    }
  }

  /** The bytes stored of the first i pieces. */
  function Stored(iov: seq<seq<byte>>, i: nat): nat
    requires i <= |iov|
  {
    if i == 0 then 0 else Stored(iov, i - 1) + |iov[i - 1]| % 0x1_0000
  }

  lemma {:induction false} StoredPrefix(iov: seq<seq<byte>>, n: nat, i: nat)
    requires i <= n <= |iov|
    ensures Stored(iov[..n], i) == Stored(iov, i)
  {
    if i > 0 { StoredPrefix(iov, n, i - 1); }
  }

  /** What is stored: one after the other, the first bytes of every piece, as many as its length modulo 2 to the 16. */
  lemma {:induction false} PayloadExact(iov: seq<seq<byte>>, i: nat, j: nat)
    requires i < |iov| && j < |iov[i]| % 0x1_0000
    ensures |Payload(iov)| == Stored(iov, |iov|) && Stored(iov, i) + j < |Payload(iov)|
    ensures Payload(iov)[Stored(iov, i) + j] == iov[i][j]
    decreases |iov|
  {
    var n := |iov| - 1;
    PayloadStored(iov);
    PayloadStored(iov[..n]);
    StoredPrefix(iov, n, n);
    if i < n {
      PayloadExact(iov[..n], i, j);
      StoredPrefix(iov, n, i);
    }
  }

  lemma {:induction false} PayloadStored(iov: seq<seq<byte>>)
    ensures |Payload(iov)| == Stored(iov, |iov|)
  {
    if iov != [] {
      PayloadStored(iov[..|iov| - 1]);
      StoredPrefix(iov, |iov| - 1, |iov| - 1);
    }
  }

  /** The sum and the bytes stored agree modulo 2 to the 16. */
  lemma {:induction false} PayloadLength(iov: seq<seq<byte>>)
    ensures Total(iov) % 0x1_0000 == |Payload(iov)| % 0x1_0000
  {
    if iov != [] {
      var i, p := iov[..|iov| - 1], iov[|iov| - 1];
      PayloadLength(i);
      assert Total(iov) == Total(i) + |p| && |Payload(iov)| == |Payload(i)| + |p| % 0x1_0000;
      hide *;
      SameRest(Total(i), |Payload(i)|, |p|);
    }
  }

  lemma SameRest(a: nat, b: nat, n: nat)
    requires a % 0x1_0000 == b % 0x1_0000
    ensures (a + n) % 0x1_0000 == (b + n % 0x1_0000) % 0x1_0000
  {
    var m := 0x1_0000;
    assert a + n == b + n % m + m * (a / m - b / m + n / m);
    AddMultiple(b + n % m, a / m - b / m + n / m);
  }

  lemma AddMultiple(y: int, k: int)
    ensures (y + 0x1_0000 * k) % 0x1_0000 == y % 0x1_0000
  {
  }

  function Joined(iov: seq<seq<byte>>): (j: seq<byte>)
    ensures |j| == Total(iov)
  {
    if iov == [] then [] else Joined(iov[..|iov| - 1]) + iov[|iov| - 1]
  }

  /** The whole payload is stored if and only if every piece is shorter than 64 KiB. */
  lemma {:induction false} PayloadWhole(iov: seq<seq<byte>>)
    ensures |Payload(iov)| <= Total(iov)
    ensures Payload(iov) == Joined(iov) <==> forall p <- iov :: |p| < 0x1_0000
    ensures |Payload(iov)| == Total(iov) <==> forall p <- iov :: |p| < 0x1_0000
  {
    if iov != [] {
      var i, p := iov[..|iov| - 1], iov[|iov| - 1];
      PayloadWhole(i);
      assert iov == i + [p];
      if |p| < 0x1_0000 {
        assert p[..|p| % 0x1_0000] == p;
      }
    }
  }

  /** msg holds a header, of whatever length, and data. */
  ghost predicate Holds(msg: Ibuf, h: Header, data: seq<byte>)
    reads msg
  {
    && msg.Valid() && msg.rpos == 0 && msg.max == MAX_IMSGSIZE
    && msg.buf[..msg.wpos] == PutHeader(h) + data
  }

  /** Two header fields replaced. */
  lemma Patched(buf: seq<byte>, h: Header, g: Header)
    requires |buf| >= IMSG_HEADER_SIZE && buf[..16] == PutHeader(h)
    requires g.typ == h.typ && g.peerid == h.peerid && g.pid == h.pid
    ensures buf[6..8] == PutU16(h.flags)
    ensures buf[..4] + PutU16(g.len) + PutU16(g.flags) + buf[8..] == PutHeader(g) + buf[16..]
  {
    assert buf == PutHeader(h) + buf[16..];
  }

  lemma HeaderPrefix(r: seq<byte>)
    requires |r| >= IMSG_HEADER_SIZE
    ensures GetHeader(r[..16]) == GetHeader(r)
  {
    assert r[..16][..4] == r[..4] && r[..16][4..6] == r[4..6] && r[..16][6..8] == r[6..8];
    assert r[..16][8..12] == r[8..12] && r[..16][12..16] == r[12..16];
  }
}
