/**
 One direction of the socket pair: the sender's write queue, the bytes the kernel holds
 with the descriptors attached to them, and the receiver's buffer and descriptor queue.
 The steps are those of imsg_compose, msgbuf_write, imsg_read and imsg_get; the kernel
 chooses how much each write and each read moves.
 */
module ImsgChannel {
  import opened Sequences
  import opened ByteOrder
  import opened ImsgWire
  import opened ImsgQueue

  type Sent = m: Msg | Fits(m) witness Msg(0, 0, 0, [], -1)

  /** A byte in the kernel, and the descriptor of the sendmsg it was the first byte of. */
  datatype Cell = Cell(b: byte, fd: Fd)

  datatype Chan = Chan(
    queue: seq<OutBuf>,
    kernel: seq<Cell>,
    rbuf: seq<byte>,
    rfds: seq<Fd>,
    sent: seq<Sent>,  // every message composed so far
    got: seq<Msg>)    // every message returned so far

  function Bytes(k: seq<Cell>): (b: seq<byte>)
    ensures |b| == |k|
  {
    seq(|k|, i requires 0 <= i < |k| => k[i].b)
  }

  function CellFds(k: seq<Cell>): seq<Fd> {
    if k == [] then [] else FdOf(k[0].fd) + CellFds(k[1..])
  }

  /** What sendmsg hands to the kernel. */
  function Cells(b: seq<byte>, fd: Fd): (k: seq<Cell>)
    ensures |k| == |b|
  {
    seq(|b|, i requires 0 <= i < |b| => Cell(b[i], if i == 0 then fd else -1))
  }

  // The steps.

  function Compose(c: Chan, m: Sent): Chan {
    c.(queue := c.queue + [OutBuf(Encode(m), m.fd)], sent := c.sent + [m])
  }

  /** sendmsg may take any non-empty prefix of what it is offered. */
  predicate CanWrite(c: Chan, n: nat) { 0 < n <= |Pending(c.queue[..Included(c.queue)])| }

  function Write(c: Chan, n: nat): Chan
    requires CanWrite(c, n)
  {
    PrefixPending(c.queue, Included(c.queue));
    c.(queue := Drain(Detach(c.queue), n),
       kernel := c.kernel + Cells(Pending(c.queue)[..n], AttachedFd(c.queue)))
  }

  /** recvmsg may return any non-empty prefix that fits, with the descriptors of at most one sendmsg. */
  predicate CanRead(c: Chan, n: nat) {
    0 < n <= |c.kernel| && n <= IBUF_READ_SIZE - |c.rbuf| && |CellFds(c.kernel[..n])| <= 1
  }

  function Read(c: Chan, n: nat): Chan
    requires CanRead(c, n)
  {
    c.(kernel := c.kernel[n..], rbuf := c.rbuf + Bytes(c.kernel[..n]), rfds := c.rfds + CellFds(c.kernel[..n]))
  }

  /** imsg_get, when it returns a message. */
  predicate CanGet(c: Chan) { ParseFront(c.rbuf).Frame? }

  function Got(c: Chan): Msg
    requires CanGet(c)
  {
    FrontMsg(c.rbuf, c.rfds)
  }

  function Get(c: Chan): Chan
    requires CanGet(c)
  {
    c.(rbuf := c.rbuf[ParseFront(c.rbuf).hdr.len..], rfds := FdsLeft(c.rbuf, c.rfds), got := c.got + [Got(c)])
  }

  lemma PrefixPending(q: seq<OutBuf>, i: nat)
    requires i <= |q|
    ensures Pending(q[..i]) <= Pending(q)
  {
    assert q == q[..i] + q[i..];
    PendingAppend(q[..i], q[i..]);
  }

  // What holds in every reachable state.

  function Stream(ms: seq<Sent>): seq<byte> {
    if ms == [] then [] else Encode(ms[0]) + Stream(ms[1..])
  }

  function FdsOf(ms: seq<Sent>): seq<Fd> {
    if ms == [] then [] else FdOf(ms[0].fd) + FdsOf(ms[1..])
  }

  /** How many messages with a descriptor start among the first x bytes. */
  function FlaggedBefore(ms: seq<Sent>, x: int): nat {
    if ms == [] || x <= 0 then 0 else |FdOf(ms[0].fd)| + FlaggedBefore(ms[1..], x - |Encode(ms[0])|)
  }

  /** What is left of m in its buffer. */
  predicate Remains(b: OutBuf, m: Sent) {
    && 0 < |b.pending| <= |Encode(m)| && b.pending == Encode(m)[|Encode(m)| - |b.pending|..]
    && (b.fd == m.fd || b.fd == -1)
  }

  /** The buffers in the queue are those of the messages ms; only the first may be partly sent. */
  predicate Aligned(q: seq<OutBuf>, ms: seq<Sent>) {
    && |q| == |ms|
    && (forall i :: 0 <= i < |q| ==> Remains(q[i], ms[i]))
    && (forall i :: 0 < i < |q| ==> |q[i].pending| == |Encode(ms[i])|)
  }

  /** The messages not returned yet. */
  function Due(c: Chan): seq<Sent>
    requires |c.got| <= |c.sent|
  {
    c.sent[|c.got|..]
  }

  predicate Inv(c: Chan) {
    && |c.got| <= |c.sent| && c.got == c.sent[..|c.got|]
    && |c.queue| <= |Due(c)| && Aligned(c.queue, Due(c)[|Due(c)| - |c.queue|..])
    && c.rbuf + Bytes(c.kernel) + Pending(c.queue) == Stream(Due(c))
    && c.rfds + CellFds(c.kernel) + QueueFds(c.queue) == FdsOf(Due(c))
    && Ahead(c)
    && |c.rbuf| <= IBUF_READ_SIZE
  }

  /** A descriptor is never behind the first byte of its message. */
  predicate Ahead(c: Chan)
    requires |c.got| <= |c.sent|
  {
    forall p :: 0 <= p <= |c.kernel| ==>
      FlaggedBefore(Due(c), |c.rbuf| + p) <= |c.rfds| + |CellFds(c.kernel[..p])|
  }

  const Empty := Chan([], [], [], [], [], [])

  lemma EmptyInv()
    ensures Inv(Empty)
  {
  }

  lemma {:induction false} StreamAppend(a: seq<Sent>, b: seq<Sent>)
    ensures Stream(a + b) == Stream(a) + Stream(b)
  {
    if a == [] {
      assert a + b == b;
    } else {
      var all, t := a + b, a[1..];
      StreamAppend(t, b);
      assert all[0] == a[0] && all[1..] == t + b;
      assert Stream(all) == Encode(a[0]) + Stream(t + b) && Stream(a) == Encode(a[0]) + Stream(t);
      hide *;
      Assoc(Encode(a[0]), Stream(t), Stream(b));
    }
  }

  lemma {:induction false} FdsOfAppend(a: seq<Sent>, b: seq<Sent>)
    ensures FdsOf(a + b) == FdsOf(a) + FdsOf(b)
  {
    if a == [] {
      assert a + b == b;
    } else {
      var all, t := a + b, a[1..];
      FdsOfAppend(t, b);
      assert all[0] == a[0] && all[1..] == t + b;
      assert FdsOf(all) == FdOf(a[0].fd) + FdsOf(t + b) && FdsOf(a) == FdOf(a[0].fd) + FdsOf(t);
      hide *;
      Assoc(FdOf(a[0].fd), FdsOf(t), FdsOf(b));
    }
  }

  /** Messages that start at or after x do not count. */
  lemma {:induction false} FlaggedAppend(a: seq<Sent>, b: seq<Sent>, x: int)
    requires x <= |Stream(a)|
    ensures FlaggedBefore(a + b, x) == FlaggedBefore(a, x) <= |FdsOf(a)|
  {
    hide Encode;
    if a == [] {
      assert a + b == b;
    } else {
      FlaggedAppend(a[1..], b, x - |Encode(a[0])|);
      assert (a + b)[1..] == a[1..] + b;
    }
  }

  lemma {:induction false} CellFdsAppend(a: seq<Cell>, b: seq<Cell>)
    ensures CellFds(a + b) == CellFds(a) + CellFds(b)
  {
    if a == [] {
      assert a + b == b;
    } else {
      var all, t := a + b, a[1..];
      CellFdsAppend(t, b);
      assert all[0] == a[0] && all[1..] == t + b;
      assert CellFds(all) == FdOf(a[0].fd) + CellFds(t + b) && CellFds(a) == FdOf(a[0].fd) + CellFds(t);
      hide *;
      Assoc(FdOf(a[0].fd), CellFds(t), CellFds(b));
    }
  }

  lemma StreamOne(m: Sent)
    ensures Stream([m]) == Encode(m) && FdsOf([m]) == FdOf(m.fd)
  {
  }

  lemma ComposeKeeps(c: Chan, m: Sent)
    requires Inv(c)
    ensures Inv(Compose(c, m))
  {
    hide Stream, FdsOf, Pending, QueueFds, CellFds, FlaggedBefore, Encode, Bytes;
    var c', d, b := Compose(c, m), Due(c), [OutBuf(Encode(m), m.fd)];
    assert Due(c') == d + [m];
    StreamAppend(d, [m]);
    FdsOfAppend(d, [m]);
    StreamOne(m);
    PendingAppend(c.queue, b);
    FdsAppend(c.queue, b);
    QueueOne(b[0]);
    forall p | 0 <= p <= |c'.kernel|
      ensures FlaggedBefore(Due(c'), |c'.rbuf| + p) <= |c'.rfds| + |CellFds(c'.kernel[..p])|
    {
      FlaggedAppend(d, [m], |c.rbuf| + p);
    }
    assert Due(c')[|Due(c')| - |c'.queue|..] == d[|d| - |c.queue|..] + [m];
  }

  lemma QueueOne(b: OutBuf)
    ensures Pending([b]) == b.pending && QueueFds([b]) == FdOf(b.fd)
  {
  }

  lemma ReadKeeps(c: Chan, n: nat)
    requires Inv(c) && CanRead(c, n)
    ensures Inv(Read(c, n))
  {
    hide Stream, FdsOf, Pending, QueueFds, CellFds, FlaggedBefore, Aligned;
    var c', k := Read(c, n), c.kernel;
    assert k == k[..n] + k[n..];
    CellFdsAppend(k[..n], k[n..]);
    assert Bytes(k) == Bytes(k[..n]) + Bytes(k[n..]);
    forall p | 0 <= p <= |c'.kernel|
      ensures FlaggedBefore(Due(c'), |c'.rbuf| + p) <= |c'.rfds| + |CellFds(c'.kernel[..p])|
    {
      assert k[..n + p] == k[..n] + k[n..][..p];
      CellFdsAppend(k[..n], k[n..][..p]);
      assert FlaggedBefore(Due(c), |c.rbuf| + (n + p)) <= |c.rfds| + |CellFds(k[..n + p])|;
    }
  }

  lemma OpenDue(ms: seq<Sent>, x: int)
    requires ms != []
    ensures Stream(ms) == Encode(ms[0]) + Stream(ms[1..]) && FdsOf(ms) == FdOf(ms[0].fd) + FdsOf(ms[1..])
    ensures x > 0 ==> FlaggedBefore(ms, x) == |FdOf(ms[0].fd)| + FlaggedBefore(ms[1..], x - |Encode(ms[0])|)
  {
  }

  lemma NothingDue()
    ensures Stream([]) == []
  {
  }

  /** The receive buffer starts with the next message due, whole or in part; never with anything else. */
  lemma Front(c: Chan)
    requires Inv(c)
    ensures !ParseFront(c.rbuf).Malformed?
    ensures CanGet(c) ==> Due(c) != [] && |c.rbuf| >= |Encode(Due(c)[0])| && ParseFront(c.rbuf) == Frame(HeaderOf(Due(c)[0]), Due(c)[0].data)
    ensures !CanGet(c) ==> |c.rbuf| < MAX_IMSGSIZE
  {
    hide Encode, HeaderOf;
    NothingDue();
    if Due(c) != [] {
      OpenDue(Due(c), 0);
      ParseEncoded(Due(c)[0], c.rbuf, Stream(Due(c)[1..]));
    }
  }

  /** imsg_get returns the next message due, its own descriptor with it. */
  lemma GotNext(c: Chan)
    requires Inv(c) && CanGet(c)
    ensures Due(c) != [] && Got(c) == Due(c)[0]
    ensures HasFd(ParseFront(c.rbuf).hdr) ==> c.rfds != []
  {
    hide Encode, Stream, Bytes, CellFds, QueueFds, FlaggedBefore, FdsOf, Aligned;
    Front(c);
    var m := Due(c)[0];
    OpenDue(Due(c), |c.rbuf|);
    assert FlaggedBefore(Due(c), |c.rbuf| + 0) <= |c.rfds| + |CellFds(c.kernel[..0])|;
    NoCells(c.kernel);
    if m.fd != -1 {
      assert c.rfds[0] == FdsOf(Due(c))[0];
    }
  }

  lemma NoCells(k: seq<Cell>)
    ensures CellFds(k[..0]) == []
  {
  }

  /** A message still in the queue has not arrived completely. */
  lemma {:induction false} AlignedLength(q: seq<OutBuf>, ms: seq<Sent>)
    requires Aligned(q, ms)
    ensures q != [] ==> |Pending(q)| == |Stream(ms)| - |Encode(ms[0])| + |q[0].pending|
    ensures q == [] ==> Stream(ms) == Pending(q) == []
  {
    hide Encode;
    if |q| > 1 {
      AlignedLength(q[1..], ms[1..]);
    }
  }

  lemma GetQueue(c: Chan)
    requires Inv(c) && CanGet(c)
    ensures |c.queue| < |Due(c)|
  {
    hide Encode, Stream, Pending, ParseFront, HeaderOf;
    Front(c);
    var d, q := Due(c), c.queue;
    if |q| == |d| {
      assert d[|d| - |q|..] == d;
      AlignedLength(q, d);
    }
  }

  lemma Behead<T>(a: seq<T>, b: seq<T>, c: seq<T>, h: seq<T>, r: seq<T>)
    requires a + b + c == h + r && |h| <= |a|
    ensures a[|h|..] + b + c == r
  {
    assert (a + b + c)[|h|..] == a[|h|..] + b + c;
  }

  lemma GetKeeps(c: Chan)
    requires Inv(c) && CanGet(c)
    ensures Inv(Get(c))
  {
    hide Encode, Stream, Pending, Bytes, CellFds, QueueFds, FlaggedBefore, FdsOf, Aligned, ParseFront, HeaderOf;
    Front(c);
    GotNext(c);
    GetQueue(c);
    var c', d, q := Get(c), Due(c), c.queue;
    HeaderFacts(d[0]);
    OpenDue(d, 0);
    assert Due(c') == d[1..];
    assert d[1..][|d[1..]| - |q|..] == d[|d| - |q|..];
    Behead(c.rbuf, Bytes(c.kernel), Pending(q), Encode(d[0]), Stream(d[1..]));
    Behead(c.rfds, CellFds(c.kernel), QueueFds(q), FdOf(d[0].fd), FdsOf(d[1..]));
    forall p | 0 <= p <= |c'.kernel|
      ensures FlaggedBefore(Due(c'), |c'.rbuf| + p) <= |c'.rfds| + |CellFds(c'.kernel[..p])|
    {
      OpenDue(d, |c.rbuf| + p);
      assert FlaggedBefore(d, |c.rbuf| + p) <= |c.rfds| + |CellFds(c.kernel[..p])|;
    }
  }

  lemma HeaderFacts(m: Sent)
    ensures HeaderOf(m).len == |Encode(m)| > 0 && (HasFd(HeaderOf(m)) <==> m.fd != -1)
  {
  }

  /** Part of the first buffer is sent. */
  lemma PartAligned(q: seq<OutBuf>, ms: seq<Sent>, n: nat)
    requires Aligned(q, ms) && q != [] && n < |q[0].pending|
    ensures Aligned(Skip(q, n), ms)
  {
    hide Encode;
    var b, e := q[0].pending, Encode(ms[0]);
    var r := Skip(q, n);
    assert b[n..] == e[|e| - |b[n..]|..];
    assert forall i :: 0 < i < |q| ==> r[i] == q[i];
  }

  lemma RestAligned(q: seq<OutBuf>, ms: seq<Sent>)
    requires Aligned(q, ms)
    ensures |q| == |ms| && (q != [] ==> Aligned(q[1..], ms[1..]))
  {
    hide Encode, Remains;
  }

  lemma {:induction false} DrainAligned(q: seq<OutBuf>, ms: seq<Sent>, n: nat)
    requires Aligned(q, ms)
    ensures |Drain(q, n)| <= |q| && Aligned(Drain(q, n), ms[|ms| - |Drain(q, n)|..])
  {
    hide Encode, Aligned, Drain;
    OpenDrain(q, n);
    RestAligned(q, ms);
    assert ms[0..] == ms;
    if q != [] && n > 0 {
      if n >= |q[0].pending| {
        DrainAligned(q[1..], ms[1..], n - |q[0].pending|);
        var r := Drain(q[1..], n - |q[0].pending|);
        assert ms[1..][|ms[1..]| - |r|..] == ms[|ms| - |r|..];
      } else {
        PartAligned(q, ms, n);
      }
    }
  }

  lemma {:induction false} CellsFds(b: seq<byte>, fd: Fd)
    requires b != []
    ensures Bytes(Cells(b, fd)) == b && CellFds(Cells(b, fd)) == FdOf(fd)
  {
    var k := Cells(b, fd);
    PlainCells(k[1..]);
  }

  lemma {:induction false} PlainCells(k: seq<Cell>)
    requires forall i :: 0 <= i < |k| ==> k[i].fd == -1
    ensures CellFds(k) == []
  {
    if k != [] { PlainCells(k[1..]); }
  }

  /** A prefix of a send carries its descriptor. */
  lemma PrefixCells(b: seq<byte>, fd: Fd, p: nat)
    requires 0 < p <= |b|
    ensures CellFds(Cells(b, fd)[..p]) == FdOf(fd)
  {
    assert Cells(b, fd)[..p] == Cells(b[..p], fd);
    CellsFds(b[..p], fd);
  }

  /** Descriptors still in a queue belong to messages still in it. */
  lemma {:induction false} QueueFdsCount(q: seq<OutBuf>, ms: seq<Sent>)
    requires Aligned(q, ms)
    ensures |QueueFds(q)| <= |FdsOf(ms)|
  {
    if q != [] { QueueFdsCount(q[1..], ms[1..]); }
  }

  lemma TailAt(q: seq<OutBuf>, ms: seq<Sent>, i: nat)
    requires Aligned(q, ms) && 0 < i < |q| && Aligned(q[i + 1..], ms[i + 1..]) && Pending(q[i + 1..]) == Stream(ms[i + 1..])
    ensures Aligned(q[i..], ms[i..]) && Pending(q[i..]) == Stream(ms[i..])
  {
    assert Pending(q[i..]) == Stream(ms[i..]) by {
      assert q[i].pending == Encode(ms[i]);
      hide Encode, Aligned, Remains;
      assert q[i..][1..] == q[i + 1..] && ms[i..][1..] == ms[i + 1..];
    }
    hide Encode, Pending, Stream;
  }

  lemma {:induction false} AlignedTail(q: seq<OutBuf>, ms: seq<Sent>, i: nat)
    requires Aligned(q, ms) && 0 < i <= |q|
    ensures Aligned(q[i..], ms[i..]) && Pending(q[i..]) == Stream(ms[i..])
    decreases |q| - i
  {
    hide Encode;
    if i < |q| {
      AlignedTail(q, ms, i + 1);
      TailAt(q, ms, i);
    } else {
      assert q[i..] == [] && ms[i..] == [];
    }
  }

  /**
   Of the messages due, those with a descriptor that start before the end of what is sent
   now are no more than the descriptors sent by then.
   */
  lemma AheadOfWrite(c: Chan, x: int)
    requires Inv(c) && c.queue != []
    requires x <= |c.rbuf| + |c.kernel| + |Pending(c.queue[..Included(c.queue)])|
    ensures FlaggedBefore(Due(c), x) <= |c.rfds| + |CellFds(c.kernel)| + |FdOf(AttachedFd(c.queue))|
  {
    hide Stream, FdsOf, Pending, QueueFds, CellFds, FlaggedBefore, Encode, Bytes, Aligned;
    var d, q, i := Due(c), c.queue, Included(c.queue);
    var k := |d| - |q|;
    var a, b := d[..k + i], d[k + i..];
    assert d == a + b && d[k..][i..] == b && q == q[..i] + q[i..];
    AlignedTail(q, d[k..], i);
    QueueFdsCount(q[i..], b);
    PendingAppend(q[..i], q[i..]);
    StreamAppend(a, b);
    FdsOfAppend(a, b);
    FlaggedAppend(a, b, x);
    FdsAppend(q[..i], q[i..]);
    IncludedFds(q);
  }

  /** The buffers gathered carry at most the descriptor sent with them. */
  lemma IncludedFds(q: seq<OutBuf>)
    ensures |QueueFds(q[..Included(q)])| <= |FdOf(AttachedFd(q))|
  {
    var i, f := Included(q), FirstFd(q);
    if f < |q| && f < IOV_MAX {
      assert q[..i] == q[..f] + [q[f]];
      NoFds(q[..f]);
      FdsAppend(q[..f], [q[f]]);
      QueueOne(q[f]);
    } else {
      NoFds(q[..i]);
    }
  }

  lemma WriteKeeps(c: Chan, n: nat)
    requires Inv(c) && CanWrite(c, n)
    ensures Inv(Write(c, n))
  {
    hide Stream, FdsOf, Pending, QueueFds, CellFds, FlaggedBefore, Encode, Bytes, Aligned, Drain, Detach;
    var c', d, q, k := Write(c, n), Due(c), c.queue, c.kernel;
    NonEmptyQueue(c, n);
    PrefixPending(q, Included(q));
    WroteQueue(c, n);
    var b, fd := Pending(q)[..n], AttachedFd(q);
    CellsFds(b, fd);
    CellFdsAppend(k, Cells(b, fd));
    BytesAppend(k, Cells(b, fd));
    forall p | 0 <= p <= |c'.kernel|
      ensures FlaggedBefore(Due(c'), |c'.rbuf| + p) <= |c'.rfds| + |CellFds(c'.kernel[..p])|
    {
      if p <= |k| {
        assert c'.kernel[..p] == k[..p];
      } else {
        assert c'.kernel[..p] == k + Cells(b, fd)[..p - |k|];
        CellFdsAppend(k, Cells(b, fd)[..p - |k|]);
        PrefixCells(b, fd, p - |k|);
        AheadOfWrite(c, |c.rbuf| + p);
      }
    }
  }

  lemma NonEmptyQueue(c: Chan, n: nat)
    requires CanWrite(c, n)
    ensures c.queue != []
  {
  }

  lemma BytesAppend(a: seq<Cell>, b: seq<Cell>)
    ensures Bytes(a + b) == Bytes(a) + Bytes(b)
  {
  }

  lemma DetachAligned(q: seq<OutBuf>, ms: seq<Sent>)
    requires Aligned(q, ms)
    ensures Aligned(Detach(q), ms)
  {
    hide Encode, FirstFd;
  }

  /** What a write does to the queue. */
  lemma WroteQueue(c: Chan, n: nat)
    requires Inv(c) && CanWrite(c, n)
    ensures var q' := Write(c, n).queue;
            && n <= |Pending(c.queue)|
            && Pending(q') == Pending(c.queue)[n..]
            && QueueFds(c.queue) == FdOf(AttachedFd(c.queue)) + QueueFds(q')
            && |q'| <= |c.queue| && Aligned(q', Due(c)[|Due(c)| - |q'|..])
  {
    hide Stream, FdsOf, CellFds, FlaggedBefore, Encode, Bytes, Pending, QueueFds, Drain, Aligned, Detach;
    var q, d := c.queue, Detach(c.queue);
    var ms := Due(c)[|Due(c)| - |q|..];
    PrefixPending(q, Included(q));
    SamePending(q, d);
    DrainExact(d, n);
    DetachFds(q);
    WriteClosesNothing(q, n);
    DrainFds(d, n);
    DetachAligned(q, ms);
    DrainAligned(d, ms, n);
    var r := Drain(d, n);
    assert ms[|ms| - |r|..] == Due(c)[|Due(c)| - |r|..];
  }
}
