/** The write queue of a msgbuf as a value: gathering for sendmsg, and draining what was sent. */
module ImsgQueue {
  import opened Sequences
  import opened ByteOrder
  import opened ImsgWire

  const IOV_MAX: nat := 1024

  /** An ibuf as the queue sees it: buf[rpos..wpos], and the descriptor still to be sent. */
  datatype OutBuf = OutBuf(pending: seq<byte>, fd: Fd)

  function Pending(q: seq<OutBuf>): seq<byte> {
    if q == [] then [] else q[0].pending + Pending(q[1..])
  }

  function FdOf(fd: Fd): seq<Fd> { if fd == -1 then [] else [fd] }

  /** The descriptors still in the queue, in order. */
  function QueueFds(q: seq<OutBuf>): seq<Fd> {
    if q == [] then [] else FdOf(q[0].fd) + QueueFds(q[1..])
  }

  /** The first buffer with a descriptor. */
  function FirstFd(q: seq<OutBuf>): (i: nat)
    ensures i <= |q|
    ensures forall j :: 0 <= j < i ==> q[j].fd == -1
    ensures i < |q| ==> q[i].fd != -1
  {
    if q == [] || q[0].fd != -1 then 0 else 1 + FirstFd(q[1..])
  }

  /** How many buffers the gather loop of msgbuf_write puts in the iovec. */
  function Included(q: seq<OutBuf>): (i: nat)
    ensures i <= |q| && i <= IOV_MAX && (q != [] ==> i > 0)
  {
    if FirstFd(q) < |q| && FirstFd(q) < IOV_MAX then FirstFd(q) + 1
    else if |q| < IOV_MAX then |q| else IOV_MAX
  }

  /**
   Whether a descriptor goes along: the buffer the gather loop stopped at has one. That
   buffer is the last one included, or the one after it when the iovec was full.
   */
  predicate Attached(q: seq<OutBuf>) { FirstFd(q) < |q| && FirstFd(q) <= IOV_MAX }

  function AttachedFd(q: seq<OutBuf>): Fd { if Attached(q) then q[FirstFd(q)].fd else -1 }

  /** The gather loop goes on until the queue ends, the iovec is full, or a buffer with a descriptor has been put in. */
  lemma IncludedExactly(q: seq<OutBuf>)
    ensures var i := Included(q);
            && i <= |q| && i <= 1024 && (forall j :: 0 <= j < i - 1 ==> q[j].fd == -1)
            && (i == |q| || i == 1024 || (i > 0 && q[i - 1].fd != -1))
  {
  }

  /** A descriptor goes along exactly if one of the first 1025 buffers has one, and it is the first of them. */
  lemma AttachedExactly(q: seq<OutBuf>)
    ensures Attached(q) <==> exists f :: 0 <= f < |q| && f <= 1024 && q[f].fd != -1
    ensures forall f :: 0 <= f < |q| && f <= 1024 && q[f].fd != -1 && (forall j :: 0 <= j < f ==> q[j].fd == -1) ==> AttachedFd(q) == q[f].fd
  {
    hide FirstFd;
    if Attached(q) {
      assert q[FirstFd(q)].fd != -1;
    }
  }

  /** The queue after the descriptor was sent. */
  function Detach(q: seq<OutBuf>): (d: seq<OutBuf>)
    ensures |d| == |q|
    ensures forall i :: 0 <= i < |q| ==> d[i].pending == q[i].pending
    ensures forall i :: 0 <= i < Included(q) ==> d[i].fd == -1
  {
    if Attached(q) then q[FirstFd(q) := q[FirstFd(q)].(fd := -1)] else q
  }

  /** Part of the first buffer is sent. */
  function Skip(q: seq<OutBuf>, n: nat): seq<OutBuf>
    requires q != [] && n < |q[0].pending|
  {
    [q[0].(pending := q[0].pending[n..])] + q[1..]
  }

  /** msgbuf_drain. */
  function Drain(q: seq<OutBuf>, n: nat): seq<OutBuf> {
    if q == [] || n == 0 then q
    else if n >= |q[0].pending| then Drain(q[1..], n - |q[0].pending|)
    else Skip(q, n)
  }

  /** The descriptors msgbuf_drain closes. */
  function DrainClosed(q: seq<OutBuf>, n: nat): seq<Fd> {
    if q == [] || n == 0 then []
    else if n >= |q[0].pending| then FdOf(q[0].fd) + DrainClosed(q[1..], n - |q[0].pending|)
    else []
  }

  /** One buffer of msgbuf_drain. */
  lemma OpenDrain(q: seq<OutBuf>, n: nat)
    ensures q == [] || n == 0 ==> Drain(q, n) == q && DrainClosed(q, n) == []
    ensures q != [] && 0 < n && n >= |q[0].pending| ==>
              Drain(q, n) == Drain(q[1..], n - |q[0].pending|) && DrainClosed(q, n) == FdOf(q[0].fd) + DrainClosed(q[1..], n - |q[0].pending|)
    ensures q != [] && 0 < n < |q[0].pending| ==>
              Drain(q, n) == Skip(q, n) && DrainClosed(q, n) == []
  {
  }

  lemma OpenFds(q: seq<OutBuf>)
    ensures QueueFds(q) == if q == [] then [] else FdOf(q[0].fd) + QueueFds(q[1..])
  {
  }

  lemma {:induction false} PendingAppend(q: seq<OutBuf>, r: seq<OutBuf>)
    ensures Pending(q + r) == Pending(q) + Pending(r)
  {
    if q == [] {
      assert q + r == r;
    } else {
      var all, t := q + r, q[1..];
      PendingAppend(t, r);
      assert all[0] == q[0] && all[1..] == t + r;
      assert Pending(all) == q[0].pending + Pending(t + r) && Pending(q) == q[0].pending + Pending(t);
      hide *;
      Assoc(q[0].pending, Pending(t), Pending(r));
    }
  }

  lemma {:induction false} FdsAppend(q: seq<OutBuf>, r: seq<OutBuf>)
    ensures QueueFds(q + r) == QueueFds(q) + QueueFds(r)
  {
    if q == [] {
      assert q + r == r;
    } else {
      var all, t := q + r, q[1..];
      FdsAppend(t, r);
      assert all[0] == q[0] && all[1..] == t + r;
      assert QueueFds(all) == FdOf(q[0].fd) + QueueFds(t + r) && QueueFds(q) == FdOf(q[0].fd) + QueueFds(t);
      hide *;
      Assoc(FdOf(q[0].fd), QueueFds(t), QueueFds(r));
    }
  }

  /** msgbuf_drain removes exactly the first n pending bytes, across any number of buffers. */
  lemma {:induction false} DrainExact(q: seq<OutBuf>, n: nat)
    requires n <= |Pending(q)|
    ensures Pending(Drain(q, n)) == Pending(q)[n..]
  {
    if q != [] && n > 0 {
      if n >= |q[0].pending| {
        DrainExact(q[1..], n - |q[0].pending|);
      } else {
        assert Skip(q, n)[1..] == q[1..];
      }
    }
  }

  /** Descriptors leave the queue only by being closed. */
  lemma {:induction false} DrainFds(q: seq<OutBuf>, n: nat)
    ensures QueueFds(q) == DrainClosed(q, n) + QueueFds(Drain(q, n))
  {
    if q != [] && n > 0 {
      if n >= |q[0].pending| {
        var t, m := q[1..], n - |q[0].pending|;
        DrainFds(t, m);
        Assoc(FdOf(q[0].fd), DrainClosed(t, m), QueueFds(Drain(t, m)));
      } else {
        assert Skip(q, n)[1..] == q[1..];
      }
    }
  }

  /** Draining no more than the first i buffers closes nothing if none of these has a descriptor. */
  lemma {:induction false} DrainClosesNothing(q: seq<OutBuf>, i: nat, n: nat)
    requires i <= |q| && n <= |Pending(q[..i])| && forall j :: 0 <= j < i ==> q[j].fd == -1
    ensures DrainClosed(q, n) == []
  {
    if i > 0 && n > 0 {
      assert q[..i][1..] == q[1..][..i - 1];
      if n >= |q[0].pending| {
        DrainClosesNothing(q[1..], i - 1, n - |q[0].pending|);
      }
    }
  }

  lemma {:induction false} NoFds(q: seq<OutBuf>)
    requires forall j :: 0 <= j < |q| ==> q[j].fd == -1
    ensures QueueFds(q) == []
  {
    if q != [] { NoFds(q[1..]); }
  }

  /** The descriptor sent is the first in the queue. */
  lemma DetachFds(q: seq<OutBuf>)
    ensures QueueFds(q) == FdOf(AttachedFd(q)) + QueueFds(Detach(q))
  {
    hide QueueFds, FirstFd;
    var f := FirstFd(q);
    if Attached(q) {
      var d := Detach(q);
      assert q == q[..f] + q[f..] && d == q[..f] + d[f..] && d[f..][1..] == q[f..][1..];
      NoFds(q[..f]);
      FdsAppend(q[..f], q[f..]);
      FdsAppend(q[..f], d[f..]);
      OpenFds(q[f..]);
      OpenFds(d[f..]);
    }
  }

  /** Called from msgbuf_write, msgbuf_drain closes no descriptor that has not been sent. */
  lemma WriteClosesNothing(q: seq<OutBuf>, n: nat)
    requires n <= |Pending(q[..Included(q)])|
    ensures DrainClosed(Detach(q), n) == []
  {
    var i, d := Included(q), Detach(q);
    SamePending(q[..i], d[..i]);
    DrainClosesNothing(d, i, n);
  }

  lemma {:induction false} SamePending(q: seq<OutBuf>, r: seq<OutBuf>)
    requires |q| == |r| && forall i :: 0 <= i < |q| ==> q[i].pending == r[i].pending
    ensures Pending(q) == Pending(r)
  {
    if q != [] { SamePending(q[1..], r[1..]); }
  }
}
