/** imsg-buffer.c: growable buffers, and the queue of buffers waiting to be sent. */
module ImsgBuffer {
  import opened Sequences
  import opened ByteOrder
  import opened ImsgWire
  import opened ImsgQueue

  /** struct ibuf; the allocation behind buf is size bytes long. */
  class Ibuf {
    var buf: seq<byte>
    var size: nat
    var max: nat
    var wpos: nat
    var rpos: nat
    var fd: Fd

    ghost predicate Valid()
      reads this
    {
      rpos <= wpos <= size <= max && |buf| == size
    }

    ghost function Abs(): OutBuf
      reads this
      requires Valid()
    {
      OutBuf(buf[rpos..wpos], fd)
    }

    /** ibuf_open: malloc leaves the contents arbitrary. */
    constructor Open(len: nat, junk: seq<byte>)
      requires |junk| == len
      ensures Valid() && size == max == len && wpos == rpos == 0 && fd == -1
    {
      buf, size, max := junk, len, len;
      wpos, rpos, fd := 0, 0, -1;
    }

    /** ibuf_realloc: leaves room for just len more bytes, but never goes beyond max. */
    method Realloc(len: nat, junk: seq<byte>) returns (ok: bool)
      requires Valid() && |junk| == len
      modifies this`buf, this`size
      ensures Valid() && ok == (wpos + len <= max)
      ensures if ok then size == wpos + len && buf[..wpos] == old(buf)[..wpos] else buf == old(buf) && size == old(size)
    {
      if wpos + len > max {
        return false;
      }
      buf := buf[..wpos] + junk;
      size := wpos + len;
      return true;
    }

    /** ibuf_add: appends data, or fails and leaves the buffer alone. */
    method Add(data: seq<byte>) returns (ok: bool)
      requires Valid()
      modifies this`buf, this`size, this`wpos
      ensures Valid() && ok == (old(wpos) + |data| <= max)
      ensures ok ==> wpos == old(wpos) + |data| && buf[..wpos] == old(buf)[..old(wpos)] + data
      ensures !ok ==> wpos == old(wpos) && buf == old(buf) && size == old(size)
    {
      if wpos + |data| > size {
        var junk := seq(|data|, _ => 0);
        ok := Realloc(|data|, junk);
        if !ok {
          return;
        }
      }
      buf := buf[..wpos] + data + buf[wpos + |data|..];
      wpos := wpos + |data|;
      return true;
    }
  }

  /** The queue as a value. */
  ghost function AbsAll(bufs: seq<Ibuf>): (q: seq<OutBuf>)
    reads bufs
    requires forall b <- bufs :: b.Valid()
    ensures |q| == |bufs|
    ensures forall i :: 0 <= i < |bufs| ==> q[i] == bufs[i].Abs()
  {
    if bufs == [] then [] else [bufs[0].Abs()] + AbsAll(bufs[1..])
  }

  /** struct msgbuf; closed records the descriptors passed to close. */
  class Msgbuf {
    var bufs: seq<Ibuf>
    var queued: nat
    ghost var closed: seq<Fd>

    ghost predicate Valid()
      reads this, bufs
    {
      && queued == |bufs|
      && (forall b <- bufs :: b.Valid())
      && (forall i, j :: 0 <= i < j < |bufs| ==> bufs[i] != bufs[j])
    }

    ghost function Queue(): seq<OutBuf>
      reads this, bufs
      requires Valid()
    {
      AbsAll(bufs)
    }

    constructor ()
      ensures Valid() && bufs == [] && closed == []
    {
      bufs, queued, closed := [], 0, [];
    }

    /** ibuf_enqueue. */
    method Enqueue(buf: Ibuf)
      requires Valid() && buf.Valid() && buf !in bufs
      modifies this`bufs, this`queued
      ensures Valid() && bufs == old(bufs) + [buf] && Queue() == old(Queue()) + [buf.Abs()]
    {
      bufs := bufs + [buf];
      queued := queued + 1;
    }

    /** ibuf_dequeue of the first buffer. */
    method Dequeue()
      requires Valid() && bufs != []
      modifies this
      ensures Valid() && bufs == old(bufs)[1..] && Queue() == old(Queue())[1..]
      ensures closed == old(closed) + FdOf(old(bufs[0].fd))
    {
      var buf := bufs[0];
      bufs := bufs[1..];
      if buf.fd != -1 {
        closed := closed + [buf.fd];
      }
      queued := queued - 1;
    }

    /** Advances the first buffer past n bytes already sent. */
    method Advance(n: nat)
      requires Valid() && bufs != [] && n < |Queue()[0].pending|
      modifies bufs[0]
      ensures Valid() && Queue() == Skip(old(Queue()), n)
    {
      ghost var was, b := Queue(), bufs[0];
      assert was[0] == b.Abs() && b.buf[b.rpos + n..b.wpos] == b.Abs().pending[n..];
      bufs[0].rpos := bufs[0].rpos + n;
      assert Queue()[0] == b.Abs() == Skip(was, n)[0];
      assert forall i :: 1 <= i < |bufs| ==> Queue()[i] == was[i];
    }

    /** One turn of the msgbuf_drain loop. */
    method DrainOne(n: nat) returns (left: nat)
      requires Valid() && bufs != [] && n > 0
      modifies this, bufs
      ensures Valid() && (bufs == old(bufs)[1..] || (bufs == old(bufs) && left == 0))
      ensures Drain(Queue(), left) == Drain(old(Queue()), n)
      ensures closed + DrainClosed(Queue(), left) == old(closed) + DrainClosed(old(Queue()), n)
    {
      hide Drain, DrainClosed;
      var buf := bufs[0];
      ghost var was := Queue();
      assert was[0] == buf.Abs();
      OpenDrain(was, n);
      if buf.rpos + n >= buf.wpos {
        left := n - (buf.wpos - buf.rpos);
        Dequeue();
        assert Queue() == was[1..];
      } else {
        Advance(n);
        left := 0;
        OpenDrain(Queue(), 0);
      }
    }

    /** msgbuf_drain. */
    method DrainBytes(n0: nat)
      requires Valid()
      modifies this, bufs
      ensures Valid() && Queue() == Drain(old(Queue()), n0)
      ensures closed == old(closed) + DrainClosed(old(Queue()), n0)
      ensures exists k :: 0 <= k <= |old(bufs)| && bufs == old(bufs)[k..]
    {
      hide Drain, DrainClosed, AbsAll;
      var n: nat := n0;
      ghost var k := 0;
      while bufs != [] && n > 0
        invariant Valid() && 0 <= k <= |old(bufs)| && bufs == old(bufs)[k..]
        invariant Drain(Queue(), n) == Drain(old(Queue()), n0)
        invariant closed + DrainClosed(Queue(), n) == old(closed) + DrainClosed(old(Queue()), n0)
        decreases |bufs|, n
      {
        n := DrainOne(n);
        k := |old(bufs)| - |bufs|;
      }
      OpenDrain(Queue(), n);
    }

    /** msgbuf_clear: empties the queue and closes what was left in it. */
    method Clear()
      requires Valid()
      modifies this
      ensures Valid() && bufs == [] && closed == old(closed) + QueueFds(old(Queue()))
    {
      hide QueueFds, AbsAll;
      while bufs != []
        invariant Valid() && closed + QueueFds(Queue()) == old(closed) + QueueFds(old(Queue()))
        invariant forall b <- bufs :: b in old(bufs)
        decreases |bufs|
      {
        OpenFds(Queue());
        Assoc(closed, FdOf(Queue()[0].fd), QueueFds(Queue()[1..]));
        Dequeue();
      }
      OpenFds(Queue());
    }

    /**
     The gather loop of msgbuf_write: the bytes offered to sendmsg, buffer by buffer, and
     the position at which the loop stopped, |bufs| standing for NULL.
     */
    method Gather() returns (iov: seq<seq<byte>>, at: nat)
      requires Valid()
      ensures |iov| == Included(Queue()) && forall i :: 0 <= i < |iov| ==> iov[i] == Queue()[i].pending
      ensures at < |bufs| && bufs[at].fd != -1 <==> Attached(Queue())
      ensures Attached(Queue()) ==> at == FirstFd(Queue())
    {
      hide AbsAll, FirstFd;
      iov, at := [], 0;
      while at < |bufs|
        invariant at == |iov| <= |bufs| && at <= IOV_MAX
        invariant forall i :: 0 <= i < at ==> bufs[i].fd == -1 && iov[i] == Queue()[i].pending
      {
        if at >= IOV_MAX {
          break;
        }
        var buf := bufs[at];
        assert buf in bufs && Queue()[at] == buf.Abs();
        iov := iov + [buf.buf[buf.rpos..buf.wpos]];
        if buf.fd != -1 {
          break;
        }
        at := at + 1;
      }
      assert forall i :: 0 <= i < |bufs| ==> Queue()[i] == bufs[i].Abs();
    }

    /** Hands the descriptor of one buffer over: it is closed here once the kernel has it. */
    method CloseSent(at: nat)
      requires Valid() && Attached(Queue()) && at == FirstFd(Queue())
      modifies this`closed, bufs[at]
      ensures Valid() && Queue() == Detach(old(Queue())) && closed == old(closed) + [AttachedFd(old(Queue()))]
    {
      hide AbsAll, FirstFd;
      ghost var was := Queue();
      assert was[at] == bufs[at].Abs();
      closed := closed + [bufs[at].fd];
      bufs[at].fd := -1;
      assert Queue() == was[at := was[at].(fd := -1)];
    }

    /** msgbuf_write; n is what sendmsg returned, and again whether its error was a temporary one. */
    method Write(n: int, again: bool) returns (r: int)
      requires Valid() && -1 <= n <= |Pending(Queue()[..Included(Queue())])|
      modifies this, bufs
      ensures Valid()
      ensures r == if n == -1 then (if again then 0 else -1) else if n == 0 then -2 else 0
      ensures n <= 0 ==> unchanged(this) && unchanged(old(bufs))
      ensures n > 0 ==> Queue() == Drain(Detach(old(Queue())), n)
      ensures n > 0 ==> closed == old(closed) + FdOf(AttachedFd(old(Queue())))
    {
      hide AbsAll, Pending, Drain, DrainClosed;
      var iov, at := Gather();
      if n == -1 {
        return if again then 0 else -1;
      }
      if n == 0 {
        return -2;
      }
      WriteClosesNothing(Queue(), n);
      if at < |bufs| && bufs[at].fd != -1 {
        CloseSent(at);
      }
      DrainBytes(n);
      return 0;
    }
  }
}
