/** Every interleaving of composing, writing, reading and getting. */
module ImsgRuns {
  import opened ImsgWire
  import opened ImsgQueue
  import opened ImsgChannel

  datatype Step = DoCompose(m: Sent) | DoWrite(n: nat) | DoRead(n: nat) | DoGet

  predicate Enabled(c: Chan, s: Step) {
    match s
    case DoCompose(_) => true
    case DoWrite(n) => CanWrite(c, n)
    case DoRead(n) => CanRead(c, n)
    case DoGet => CanGet(c)
  }

  function Apply(c: Chan, s: Step): Chan
    requires Enabled(c, s)
  {
    match s
    case DoCompose(m) => Compose(c, m)
    case DoWrite(n) => Write(c, n)
    case DoRead(n) => Read(c, n)
    case DoGet => Get(c)
  }

  /** Whether the steps can be taken one after the other, and where they lead. */
  predicate Runs(c: Chan, ss: seq<Step>)
    decreases |ss|
  {
    ss == [] || (Enabled(c, ss[0]) && Runs(Apply(c, ss[0]), ss[1..]))
  }

  function After(c: Chan, ss: seq<Step>): Chan
    requires Runs(c, ss)
    decreases |ss|
  {
    if ss == [] then c else After(Apply(c, ss[0]), ss[1..])
  }

  lemma StepKeeps(c: Chan, s: Step)
    requires Inv(c) && Enabled(c, s)
    ensures Inv(Apply(c, s))
  {
    hide Inv;
    match s
    case DoCompose(m) => ComposeKeeps(c, m);
    case DoWrite(n) => WriteKeeps(c, n);
    case DoRead(n) => ReadKeeps(c, n);
    case DoGet => GetKeeps(c);
  }

  lemma {:induction false} RunKeeps(c: Chan, ss: seq<Step>)
    requires Inv(c) && Runs(c, ss)
    ensures Inv(After(c, ss))
    decreases |ss|
  {
    hide Inv;
    if ss != [] {
      StepKeeps(c, ss[0]);
      RunKeeps(Apply(c, ss[0]), ss[1..]);
    }
  }

  /**
   In every run from an empty channel: the messages returned are a prefix of those
   composed, descriptors included; imsg_get never reports a malformed message and never
   misses a descriptor; and once it has nothing to return, imsg_read has room.
   */
  lemma Delivery(ss: seq<Step>)
    requires Runs(Empty, ss)
    ensures var c := After(Empty, ss);
            && c.got <= c.sent
            && !ParseFront(c.rbuf).Malformed?
            && (CanGet(c) && HasFd(ParseFront(c.rbuf).hdr) ==> c.rfds != [])
            && (!CanGet(c) ==> |c.rbuf| < MAX_IMSGSIZE < IBUF_READ_SIZE)
  {
    EmptyInv();
    RunKeeps(Empty, ss);
    var c := After(Empty, ss);
    Front(c);
    if CanGet(c) { GotNext(c); }
  }

  /** Nothing is left to move: no byte queued or in the kernel, no message to return. */
  predicate Quiet(c: Chan) { !CanWrite(c, 1) && !CanRead(c, 1) && !CanGet(c) }

  /** A channel comes to rest only when every message composed has been returned. */
  lemma QuietDelivered(c: Chan)
    requires Inv(c) && Quiet(c)
    ensures c.got == c.sent && c.rfds == []
  {
    hide CanWrite, CanRead, CanGet, Stream, Pending, Bytes, Aligned;
    if c.kernel != [] { Readable(c); }
    if c.queue != [] { FirstPending(c); }
    if Due(c) != [] { WholeFront(c); }
  }

  /** A byte in the kernel can be read. */
  lemma Readable(c: Chan)
    requires Inv(c) && !CanGet(c) && c.kernel != []
    ensures CanRead(c, 1)
  {
    hide Inv;
    Front(c);
    assert c.kernel[..1] == [c.kernel[0]];
    CellFdsOne(c.kernel[0]);
  }

  lemma CellFdsOne(k: Cell)
    ensures CellFds([k]) == FdOf(k.fd)
  {
  }

  /** A queued message can be written. */
  lemma FirstPending(c: Chan)
    requires Inv(c) && c.queue != []
    ensures CanWrite(c, 1)
  {
    var q := c.queue[..Included(c.queue)];
    assert q[0] == c.queue[0];
    assert Remains(q[0], Due(c)[|Due(c)| - |c.queue|..][0]);
    assert Pending(q) == q[0].pending + Pending(q[1..]);
  }

  /** With everything received, the next message can be returned. */
  lemma WholeFront(c: Chan)
    requires Inv(c) && Due(c) != [] && c.kernel == [] && c.queue == []
    ensures CanGet(c)
  {
    hide Encode;
    OpenDue(Due(c), 0);
    assert c.rbuf == Stream(Due(c));
    ParseEncoded(Due(c)[0], c.rbuf, Stream(Due(c)[1..]));
  }

  /** Each write, read and get brings the channel closer to rest. */
  function Left(c: Chan): nat { 3 * |Pending(c.queue)| + 2 * |c.kernel| + |c.rbuf| }

  lemma StepProgress(c: Chan, s: Step)
    requires Inv(c) && Enabled(c, s) && !s.DoCompose?
    ensures Left(Apply(c, s)) < Left(c) && Apply(c, s).sent == c.sent
  {
    hide Encode, Pending, Aligned;
    if s.DoWrite? { WroteQueue(c, s.n); }
  }

  /** From every reachable state writes, reads and gets lead to full delivery. */
  lemma {:induction false} Completes(c: Chan) returns (ss: seq<Step>)
    requires Inv(c)
    ensures Runs(c, ss) && After(c, ss).got == c.sent
    decreases Left(c)
  {
    hide Inv, Left;
    if Quiet(c) {
      QuietDelivered(c);
      return [];
    }
    var s := if CanWrite(c, 1) then DoWrite(1) else if CanRead(c, 1) then DoRead(1) else DoGet;
    StepKeeps(c, s);
    StepProgress(c, s);
    ss := Completes(Apply(c, s));
    ss := [s] + ss;
  }
}
