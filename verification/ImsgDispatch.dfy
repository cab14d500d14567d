/** The dispatch loops of tnetacled.c and tnetacle.c: read once, then handle every whole message. */
module ImsgDispatch {
  import opened ByteOrder
  import opened ImsgWire
  import opened ImsgQueue
  import opened ImsgBuffer
  import opened ImsgEndpoint
  import opened ImsgChannel
  import opened ImsgRuns
  import opened PrivSep

  function Bufs(ms: seq<Sent>): seq<OutBuf>
    requires |ms| <= 1
  {
    if ms == [] then [] else [OutBuf(Encode(ms[0]), ms[0].fd)]
  }

  /** The privileged side in the middle of a dispatch: ok turns false on a malformed message. */
  datatype Dispatching = Dispatching(priv: Priv, queue: seq<OutBuf>, rest: seq<byte>, fds: seq<Fd>, ok: bool)

  /** What the next tnt_ttc_open yields; once opens is used up, nothing. */
  function Next(opens: seq<Opening>): Opening { if opens == [] then [] else opens[0] }

  function Later(opens: seq<Opening>): seq<Opening> { if opens == [] then [] else opens[1..] }

  /** Handles the messages in rest, in order, until none is complete; each may open a device of its own. */
  function HandleAll(d: Dispatching, pid: u32, opens: seq<Opening>): (e: Dispatching)
    decreases |d.rest|
    ensures e.ok ==> |e.rest| < MAX_IMSGSIZE
  {
    match ParseFront(d.rest)
    case Incomplete => d.(ok := true)
    case Malformed => d.(ok := false)
    case Frame(hdr, _) =>
      var m, open := FrontMsg(d.rest, d.fds), Next(opens);
      HandleAll(Dispatching(PrivReact(d.priv, m, open), d.queue + Bufs(PrivReplies(m, pid, open)),
                            d.rest[hdr.len..], FdsLeft(d.rest, d.fds), d.ok), pid, Later(opens))
  }

  /** The privileged side of the protocol model, in the middle of a dispatch. */
  function PrivSide(s: System): Dispatching { Dispatching(s.priv, s.down.queue, s.up.rbuf, s.up.rfds, true) }

  /**
   On a stream of composed messages the loop succeeds, whatever the devices do: it leaves the
   state in which PrivGets actions, as many as possible, leave the protocol model, with no
   complete message buffered and room for the next imsg_read.
   */
  lemma {:induction false} HandleAllPlays(s: System, g: Config, opens: seq<Opening>) returns (acts: seq<Action>)
    requires Inv(s.up)
    ensures (forall a <- acts :: a.PrivGets?) && Plays(s, g, acts)
    ensures var z := Final(s, g, acts);
            && HandleAll(PrivSide(s), g.privPid, opens) == PrivSide(z)
            && !CanGet(z.up) && |z.up.rbuf| < MAX_IMSGSIZE
    decreases |s.up.rbuf|
  {
    hide Inv, Encode, PrivReact, PrivReplies;
    Front(s.up);
    if !CanGet(s.up) {
      return [];
    }
    GetKeeps(s.up);
    var a := PrivGets(Next(opens));
    var t := Do(s, g, a);
    AnswerQueue(s.down, PrivReplies(Got(s.up), g.privPid, Next(opens)));
    acts := HandleAllPlays(t, g, Later(opens));
    acts := [a] + acts;
  }

  lemma AnswerQueue(c: Chan, ms: seq<Sent>)
    requires |ms| <= 1
    ensures Answer(c, ms).queue == c.queue + Bufs(ms)
  {
    hide Encode;
  }

  /** What b holds after data has been copied into it, followed by a NUL. */
  lemma {:induction false} TextCopied(data: seq<byte>, rest: seq<byte>)
    ensures CText(data + [0] + rest) == CText(data)
  {
    if data == [] {
      assert (data + [0] + rest)[0] == 0;
    } else {
      TextCopied(data[1..], rest);
      assert (data + [0] + rest)[1..] == data[1..] + [0] + rest;
    }
  }

  /** The local buffer of dispatch_imsg: cleared, filled, ended with a NUL, and read as a string. */
  method CopyAddress(data: seq<byte>) returns (text: seq<byte>)
    requires |data| < ADDRESS_BUFFER
    ensures text == CText(data)
  {
    var buf := new byte[ADDRESS_BUFFER](_ => 0);
    for i := 0 to |data|
      invariant buf[..i] == data[..i]
    {
      buf[i] := data[i];
    }
    buf[|data|] := 0;
    assert buf[..] == data + [0] + buf[|data| + 1..];
    TextCopied(data, buf[|data| + 1..]);
    text := CText(buf[..]);
  }

  class Privileged {
    const ibuf: Imsgbuf
    var dev: Opening
    var devices: seq<Fd>
    var addresses: seq<seq<byte>>
    var refused: nat
    var overruns: nat

    constructor (ibuf: Imsgbuf)
      requires ibuf.Valid()
      ensures this.ibuf == ibuf && Abs() == Priv([], [], [], 0, 0)
    {
      this.ibuf := ibuf;
      dev, devices, addresses, refused, overruns := [], [], [], 0, 0;
    }

    ghost function Abs(): Priv
      reads this
    {
      Priv(dev, devices, addresses, refused, overruns)
    }

    /**
     The switch of dispatch_imsg. An address that does not fit the buffer with its NUL is only
     counted: what the original does from there on is undefined.
     */
    method Handle(m: Msg, open: Opening)
      requires ibuf.Valid()
      modifies this, ibuf.w
      ensures ibuf.Valid() && Abs() == PrivReact(old(Abs()), m, open)
      ensures ibuf.w.Queue() == old(ibuf.w.Queue()) + Bufs(PrivReplies(m, ibuf.pid, open))
    {
      hide AbsAll, Encode;
      if m.typ == IMSG_CREATE_DEV {
        dev := open;
        if dev != [] {
          devices := devices + dev;
          var r := ibuf.Compose(IMSG_CREATE_DEV, 0, 0, dev[0], []);
        }
      } else if m.typ == IMSG_SET_IP {
        if dev == [] {
          refused := refused + 1;
        } else if |m.data| >= ADDRESS_BUFFER {
          overruns := overruns + 1;
        } else {
          var text := CopyAddress(m.data);
          addresses := addresses + [text];
        }
      }
    }

    ghost function State(): Dispatching
      reads this, ibuf, ibuf.rbuf, ibuf.w, ibuf.w.bufs
      requires ibuf.Valid()
    {
      Dispatching(Abs(), ibuf.w.Queue(), ibuf.Unread(), ibuf.fds, true)
    }

    /** The loop of dispatch_imsg. */
    method HandleMessages(opens: seq<Opening>) returns (r: int)
      requires ibuf.Valid()
      modifies this, ibuf, ibuf.rbuf, ibuf.w
      ensures ibuf.Valid()
      ensures var e := HandleAll(old(State()), ibuf.pid, opens); r == (if e.ok then 0 else -1) && State() == e.(ok := true)
      ensures r == 0 ==> ibuf.wpos < MAX_IMSGSIZE
    {
      hide ParseFront, FrontMsg, FdsLeft, AbsAll, PrivReact;
      var next := opens;
      while true
        invariant ibuf.Valid() && HandleAll(State(), ibuf.pid, next) == HandleAll(old(State()), ibuf.pid, opens)
        decreases ibuf.wpos
      {
        ghost var d := State();
        var n, m := ibuf.Get();
        if n == -1 {
          return -1;
        }
        if n == 0 {
          return 0;
        }
        Handle(m, Next(next));
        next := Later(next);
      }
    }

    /** dispatch_imsg. A temporary error of recvmsg still looks at what is buffered. */
    method Dispatch(res: RecvResult, opens: seq<Opening>) returns (r: int)
      requires ibuf.Valid() && Possible(res, IBUF_READ_SIZE - ibuf.wpos)
      modifies this, ibuf, ibuf.rbuf, ibuf.w
      ensures ibuf.Valid() && (r == 0 ==> ibuf.wpos < MAX_IMSGSIZE)
      ensures res == RecvError(false) ==> r == -1 && State() == old(State()).(queue := [], fds := [])
      ensures res.Received? && res.data == [] ==> r == -1 && State() == old(State()).(fds := old(ibuf.fds) + res.fds)
      ensures res == RecvError(true) || (res.Received? && res.data != []) ==>
                var d := if res.RecvError? then old(State()) else old(State()).(rest := old(ibuf.Unread()) + res.data, fds := old(ibuf.fds) + res.fds);
                var e := HandleAll(d, ibuf.pid, opens);
                r == (if e.ok then 0 else -1) && State() == e.(ok := true)
    {
      hide HandleAll, AbsAll;
      var n := ibuf.Read(res);
      if n == -1 {
        ibuf.Clear();
        return -1;
      }
      if n == 0 {
        assert ibuf.Unread() == old(ibuf.Unread());
        return -1;
      }
      r := HandleMessages(opens);
    }
  }

  /** The unprivileged side in the middle of a dispatch. */
  datatype Installing = Installing(installed: seq<Fd>, queue: seq<OutBuf>, rest: seq<byte>, fds: seq<Fd>, ok: bool)

  function InstallAll(d: Installing, g: Config): (e: Installing)
    decreases |d.rest|
    ensures e.ok ==> |e.rest| < MAX_IMSGSIZE
  {
    match ParseFront(d.rest)
    case Incomplete => d.(ok := true)
    case Malformed => d.(ok := false)
    case Frame(hdr, _) =>
      var m := FrontMsg(d.rest, d.fds);
      InstallAll(Installing(UnprivReact(d.installed, m), d.queue + Bufs(UnprivReplies(m, g)),
                            d.rest[hdr.len..], FdsLeft(d.rest, d.fds), d.ok), g)
  }

  function UnprivSide(s: System): Installing { Installing(s.installed, s.up.queue, s.down.rbuf, s.down.rfds, true) }

  /** The same for the unprivileged side and its UnprivGets actions. */
  lemma {:induction false} InstallAllPlays(s: System, g: Config) returns (acts: seq<Action>)
    requires Inv(s.down)
    ensures (forall a <- acts :: a.UnprivGets?) && Plays(s, g, acts)
    ensures var z := Final(s, g, acts);
            && InstallAll(UnprivSide(s), g) == UnprivSide(z)
            && !CanGet(z.down) && |z.down.rbuf| < MAX_IMSGSIZE
    decreases |s.down.rbuf|
  {
    hide Inv, Encode, UnprivReact, UnprivReplies;
    Front(s.down);
    if !CanGet(s.down) {
      return [];
    }
    GetKeeps(s.down);
    var t := Do(s, g, UnprivGets);
    AnswerQueue(s.up, UnprivReplies(Got(s.down), g));
    acts := InstallAllPlays(t, g);
    acts := [UnprivGets] + acts;
  }

  class Unprivileged {
    const ibuf: Imsgbuf
    var installed: seq<Fd>

    constructor (ibuf: Imsgbuf)
      requires ibuf.Valid()
      ensures this.ibuf == ibuf && installed == []
    {
      this.ibuf := ibuf;
      installed := [];
    }

    /** The switch of tnt_dispatch_imsg; imsg_compose gets the length of the address modulo 2^16. */
    method Handle(m: Msg, g: Config)
      requires ibuf.Valid() && g.unprivPid == ibuf.pid
      modifies this, ibuf.w
      ensures ibuf.Valid() && installed == UnprivReact(old(installed), m)
      ensures ibuf.w.Queue() == old(ibuf.w.Queue()) + Bufs(UnprivReplies(m, g))
    {
      hide AbsAll, Encode;
      if m.typ == IMSG_CREATE_DEV {
        installed := installed + [m.fd];
        var r := ibuf.Compose(IMSG_SET_IP, 0, 0, -1, AddressSent(g));
      }
    }

    ghost function State(): Installing
      reads this, ibuf, ibuf.rbuf, ibuf.w, ibuf.w.bufs
      requires ibuf.Valid()
    {
      Installing(installed, ibuf.w.Queue(), ibuf.Unread(), ibuf.fds, true)
    }

    /** The loop of tnt_dispatch_imsg. */
    method HandleMessages(g: Config) returns (r: int)
      requires ibuf.Valid() && g.unprivPid == ibuf.pid
      modifies this, ibuf, ibuf.rbuf, ibuf.w
      ensures ibuf.Valid()
      ensures var e := InstallAll(old(State()), g); r == (if e.ok then 0 else -1) && State() == e.(ok := true)
      ensures r == 0 ==> ibuf.wpos < MAX_IMSGSIZE
    {
      hide ParseFront, FrontMsg, FdsLeft, AbsAll, UnprivReact;
      while true
        invariant ibuf.Valid() && InstallAll(State(), g) == InstallAll(old(State()), g)
        decreases ibuf.wpos
      {
        ghost var d := State();
        var n, m := ibuf.Get();
        if n == 0 || n == -1 {
          return if n == -1 then -1 else 0;
        }
        Handle(m, g);
      }
    }

    /** tnt_dispatch_imsg. */
    method Dispatch(res: RecvResult, g: Config) returns (r: int)
      requires ibuf.Valid() && g.unprivPid == ibuf.pid
      requires Possible(res, IBUF_READ_SIZE - ibuf.wpos)
      modifies this, ibuf, ibuf.rbuf, ibuf.w
      ensures ibuf.Valid() && (r == 0 ==> ibuf.wpos < MAX_IMSGSIZE)
      ensures res == RecvError(false) ==> r == -1 && State() == old(State()).(queue := [], fds := [])
      ensures res.Received? && res.data == [] ==> r == -1 && State() == old(State()).(fds := old(ibuf.fds) + res.fds)
      ensures res == RecvError(true) || (res.Received? && res.data != []) ==>
                var d := if res.RecvError? then old(State()) else old(State()).(rest := old(ibuf.Unread()) + res.data, fds := old(ibuf.fds) + res.fds);
                var e := InstallAll(d, g);
                r == (if e.ok then 0 else -1) && State() == e.(ok := true)
    {
      hide InstallAll, AbsAll;
      var n := ibuf.Read(res);
      if n == -1 {
        ibuf.Clear();
        return -1;
      }
      if n == 0 {
        assert ibuf.Unread() == old(ibuf.Unread());
        return -1;
      }
      r := HandleMessages(g);
    }
  }
}
