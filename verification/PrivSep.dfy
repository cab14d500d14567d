/**
 The privileged and the unprivileged process over the two directions of their socket
 pair. Every step is a step of one channel, or the handling of one message returned by
 imsg_get; the two processes and the kernel interleave freely.
 */
module PrivSep {
  import opened Sequences
  import opened ByteOrder
  import opened ImsgWire
  import opened ImsgQueue
  import opened ImsgChannel
  import opened ImsgRuns

  const IMSG_CREATE_DEV: u32 := 1
  const IMSG_SET_IP: u32 := 2

  /** The size of the buffer into which the privileged side copies an address. */
  const ADDRESS_BUFFER: nat := 128

  /** The bytes of a C string. */
  type Text = s: seq<byte> | 0 !in s

  /** What tnt_ttc_open yields: nothing, or a device with a descriptor. */
  type Opening = s: seq<Fd> | |s| <= 1 && -1 !in s

  /** The process ids, and the configured address of the device. */
  datatype Config = Config(privPid: u32, unprivPid: u32, addr: Text)

  /** What the privileged process keeps and does besides its channel. */
  datatype Priv = Priv(
    dev: Opening,               // the static dev of tnetacled.c: the descriptor it was opened with
    devices: seq<Fd>,           // descriptors of all devices opened
    addresses: seq<seq<byte>>,  // addresses set on the device
    refused: nat,               // SET_IP requests that found no device
    overruns: nat)              // SET_IP requests whose address does not fit the buffer

  datatype System = System(
    up: Chan,              // unprivileged to privileged
    down: Chan,            // privileged to unprivileged
    priv: Priv,
    closed: seq<Fd>,       // descriptors the privileged process has closed after sending them
    installed: seq<Fd>)    // descriptors passed to server_set_device

  function CreateRequest(g: Config): Sent { Msg(IMSG_CREATE_DEV, 0, g.unprivPid, [], -1) }
  function CreateReply(g: Config, fd: Fd): Sent { Msg(IMSG_CREATE_DEV, 0, g.privPid, [], fd) }

  /** The bytes given to imsg_compose, whose length argument has 16 bits. */
  function AddressSent(g: Config): seq<byte> { g.addr[..|g.addr| % 0x1_0000] }

  predicate AddressFits(g: Config) { |AddressSent(g)| <= MAX_IMSGSIZE - IMSG_HEADER_SIZE }
  function SetIp(g: Config): Sent
    requires AddressFits(g)
  {
    Msg(IMSG_SET_IP, 0, g.unprivPid, AddressSent(g), -1)
  }

  /** The C string at the front of b. */
  function CText(b: seq<byte>): (t: Text)
    ensures t <= b && (|t| < |b| ==> b[|t|] == 0)
  {
    if b == [] || b[0] == 0 then [] else [b[0]] + CText(b[1..])
  }

  /** dispatch_imsg on one message; open is what tnt_ttc_open yields. */
  function PrivReact(p: Priv, m: Msg, open: Opening): Priv {
    if m.typ == IMSG_CREATE_DEV then p.(dev := open, devices := p.devices + open)
    else if m.typ != IMSG_SET_IP then p
    else if p.dev == [] then p.(refused := p.refused + 1)
    else if |m.data| >= ADDRESS_BUFFER then p.(overruns := p.overruns + 1)
    else p.(addresses := p.addresses + [CText(m.data)])
  }

  function PrivReplies(m: Msg, pid: u32, open: Opening): (ms: seq<Sent>)
    ensures |ms| <= 1
  {
    if m.typ == IMSG_CREATE_DEV && open != [] then [Msg(IMSG_CREATE_DEV, 0, pid, [], open[0])] else []
  }

  /**
   Every CREATE_DEV opens the device anew and replaces what is known of it: after one that fails, an
   address is refused although a device is open.
   */
  lemma ReopenForgets(p: Priv, c: Msg, ip: Msg, fd: Fd)
    requires c.typ == 1 && ip.typ == 2 && fd != -1
    ensures var q := PrivReact(PrivReact(PrivReact(p, c, [fd]), c, []), ip, []);
            q.devices == p.devices + [fd] && q.dev == [] && q.refused == p.refused + 1 && q.addresses == p.addresses
    ensures PrivReact(PrivReact(p, c, [fd]), c, [fd]).devices == p.devices + [fd, fd]
  {
  }

  /** tnt_dispatch_imsg on one message. */
  function UnprivReact(installed: seq<Fd>, m: Msg): seq<Fd> {
    if m.typ == IMSG_CREATE_DEV then installed + [m.fd] else installed
  }

  function UnprivReplies(m: Msg, g: Config): (ms: seq<Sent>)
    ensures |ms| <= 1
  {
    if m.typ == IMSG_CREATE_DEV && AddressFits(g) then [SetIp(g)] else []
  }

  function Answer(c: Chan, ms: seq<Sent>): Chan
    requires |ms| <= 1
  {
    if ms == [] then c else Compose(c, ms[0])
  }

  /** tnt_fork requests the device before its event loop starts. */
  function Start(g: Config): System {
    System(Compose(Empty, CreateRequest(g)), Empty, Priv([], [], [], 0, 0), [], [])
  }

  function PrivHandle(s: System, g: Config, open: Opening): System
    requires CanGet(s.up)
  {
    var m := Got(s.up);
    s.(up := Get(s.up), priv := PrivReact(s.priv, m, open), down := Answer(s.down, PrivReplies(m, g.privPid, open)))
  }

  function UnprivHandle(s: System, g: Config): System
    requires CanGet(s.down)
  {
    var m := Got(s.down);
    s.(down := Get(s.down), installed := UnprivReact(s.installed, m), up := Answer(s.up, UnprivReplies(m, g)))
  }

  datatype Action =
    | MoveUp(step: Step)      // a write or a read on the way up
    | MoveDown(step: Step)    // a write or a read on the way down
    | PrivGets(open: Opening)
    | UnprivGets

  predicate Moves(step: Step) { step.DoWrite? || step.DoRead? }

  predicate Can(s: System, a: Action) {
    match a
    case MoveUp(step) => Moves(step) && Enabled(s.up, step)
    case MoveDown(step) => Moves(step) && Enabled(s.down, step)
    case PrivGets(_) => CanGet(s.up)
    case UnprivGets => CanGet(s.down)
  }

  /** msgbuf_write closes the descriptor it has sent. */
  function ClosedBy(c: Chan, step: Step): seq<Fd> { if step.DoWrite? then FdOf(AttachedFd(c.queue)) else [] }

  function Do(s: System, g: Config, a: Action): System
    requires Can(s, a)
  {
    match a
    case MoveUp(step) => s.(up := Apply(s.up, step))
    case MoveDown(step) => s.(down := Apply(s.down, step), closed := s.closed + ClosedBy(s.down, step))
    case PrivGets(open) => PrivHandle(s, g, open)
    case UnprivGets => UnprivHandle(s, g)
  }

  function Replies(g: Config, devices: seq<Fd>): (ms: seq<Sent>)
    ensures |ms| == |devices|
  {
    seq(|devices|, i requires 0 <= i < |devices| => CreateReply(g, devices[i]))
  }

  /** What every interleaving keeps. */
  predicate Agreed(s: System, g: Config) {
    && Inv(s.up) && Inv(s.down)
    && |s.priv.devices| <= 1 && s.priv.dev == s.priv.devices && (s.up.got == [] ==> s.priv.devices == [])
    && s.up.sent == [CreateRequest(g)] + (if s.installed != [] && AddressFits(g) then [SetIp(g)] else [])
    && s.down.sent == Replies(g, s.priv.devices)
    && s.installed == s.priv.devices[..|s.down.got|]
    && s.closed + QueueFds(s.down.queue) == s.priv.devices
    && s.priv.refused == 0
    && s.priv.addresses == (if |s.up.got| == 2 && |AddressSent(g)| < ADDRESS_BUFFER then [AddressSent(g)] else [])
    && s.priv.overruns == (if |s.up.got| == 2 && |AddressSent(g)| >= ADDRESS_BUFFER then 1 else 0)
  }

  lemma StartAgreed(g: Config)
    ensures Agreed(Start(g), g)
  {
    hide Inv, Encode;
    EmptyInv();
    ComposeKeeps(Empty, CreateRequest(g));
  }

  lemma {:induction false} CTextWhole(b: seq<byte>)
    requires 0 !in b
    ensures CText(b) == b
  {
    if b != [] { CTextWhole(b[1..]); }
  }

  lemma SentText(g: Config)
    ensures CText(AddressSent(g)) == AddressSent(g)
  {
    CTextWhole(AddressSent(g));
  }

  lemma Queued(q: seq<OutBuf>, m: Sent)
    ensures QueueFds(q + [OutBuf(Encode(m), m.fd)]) == QueueFds(q) + FdOf(m.fd)
  {
    hide Encode;
    FdsAppend(q, [OutBuf(Encode(m), m.fd)]);
  }

  /** The first message is the request for the device, the second the address. */
  lemma PrivCreates(s: System, g: Config, open: Opening)
    requires CanGet(s.up) && Agreed(s, g) && s.up.got == []
    ensures Agreed(PrivHandle(s, g, open), g)
  {
    hide Inv, Encode, QueueFds, CText, AddressSent;
    GotDue(s.up);
    GetKeeps(s.up);
    GotDue(s.down);
    if open != [] {
      ComposeKeeps(s.down, CreateReply(g, open[0]));
      Queued(s.down.queue, CreateReply(g, open[0]));
    }
  }

  lemma PrivSets(s: System, g: Config, open: Opening)
    requires CanGet(s.up) && Agreed(s, g) && s.up.got != []
    ensures Agreed(PrivHandle(s, g, open), g)
  {
    hide Inv, Encode, QueueFds, CText, AddressSent;
    GotDue(s.up);
    GetKeeps(s.up);
    GotDue(s.down);
    SentText(g);
  }

  lemma PrivKeeps(s: System, g: Config, open: Opening)
    requires CanGet(s.up) && Agreed(s, g)
    ensures Agreed(PrivHandle(s, g, open), g)
  {
    hide *;
    if s.up.got == [] {
      PrivCreates(s, g, open);
    } else {
      PrivSets(s, g, open);
    }
  }

  lemma UnprivKeeps(s: System, g: Config)
    requires CanGet(s.down) && Agreed(s, g)
    ensures Agreed(UnprivHandle(s, g), g)
  {
    hide Inv, Encode, QueueFds;
    GotDue(s.down);
    GetKeeps(s.down);
    GotDue(s.up);
    if AddressFits(g) { ComposeKeeps(s.up, SetIp(g)); }
  }

  /** The message returned is the next one sent. */
  lemma GotDue(c: Chan)
    requires Inv(c)
    ensures |c.got| <= |c.sent| && c.got == c.sent[..|c.got|]
    ensures CanGet(c) ==> |c.got| < |c.sent| && Got(c) == c.sent[|c.got|]
  {
    if CanGet(c) { GotNext(c); }
  }

  lemma MoveKeeps(c: Chan, step: Step)
    requires Inv(c) && Moves(step) && Enabled(c, step)
    ensures Inv(Apply(c, step)) && Apply(c, step).sent == c.sent && Apply(c, step).got == c.got
  {
    StepKeeps(c, step);
  }

  lemma MoveCloses(c: Chan, step: Step)
    requires Inv(c) && Moves(step) && Enabled(c, step)
    ensures ClosedBy(c, step) + QueueFds(Apply(c, step).queue) == QueueFds(c.queue)
  {
    hide Inv, Encode, QueueFds;
    if step.DoWrite? { WroteQueue(c, step.n); }
  }

  lemma DoKeeps(s: System, g: Config, a: Action)
    requires Agreed(s, g) && Can(s, a)
    ensures Agreed(Do(s, g, a), g)
  {
    hide Inv, Encode, QueueFds, ClosedBy, Apply, PrivHandle, UnprivHandle;
    match a
    case MoveUp(step) => MoveKeeps(s.up, step);
    case MoveDown(step) =>
      MoveKeeps(s.down, step);
      MoveCloses(s.down, step);
      Assoc(s.closed, ClosedBy(s.down, step), QueueFds(Apply(s.down, step).queue));
    case PrivGets(open) => PrivKeeps(s, g, open);
    case UnprivGets => UnprivKeeps(s, g);
  }

  predicate Plays(s: System, g: Config, acts: seq<Action>)
    decreases |acts|
  {
    acts == [] || (Can(s, acts[0]) && Plays(Do(s, g, acts[0]), g, acts[1..]))
  }

  function Final(s: System, g: Config, acts: seq<Action>): System
    requires Plays(s, g, acts)
    decreases |acts|
  {
    if acts == [] then s else Final(Do(s, g, acts[0]), g, acts[1..])
  }

  lemma {:induction false} PlayKeeps(s: System, g: Config, acts: seq<Action>)
    requires Agreed(s, g) && Plays(s, g, acts)
    ensures Agreed(Final(s, g, acts), g)
    decreases |acts|
  {
    hide Agreed;
    if acts != [] {
      DoKeeps(s, g, acts[0]);
      PlayKeeps(Do(s, g, acts[0]), g, acts[1..]);
    }
  }

  /** The privileged side has handled a SET_IP. */
  predicate SetIpHandled(s: System) { exists m <- s.up.got :: m.typ == IMSG_SET_IP }

  lemma NothingQueued(c: Chan)
    requires Inv(c) && c.got == c.sent
    ensures QueueFds(c.queue) == []
  {
  }

  lemma SecondIsSetIp(s: System, g: Config)
    requires Agreed(s, g)
    ensures SetIpHandled(s) <==> |s.up.got| == 2
    ensures SetIpHandled(s) ==> s.installed == s.priv.devices == s.closed != []
  {
    hide Inv, QueueFds;
    GotDue(s.up);
    GotDue(s.down);
    if |s.up.got| == 2 {
      assert s.up.got[1] == SetIp(g);
      NothingQueued(s.down);
    }
  }

  lemma Meanwhile(s: System, g: Config)
    requires Agreed(s, g)
    ensures |s.priv.devices| <= 1 && s.installed <= s.priv.devices && s.priv.refused == 0
    ensures s.priv.overruns == 0 <==> !SetIpHandled(s) || |AddressSent(g)| < ADDRESS_BUFFER
    ensures s.priv.addresses == (if SetIpHandled(s) && s.priv.overruns == 0 then [AddressSent(g)] else [])
  {
    hide Inv, QueueFds, SetIpHandled, AddressSent, AddressFits;
    GotDue(s.down);
    SecondIsSetIp(s, g);
  }

  lemma AtRest(s: System, g: Config)
    requires Agreed(s, g) && Quiet(s.up) && Quiet(s.down)
    ensures s.installed == s.priv.devices == s.closed
    ensures SetIpHandled(s) <==> s.priv.devices != [] && AddressFits(g)
    ensures s.priv.addresses == [g.addr] <==> s.priv.devices != [] && |g.addr| < ADDRESS_BUFFER
  {
    hide Inv, Quiet, QueueFds, SetIpHandled;
    SecondIsSetIp(s, g);
    QuietDelivered(s.up);
    QuietDelivered(s.down);
    NothingQueued(s.down);
    if |g.addr| < 0x1_0000 {
      assert AddressSent(g) == g.addr;
    }
    if s.priv.addresses == [g.addr] {
      assert AddressSent(g) == s.priv.addresses[0] == g.addr;
    }
  }

  lemma SentLength(g: Config)
    ensures AddressSent(g) == g.addr[..|g.addr| % 0x1_0000] && |AddressSent(g)| == |g.addr| % 0x1_0000
    ensures (AddressFits(g) <==> |g.addr| % 0x1_0000 <= 16384 - 16) && ADDRESS_BUFFER == 128
  {
  }

  /**
   In every interleaving at most one device is opened, the unprivileged side installs at
   most once and only the descriptor of that device, and a SET_IP is handled only when the
   device exists, is installed and its descriptor closed on the privileged side. The
   address buffer is overrun exactly if a SET_IP was handled and the address sent is too
   long for it. When nothing is left to move, the exchange is complete, and the configured
   address has been set exactly if there is a device and the address fits the buffer.
   */
  lemma Handshake(g: Config, acts: seq<Action>)
    requires Plays(Start(g), g, acts)
    ensures var s := Final(Start(g), g, acts);
            && |s.priv.devices| <= 1 && s.installed <= s.priv.devices && s.priv.refused == 0
            && (SetIpHandled(s) ==> s.installed == s.priv.devices == s.closed != [])
            && (s.priv.overruns == 0 <==> !SetIpHandled(s) || |g.addr| % 0x1_0000 < 128)
            && s.priv.addresses == (if SetIpHandled(s) && s.priv.overruns == 0 then [g.addr[..|g.addr| % 0x1_0000]] else [])
            && (Quiet(s.up) && Quiet(s.down) ==>
                  && s.installed == s.priv.devices == s.closed
                  && (SetIpHandled(s) <==> s.priv.devices != [] && |g.addr| % 0x1_0000 <= 16384 - 16)
                  && (s.priv.addresses == [g.addr] <==> s.priv.devices != [] && |g.addr| < 128))
  {
    hide *;
    SentLength(g);
    StartAgreed(g);
    PlayKeeps(Start(g), g, acts);
    var s := Final(Start(g), g, acts);
    SecondIsSetIp(s, g);
    Meanwhile(s, g);
    if Quiet(s.up) && Quiet(s.down) {
      AtRest(s, g);
    }
  }

  /** Whatever tnt_ttc_open yields, some interleaving brings the exchange to rest. */
  lemma {:induction false} ComesToRest(s: System, g: Config, open: Opening) returns (acts: seq<Action>)
    requires Agreed(s, g) && (s.up.got == [] || s.priv.devices == open)
    ensures Plays(s, g, acts)
    ensures var z := Final(s, g, acts); Quiet(z.up) && Quiet(z.down) && z.priv.devices == open
    decreases 3 - |s.up.sent| - |s.down.sent|, Left(s.up) + Left(s.down)
  {
    hide Agreed, Left, CanWrite, CanRead, CanGet;
    if Quiet(s.up) && Quiet(s.down) {
      RestOpen(s, g, open);
      return [];
    }
    var a := if CanGet(s.up) then PrivGets(open) else if CanGet(s.down) then UnprivGets
             else if CanWrite(s.up, 1) then MoveUp(DoWrite(1)) else if CanRead(s.up, 1) then MoveUp(DoRead(1))
             else if CanWrite(s.down, 1) then MoveDown(DoWrite(1)) else MoveDown(DoRead(1));
    DoKeeps(s, g, a);
    DoProgress(s, g, a);
    DevicesAfter(s, g, a, open);
    acts := ComesToRest(Do(s, g, a), g, open);
    acts := [a] + acts;
  }

  lemma RestOpen(s: System, g: Config, open: Opening)
    requires Agreed(s, g) && Quiet(s.up) && (s.up.got == [] || s.priv.devices == open)
    ensures s.priv.devices == open
  {
    hide Inv, QueueFds, Quiet;
    QuietDelivered(s.up);
  }

  lemma DevicesAfter(s: System, g: Config, a: Action, open: Opening)
    requires Agreed(s, g) && Can(s, a) && (a.PrivGets? ==> a.open == open)
    requires s.up.got == [] || s.priv.devices == open
    ensures Do(s, g, a).up.got == [] || Do(s, g, a).priv.devices == open
  {
    hide Inv, Encode, QueueFds;
    GotDue(s.up);
    if a.MoveUp? { MoveKeeps(s.up, a.step); }
  }

  /** With an address of 128 bytes, one more than fits, an ordinary exchange overruns the buffer. */
  lemma OverrunAt128(g: Config, fd: Fd) returns (acts: seq<Action>)
    requires |g.addr| == ADDRESS_BUFFER && fd != -1
    ensures Plays(Start(g), g, acts)
    ensures var z := Final(Start(g), g, acts); z.priv.devices == [fd] && z.priv.overruns > 0 && z.priv.addresses == []
  {
    hide Quiet, Agreed, Plays;
    StartAgreed(g);
    acts := ComesToRest(Start(g), g, [fd]);
    Handshake(g, acts);
  }

  /** Every action uses up a bounded resource, so every interleaving ends. */
  function Remaining(s: System): (int, int) {
    (3 - |s.up.sent| - |s.down.sent|, Left(s.up) + Left(s.down))
  }

  lemma DoProgress(s: System, g: Config, a: Action)
    requires Agreed(s, g) && Can(s, a)
    ensures var (m, n) := Remaining(s); var (m', n') := Remaining(Do(s, g, a));
            0 <= m' && 0 <= n' && (m' < m || (m' == m && n' < n))
  {
    hide Inv, Left;
    DoKeeps(s, g, a);
    match a
    case MoveUp(step) => StepProgress(s.up, step);
    case MoveDown(step) => StepProgress(s.down, step);
    case PrivGets(open) =>
      StepProgress(s.up, DoGet);
    case UnprivGets =>
      StepProgress(s.down, DoGet);
  }
}
