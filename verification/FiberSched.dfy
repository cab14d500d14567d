/**
 src/sched.c as a machine. A fiber runs inside an activation of sched_fiber_launch or
 sched_dispatch, each with a context of its own on the C stack; the innermost activation is
 the last one. A fiber that stops running transfers control to whatever context origin_ctx
 names. Control is lost when it goes to a context that is gone: one no longer on the stack, or
 that of a fiber that has exited, whose events the original leaves added.
 */
module FiberSched {
  import opened Sequences

  datatype OpType = NONE | READ | WRITE | ACCEPT | RECVFROM | SENDTO | SEND | RECV | YIELD | FREE | EVENT

  /** The event flags EV_READ and EV_WRITE. */
  datatype Dir = In | Out

  const EV_TIMEOUT := 1
  const EV_READ := 2
  const EV_WRITE := 4

  /** A call that suspends the fiber: async_event (for EV_READ), async_yield or one of the transfers. */
  datatype Call = Call(typ: OpType, fd: int, args: seq<int>)

  predicate IsTransfer(c: Call) { c.typ in {READ, WRITE, ACCEPT, RECVFROM, SENDTO, SEND, RECV} }

  predicate IsCall(c: Call) { IsTransfer(c) || c.typ == EVENT || c.typ == YIELD }

  function DirOf(typ: OpType): Dir { if typ in {WRITE, SENDTO, SEND} then Out else In }

  /** fib_op: the operation sched_dispatch is to perform, and its result. */
  datatype Op = Op(typ: OpType, args: seq<int>, ret: int)

  /** The operation a call leaves for sched_dispatch; async_sendto leaves SEND. */
  function Recorded(c: Call): OpType { if c.typ == SENDTO then SEND else c.typ }

  datatype Status = Fresh | Running | Suspended | Dead

  datatype Fiber = Fiber(
    status: Status,
    op: Op,
    call: Call,                      // the call it is suspended in
    events: map<int, set<Dir>>,      // map_fe: the events made for each descriptor
    armed: set<(int, Dir)>,          // the events added that have not fired
    woken: bool)                     // yield_event made active

  datatype Activation =
    | Dispatching(ctx: nat, fiber: nat)
    | Launching(ctx: nat, fiber: nat, save: nat)

  /** A system call made for a fiber, with its result. */
  datatype Ran = Ran(typ: OpType, args: seq<int>, result: int)

  /** A call that came back to its fiber: what was run for it and what it returned. */
  datatype Return = Return(fiber: nat, call: Call, ran: seq<Ran>, value: int)

  datatype Machine = Machine(
    origin: nat,
    stack: seq<Activation>,
    fibers: seq<Fiber>,
    nextCtx: nat,
    made: seq<(nat, int, Dir)>,      // every event_new for a descriptor
    returned: seq<Return>,
    lost: bool)                      // control went to a context that is gone

  const INIT := Machine(0, [], [], 1, [], [], false)

  const NEW_FIBER := Fiber(Fresh, Op(NONE, [], 0), Call(NONE, -1, []), map[], {}, false)

  function Top(m: Machine): Activation
    requires m.stack != []
  {
    m.stack[|m.stack| - 1]
  }

  /** The position of the activation with the given context, or the length of the stack. */
  function Position(stack: seq<Activation>, ctx: nat): (i: nat)
    ensures i <= |stack| && (i < |stack| ==> stack[i].ctx == ctx)
    ensures forall j :: 0 <= j < i ==> stack[j].ctx != ctx
  {
    if stack == [] || stack[0].ctx == ctx then 0 else
      var i := Position(stack[1..], ctx);
      assert forall j :: 0 < j < 1 + i ==> stack[j] == stack[1..][j - 1];
      1 + i
  }

  /** The running fiber transfers to origin_ctx; a launch that is resumed puts back the origin it saved. */
  function Transfer(m: Machine): Machine {
    var i := Position(m.stack, m.origin);
    if i == |m.stack| then m.(lost := true)
    else if m.stack[i].Launching? then m.(stack := m.stack[..i], origin := m.stack[i].save)
    else m.(stack := m.stack[..i])
  }

  predicate HasEvent(events: map<int, set<Dir>>, fd: int, dir: Dir) { fd in events && dir in events[fd] }

  /** The table get_events leaves behind. */
  function WithEvent(events: map<int, set<Dir>>, fd: int, dir: Dir): map<int, set<Dir>> {
    events[fd := (if fd in events then events[fd] else {}) + {dir}]
  }

  /** The event get_events makes, if the fiber has none yet. */
  function Made(f: nat, b: Fiber, c: Call): seq<(nat, int, Dir)> {
    if c.typ == YIELD || HasEvent(b.events, c.fd, DirOf(c.typ)) then [] else [(f, c.fd, DirOf(c.typ))]
  }

  /** The fiber suspended in c. */
  function Waiting(b: Fiber, c: Call): Fiber {
    var op := Op(Recorded(c), c.args, if c.typ == EVENT then 0 else b.op.ret);
    if c.typ == YIELD then b.(status := Suspended, op := op, call := c)
    else b.(status := Suspended, op := op, call := c,
            events := WithEvent(b.events, c.fd, DirOf(c.typ)), armed := b.armed + {(c.fd, DirOf(c.typ))})
  }

  /** What makes sched_dispatch run: an event on a descriptor, or yield_event. */
  datatype Wakeup = Io(fd: int, dir: Dir) | Timeout

  predicate Pending(b: Fiber, w: Wakeup) { if w.Io? then (w.fd, w.dir) in b.armed else b.woken }

  /** The system call sched_dispatch makes, if any. */
  function Runs(op: Op, w: Wakeup, result: int): seq<Ran> {
    if w.Io? && op.typ in (if w.dir == In then {ACCEPT, RECVFROM, RECV, READ} else {SEND, SENDTO, WRITE})
    then [Ran(op.typ, op.args, result)]
    else []
  }

  /** fib_op.ret when sched_dispatch resumes the fiber. */
  function RetAfter(op: Op, w: Wakeup, result: int): int {
    if Runs(op, w, result) != [] then result
    else if op.typ == EVENT then Flagged(op.ret, if w.Timeout? then EV_TIMEOUT else if w.dir == In then EV_READ else EV_WRITE)
    else op.ret
  }

  /** ret with the bit of one flag set. */
  function Flagged(ret: int, flag: int): int
    requires flag > 0
  {
    if (ret / flag) % 2 == 1 then ret else ret + flag
  }

  /** The fiber resumed by w, where the system call, if there is one, returns result. */
  function Resumed(b: Fiber, w: Wakeup, result: int): Fiber {
    b.(status := Running, op := Op(b.op.typ, b.op.args, RetAfter(b.op, w, result)),
       armed := if w.Io? then b.armed - {(w.fd, w.dir)} else b.armed, woken := b.woken && w.Io?)
  }

  function Exited(b: Fiber): Fiber {
    b.(status := Dead, op := Op(FREE, b.op.args, b.op.ret), events := map[], woken := false)
  }

  datatype Action =
    | NewFiber
    | Launch(f: nat)                              // by the main program or the running fiber; meant for new fibers
    | Dispatch(f: nat, w: Wakeup, result: int)    // by the event loop
    | Await(call: Call)                           // by the running fiber
    | Exit                                        // by the running fiber
    | Wake(f: nat)                                // async_wake, by anyone

  predicate Can(m: Machine, a: Action) {
    && !m.lost
    && match a
       case NewFiber => true
       case Launch(f) => f < |m.fibers|
       case Dispatch(f, w, _) => m.stack == [] && f < |m.fibers| && Pending(m.fibers[f], w)
       case Await(c) => m.stack != [] && Top(m).fiber < |m.fibers| && IsCall(c)
       case Exit => m.stack != [] && Top(m).fiber < |m.fibers|
       case Wake(f) => f < |m.fibers|
  }

  /**
   The step uses what is no longer there: the context of a fiber that has exited or is running
   already, or the yield_event of one that has exited.
   */
  predicate Loses(m: Machine, a: Action)
    requires Can(m, a)
  {
    match a
    case Launch(f) => m.fibers[f].status in {Running, Dead}
    case Dispatch(f, _, _) => m.fibers[f].status in {Running, Dead}
    case Wake(f) => m.fibers[f].status == Dead
    case _ => false
  }

  function Do(m: Machine, a: Action): Machine
    requires Can(m, a)
  {
    if Loses(m, a) then m.(lost := true) else
    match a
    case NewFiber => m.(fibers := m.fibers + [NEW_FIBER])
    case Launch(f) =>
      var b := m.fibers[f];
      m.(stack := m.stack + [Launching(m.nextCtx, f, m.origin)], origin := m.nextCtx, nextCtx := m.nextCtx + 1,
         fibers := m.fibers[f := b.(status := Running)],
         returned := m.returned + if b.status == Fresh then [] else [Return(f, b.call, [], b.op.ret)])
    case Dispatch(f, w, result) =>
      var b := m.fibers[f];
      m.(stack := [Dispatching(m.nextCtx, f)], origin := m.nextCtx, nextCtx := m.nextCtx + 1,
         fibers := m.fibers[f := Resumed(b, w, result)],
         returned := m.returned + if b.status == Fresh then []
                                  else [Return(f, b.call, Runs(b.op, w, result), RetAfter(b.op, w, result))])
    case Await(c) =>
      var f := Top(m).fiber;
      Transfer(m.(fibers := m.fibers[f := Waiting(m.fibers[f], c)], made := m.made + Made(f, m.fibers[f], c)))
    case Exit =>
      var f := Top(m).fiber;
      Transfer(m.(fibers := m.fibers[f := Exited(m.fibers[f])]))
    case Wake(f) => m.(fibers := m.fibers[f := m.fibers[f].(woken := true)])
  }

  predicate Plays(m: Machine, acts: seq<Action>)
    decreases |acts|
  {
    acts != [] ==> Can(m, acts[0]) && Plays(Do(m, acts[0]), acts[1..])
  }

  function After(m: Machine, acts: seq<Action>): Machine
    requires Plays(m, acts)
    decreases |acts|
  {
    if acts == [] then m else After(Do(m, acts[0]), acts[1..])
  }

  // ---- Control: who is resumed ----

  /** The origin is the innermost activation, and every launch inside another saved the context around it. */
  predicate Linked(m: Machine) {
    && !m.lost
    && (m.stack != [] ==> m.origin == Top(m).ctx)
    && (forall i :: 0 < i < |m.stack| ==> m.stack[i].Launching? && m.stack[i].save == m.stack[i - 1].ctx)
    && (forall i :: 0 <= i < |m.stack| ==> m.stack[i].ctx < m.nextCtx)
    && (forall i, j :: 0 <= i < j < |m.stack| ==> m.stack[i].ctx < m.stack[j].ctx)
  }

  /** The fibers on the stack, and only they, are running; none is there twice. */
  predicate Occupied(m: Machine) {
    && (forall i :: 0 <= i < |m.stack| ==> m.stack[i].fiber < |m.fibers| && m.fibers[m.stack[i].fiber].status == Running)
    && (forall i, j :: 0 <= i < j < |m.stack| ==> m.stack[i].fiber != m.stack[j].fiber)
    && (forall f :: 0 <= f < |m.fibers| && m.fibers[f].status == Running ==> OnStack(m.stack, f))
  }

  predicate OnStack(stack: seq<Activation>, f: nat) { exists i :: 0 <= i < |stack| && stack[i].fiber == f }

  /** What the running fiber becomes when it awaits a call or exits. */
  function Stopped(b: Fiber, a: Action): Fiber { if a.Await? then Waiting(b, a.call) else Exited(b) }

  lemma TransferInnermost(m: Machine)
    requires m.stack != [] && Linked(m)
    ensures Position(m.stack, m.origin) == |m.stack| - 1
  {
    assert m.stack[|m.stack| - 1].ctx == m.origin;
  }

  /** A fiber that suspends or exits resumes the innermost activation, the last one on the stack. */
  lemma Stops(m: Machine, a: Action)
    requires Linked(m) && Can(m, a) && (a.Await? || a.Exit?)
    ensures var q := Do(m, a);
            && q.stack == m.stack[..|m.stack| - 1] && !q.lost && q.nextCtx == m.nextCtx
            && q.origin == (if Top(m).Launching? then Top(m).save else m.origin)
            && q.fibers == m.fibers[Top(m).fiber := Stopped(m.fibers[Top(m).fiber], a)]
            && q.made == m.made + (if a.Await? then Made(Top(m).fiber, m.fibers[Top(m).fiber], a.call) else [])
            && q.returned == m.returned
  {
    hide Linked, Position, Waiting, Made, Exited;
    TransferInnermost(m);
    assert !m.lost;
  }

  lemma StopLinked(m: Machine, q: Machine)
    requires Linked(m) && m.stack != [] && q.stack == m.stack[..|m.stack| - 1] && !q.lost && q.nextCtx == m.nextCtx
    requires q.origin == (if Top(m).Launching? then Top(m).save else m.origin)
    ensures Linked(q)
  {
  }

  /** The last fiber leaves the stack in any state but Running. */
  lemma StopOccupied(m: Machine, q: Machine, b: Fiber)
    requires Occupied(m) && m.stack != [] && b.status != Running
    requires q.stack == m.stack[..|m.stack| - 1] && q.fibers == m.fibers[Top(m).fiber := b]
    ensures Occupied(q)
  {
    forall f | 0 <= f < |q.fibers| && q.fibers[f].status == Running
      ensures OnStack(q.stack, f)
    {
      var i :| 0 <= i < |m.stack| && m.stack[i].fiber == f;
      assert q.stack[i].fiber == f;
    }
  }

  /** A step loses control exactly if it uses what is gone; every other step keeps the stack linked and its fibers running. */
  lemma ControlKeeps(m: Machine, a: Action)
    requires Linked(m) && Occupied(m) && Can(m, a)
    ensures Do(m, a).lost <==> Loses(m, a)
    ensures !Loses(m, a) ==> Linked(Do(m, a)) && Occupied(Do(m, a))
  {
    hide *;
    if a.Await? || a.Exit? {
      Stopping(m, a);
      Stops(m, a);
      Goes(m, a);
    } else if Loses(m, a) {
      Goes(m, a);
    } else if a.Launch? || a.Dispatch? {
      Entering(m, a);
      Goes(m, a);
    } else {
      Staying(m, a);
      Goes(m, a);
    }
  }

  lemma Goes(m: Machine, a: Action)
    requires Can(m, a)
    ensures Loses(m, a) ==> Do(m, a) == m.(lost := true)
    ensures a.Await? || a.Exit? ==> !Loses(m, a)
    ensures !Loses(m, a) && !a.Await? && !a.Exit? ==> !Do(m, a).lost
  {
    hide Resumed, Runs, RetAfter, Transfer;
  }

  lemma Entering(m: Machine, a: Action)
    requires Linked(m) && Occupied(m) && Can(m, a) && (a.Launch? || a.Dispatch?) && !Loses(m, a)
    ensures Linked(Do(m, a)) && Occupied(Do(m, a))
  {
    hide Linked, Occupied;
    EnterLinked(m, a);
    Entered(m, Do(m, a), a.f);
  }

  lemma Staying(m: Machine, a: Action)
    requires Linked(m) && Occupied(m) && Can(m, a) && (a.NewFiber? || a.Wake?) && !Loses(m, a)
    ensures Linked(Do(m, a)) && Occupied(Do(m, a))
  {
    hide Linked, Occupied;
    SameLinked(m, Do(m, a));
    SameOccupied(m, Do(m, a));
  }

  lemma SameLinked(m: Machine, q: Machine)
    requires Linked(m) && q.stack == m.stack && q.origin == m.origin && q.nextCtx == m.nextCtx && !q.lost
    ensures Linked(q)
  {
  }

  lemma SameOccupied(m: Machine, q: Machine)
    requires Occupied(m) && q.stack == m.stack && |q.fibers| >= |m.fibers|
    requires forall f :: 0 <= f < |m.fibers| ==> q.fibers[f].status == m.fibers[f].status
    requires forall f :: |m.fibers| <= f < |q.fibers| ==> q.fibers[f].status == Fresh
    ensures Occupied(q)
  {
    hide OnStack;
  }

  lemma EnterLinked(m: Machine, a: Action)
    requires Linked(m) && Can(m, a) && (a.Launch? || a.Dispatch?) && !Loses(m, a)
    ensures Linked(Do(m, a))
  {
    hide Resumed;
  }

  lemma Stopping(m: Machine, a: Action)
    requires Linked(m) && Occupied(m) && Can(m, a) && (a.Await? || a.Exit?)
    ensures Linked(Do(m, a)) && Occupied(Do(m, a))
  {
    hide Linked, Occupied, Do;
    Stops(m, a);
    StopLinked(m, Do(m, a));
    StopOccupied(m, Do(m, a), Stopped(m.fibers[Top(m).fiber], a));
  }

  lemma Entered(m: Machine, q: Machine, f: nat)
    requires Occupied(m) && f < |m.fibers| && m.fibers[f].status != Running
    requires |q.stack| == |m.stack| + 1 && q.stack[..|m.stack|] == m.stack && Top(q).fiber == f
    requires |q.fibers| == |m.fibers| && q.fibers == m.fibers[f := q.fibers[f]] && q.fibers[f].status == Running
    ensures Occupied(q)
  {
    hide OnStack;
    assert forall i :: 0 <= i < |m.stack| ==> q.stack[i] == m.stack[i];
    forall g | 0 <= g < |q.fibers| && q.fibers[g].status == Running ensures OnStack(q.stack, g) {
      EnteredOnStack(m.stack, q.stack, g);
    }
  }

  lemma EnteredOnStack(s: seq<Activation>, u: seq<Activation>, g: nat)
    requires |u| == |s| + 1 && u[..|s|] == s && (OnStack(s, g) || u[|s|].fiber == g)
    ensures OnStack(u, g)
  {
    if OnStack(s, g) {
      var i :| 0 <= i < |s| && s[i].fiber == g;
      assert u[i].fiber == g;
    }
  }

  lemma NothingAfter(m: Machine, acts: seq<Action>)
    requires m.lost && Plays(m, acts)
    ensures acts == []
  {
  }

  /** Until a step uses what is gone, every run keeps the stack linked and its fibers running. */
  lemma {:induction false} ControlInRuns(m: Machine, acts: seq<Action>)
    requires Linked(m) && Occupied(m) && Plays(m, acts)
    ensures !After(m, acts).lost ==> Linked(After(m, acts)) && Occupied(After(m, acts))
    decreases |acts|
  {
    if acts != [] {
      ControlKeeps(m, acts[0]);
      if Loses(m, acts[0]) {
        NothingAfter(Do(m, acts[0]), acts[1..]);
      } else {
        ControlInRuns(Do(m, acts[0]), acts[1..]);
      }
    }
  }

  /**
   In every run a fiber that suspends or exits hands control to the innermost activation still
   on the stack, which is the one that resumed it, and to none that is gone.
   */
  lemma Innermost(acts: seq<Action>, a: Action)
    requires Plays(INIT, acts) && Can(After(INIT, acts), a) && (a.Await? || a.Exit?)
    ensures var m := After(INIT, acts);
            var q := Do(m, a);
            && m.origin == Top(m).ctx && m.fibers[Top(m).fiber].status == Running
            && !q.lost && q.stack == m.stack[..|m.stack| - 1]
            && q.fibers[Top(m).fiber].status == (if a.Await? then Suspended else Dead)
            && (q.stack != [] ==> q.origin == Top(q).ctx)
  {
    ControlInRuns(INIT, acts);
    hide Do, Plays;
    Stops(After(INIT, acts), a);
    Stopping(After(INIT, acts), a);
  }

  /** acts stay above depth d from m on, and their last step comes down to it. */
  predicate ComesBack(m: Machine, d: nat, acts: seq<Action>)
    decreases |acts|
  {
    && acts != [] && Can(m, acts[0])
    && (if |acts| == 1 then |Do(m, acts[0]).stack| <= d
        else |Do(m, acts[0]).stack| > d && ComesBack(Do(m, acts[0]), d, acts[1..]))
  }

  lemma {:induction false} ComesBackPlays(m: Machine, d: nat, acts: seq<Action>)
    requires ComesBack(m, d, acts)
    ensures Plays(m, acts)
    decreases |acts|
  {
    if |acts| > 1 {
      ComesBackPlays(Do(m, acts[0]), d, acts[1..]);
    } else {
      assert Plays(Do(m, acts[0]), acts[1..]);
    }
  }

  /** One step above a launch keeps the launch's frame, or returns from it. */
  lemma StepAbove(m: Machine, below: seq<Activation>, save: nat, a: Action)
    requires Linked(m) && Can(m, a)
    requires |m.stack| > |below| && below == m.stack[..|below|]
    requires m.stack[|below|].Launching? && m.stack[|below|].save == save
    ensures var q := Do(m, a);
            if |q.stack| > |below| then below == q.stack[..|below|] && q.stack[|below|] == m.stack[|below|]
            else q.stack == below && q.origin == save
  {
    if a.Await? || a.Exit? {
      hide Do;
      Stops(m, a);
    }
  }

  lemma {:induction false} RunAbove(m: Machine, below: seq<Activation>, save: nat, acts: seq<Action>)
    requires Linked(m) && Occupied(m) && ComesBack(m, |below|, acts)
    requires |m.stack| > |below| && below == m.stack[..|below|]
    requires m.stack[|below|].Launching? && m.stack[|below|].save == save
    ensures Plays(m, acts) && After(m, acts).stack == below && After(m, acts).origin == save
    decreases |acts|
  {
    ComesBackPlays(m, |below|, acts);
    StepAbove(m, below, save, acts[0]);
    ControlKeeps(m, acts[0]);
    if |acts| > 1 {
      assert Can(Do(m, acts[0]), acts[1..][0]);
      RunAbove(Do(m, acts[0]), below, save, acts[1..]);
    } else {
      assert After(m, acts) == After(Do(m, acts[0]), acts[1..]) == Do(m, acts[0]);
    }
  }

  /** However much is launched inside it, a launch that returns leaves stack and origin_ctx as it found them. */
  lemma LaunchRestores(m: Machine, f: nat, acts: seq<Action>)
    requires Linked(m) && Occupied(m) && Can(m, Launch(f)) && ComesBack(Do(m, Launch(f)), |m.stack|, acts)
    ensures Plays(Do(m, Launch(f)), acts)
    ensures var q := After(Do(m, Launch(f)), acts); q.stack == m.stack && q.origin == m.origin
  {
    ControlKeeps(m, Launch(f));
    assert Can(Do(m, Launch(f)), acts[0]);
    RunAbove(Do(m, Launch(f)), m.stack, m.origin, acts);
  }

  // ---- Events: each is made once ----

  predicate Tabled(m: Machine, e: (nat, int, Dir)) {
    e.0 < |m.fibers| && (m.fibers[e.0].status == Dead || HasEvent(m.fibers[e.0].events, e.1, e.2))
  }

  /** The events made are those in the tables of the fibers, and those of fibers that are gone. */
  ghost predicate EventsMade(m: Machine) {
    && Distinct(m.made)
    && (forall e :: e in m.made ==> Tabled(m, e))
    && (forall f, fd, dir :: 0 <= f < |m.fibers| && HasEvent(m.fibers[f].events, fd, dir) ==> (f, fd, dir) in m.made)
    && ArmedMade(m)
  }

  /** No event is added that has not been made. */
  ghost predicate ArmedMade(m: Machine) {
    forall f, fd, dir :: 0 <= f < |m.fibers| && (fd, dir) in m.fibers[f].armed ==> (f, fd, dir) in m.made
  }

  lemma AwaitArmed(m: Machine, q: Machine, f: nat, c: Call)
    requires EventsMade(m) && f < |m.fibers|
    requires q.fibers == m.fibers[f := Waiting(m.fibers[f], c)] && q.made == m.made + Made(f, m.fibers[f], c)
    ensures ArmedMade(q)
  {
    forall g, fd, dir | 0 <= g < |q.fibers| && (fd, dir) in q.fibers[g].armed ensures (g, fd, dir) in q.made {
      if (fd, dir) in m.fibers[g].armed || HasEvent(m.fibers[g].events, fd, dir) {
        assert (g, fd, dir) in m.made;
      } else {
        assert q.made[|m.made|] == (g, fd, dir);
      }
    }
  }

  lemma AwaitMade(m: Machine, q: Machine, f: nat, c: Call)
    requires EventsMade(m) && f < |m.fibers| && m.fibers[f].status != Dead
    requires q.fibers == m.fibers[f := Waiting(m.fibers[f], c)] && q.made == m.made + Made(f, m.fibers[f], c)
    ensures EventsMade(q)
  {
    var b := m.fibers[f];
    AwaitArmed(m, q, f, c);
    hide ArmedMade;
    forall e | e in q.made ensures Tabled(q, e) {
      if e in m.made {
        assert Tabled(m, e);
      }
    }
    if Made(f, b, c) != [] {
      assert (f, c.fd, DirOf(c.typ)) !in m.made by {
        assert !Tabled(m, (f, c.fd, DirOf(c.typ)));
      }
    }
    forall g, fd, dir | 0 <= g < |q.fibers| && HasEvent(q.fibers[g].events, fd, dir) ensures (g, fd, dir) in q.made {
      if HasEvent(m.fibers[g].events, fd, dir) {
        assert (g, fd, dir) in m.made;
      } else {
        assert q.made[|m.made|] == (g, fd, dir);
      }
    }
  }

  /** A step that makes no event and leaves the tables alone, except those of fibers that die. */
  lemma SameMade(m: Machine, q: Machine)
    requires EventsMade(m) && q.made == m.made && |q.fibers| >= |m.fibers|
    requires forall f :: 0 <= f < |m.fibers| ==> q.fibers[f].status == Dead || q.fibers[f].events == m.fibers[f].events
    requires forall f :: 0 <= f < |m.fibers| && m.fibers[f].status == Dead ==> q.fibers[f].status == Dead
    requires forall f :: 0 <= f < |q.fibers| ==> q.fibers[f].events == map[] || (f < |m.fibers| && q.fibers[f].events == m.fibers[f].events)
    requires forall f :: 0 <= f < |q.fibers| ==> q.fibers[f].armed <= if f < |m.fibers| then m.fibers[f].armed else {}
    ensures EventsMade(q)
  {
    forall e | e in q.made ensures Tabled(q, e) {
      assert Tabled(m, e);
    }
  }

  lemma EventsKeep(m: Machine, a: Action)
    requires Linked(m) && Occupied(m) && EventsMade(m) && Can(m, a)
    ensures EventsMade(Do(m, a))
  {
    hide *;
    if a.Await? || a.Exit? {
      EventsStop(m, a);
    } else {
      EventsStay(m, a);
    }
  }

  lemma EventsStop(m: Machine, a: Action)
    requires Linked(m) && Occupied(m) && EventsMade(m) && Can(m, a) && (a.Await? || a.Exit?)
    ensures EventsMade(Do(m, a))
  {
    hide Linked, EventsMade, Waiting, Do;
    Stops(m, a);
    if a.Await? {
      AwaitMade(m, Do(m, a), Top(m).fiber, a.call);
    } else {
      SameMade(m, Do(m, a));
    }
  }

  lemma EventsStay(m: Machine, a: Action)
    requires EventsMade(m) && Can(m, a) && !a.Await? && !a.Exit?
    ensures EventsMade(Do(m, a))
  {
    hide EventsMade, RetAfter, Runs;
    SameMade(m, Do(m, a));
  }

  lemma {:induction false} EventsInRuns(m: Machine, acts: seq<Action>)
    requires Linked(m) && Occupied(m) && EventsMade(m) && Plays(m, acts)
    ensures EventsMade(After(m, acts))
    decreases |acts|
  {
    if acts != [] {
      ControlKeeps(m, acts[0]);
      EventsKeep(m, acts[0]);
      if Loses(m, acts[0]) {
        NothingAfter(Do(m, acts[0]), acts[1..]);
      } else {
        EventsInRuns(Do(m, acts[0]), acts[1..]);
      }
    }
  }

  /**
   Over a whole run no event is made twice for the same fiber, descriptor and direction, the
   table of a live fiber holds exactly the events made for it, and only events made are waited for.
   */
  lemma EventsOnce(acts: seq<Action>)
    requires Plays(INIT, acts)
    ensures Distinct(After(INIT, acts).made)
    ensures forall f, fd, dir :: 0 <= f < |After(INIT, acts).fibers| && After(INIT, acts).fibers[f].status != Dead ==>
              (HasEvent(After(INIT, acts).fibers[f].events, fd, dir) <==> (f, fd, dir) in After(INIT, acts).made)
    ensures forall f, fd, dir :: 0 <= f < |After(INIT, acts).fibers| && (fd, dir) in After(INIT, acts).fibers[f].armed ==>
              (f, fd, dir) in After(INIT, acts).made
  {
    EventsInRuns(INIT, acts);
    var m := After(INIT, acts);
    forall f, fd, dir | 0 <= f < |m.fibers| && m.fibers[f].status != Dead
      ensures HasEvent(m.fibers[f].events, fd, dir) <==> (f, fd, dir) in m.made
    {
      if (f, fd, dir) in m.made {
        assert Tabled(m, (f, fd, dir));
      }
    }
  }
}
