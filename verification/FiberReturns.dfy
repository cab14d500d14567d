/**
 What the async_* calls return. sched_dispatch performs the operation recorded in the fiber,
 whatever made it run, so a call gets the result of its own operation only if nothing but
 its own event resumes it. async_wake does not look at what its target is waiting for.
 */
module FiberReturns {
  import opened FiberSched

  /**
   The call returned what its own operation on its own arguments returned; async_event returned
   the flag it waited for. For async_sendto the operation made is SEND.
   */
  predicate Honest(r: Return) {
    && (r.call.typ in {READ, WRITE, ACCEPT, RECVFROM, SEND, RECV} ==> r.ran == [Ran(r.call.typ, r.call.args, r.value)])
    && (r.call.typ == SENDTO ==> r.ran == [Ran(SEND, r.call.args, r.value)])
    && (r.call.typ == EVENT ==> r.ran == [] && r.value == EV_READ)
  }

  predicate AllHonest(m: Machine) { forall i :: 0 <= i < |m.returned| ==> Honest(m.returned[i]) }

  /**
   A suspended fiber has recorded its call and waits for one thing: the event of that call, or
   a wake if it yields. A fiber that is not suspended waits for nothing.
   */
  predicate Ready(b: Fiber) {
    if b.status != Suspended then b.armed == {} && !b.woken
    else
      && IsCall(b.call) && b.op.typ == Recorded(b.call) && b.op.args == b.call.args
      && (b.call.typ == EVENT ==> b.op.ret == 0)
      && (if b.call.typ == YIELD then b.armed == {}
          else !b.woken && b.armed == {(b.call.fd, DirOf(b.call.typ))})
  }

  predicate AllReady(m: Machine) { forall f :: 0 <= f < |m.fibers| ==> Ready(m.fibers[f]) }

  predicate Yielding(b: Fiber) { b.status == Suspended && b.op.typ == YIELD }

  /**
   A wake goes to a fiber suspended in async_yield; a launch to a new fiber, or to one suspended
   in async_yield that has not been woken yet. Neither function checks this.
   */
  predicate Safe(m: Machine, a: Action)
    requires Can(m, a)
  {
    && (a.Wake? ==> Yielding(m.fibers[a.f]))
    && (a.Launch? ==> m.fibers[a.f].status == Fresh || (Yielding(m.fibers[a.f]) && !m.fibers[a.f].woken))
  }

  predicate PlaysSafely(m: Machine, acts: seq<Action>)
    decreases |acts|
  {
    acts != [] ==> Can(m, acts[0]) && Safe(m, acts[0]) && PlaysSafely(Do(m, acts[0]), acts[1..])
  }

  lemma {:induction false} SafelyPlays(m: Machine, acts: seq<Action>)
    requires PlaysSafely(m, acts)
    ensures Plays(m, acts)
    decreases |acts|
  {
    if acts != [] {
      SafelyPlays(Do(m, acts[0]), acts[1..]);
    }
  }

  lemma ResumedReady(b: Fiber, w: Wakeup, result: int)
    requires Ready(b) && Pending(b, w)
    ensures b.status == Suspended && Ready(Resumed(b, w, result))
    ensures forall f :: Honest(Return(f, b.call, Runs(b.op, w, result), RetAfter(b.op, w, result)))
  {
  }

  lemma StoppedReady(b: Fiber, a: Action)
    requires Ready(b) && b.status == Running && (a.Exit? || (a.Await? && IsCall(a.call)))
    ensures Ready(Stopped(b, a))
  {
  }

  lemma ReadyKeeps(m: Machine, a: Action)
    requires Linked(m) && Occupied(m) && AllReady(m) && AllHonest(m) && Can(m, a) && Safe(m, a)
    ensures !Loses(m, a) && AllReady(Do(m, a)) && AllHonest(Do(m, a))
  {
    hide Linked, Ready, Honest, Stopped;
    if a.Await? || a.Exit? {
      hide Do;
      Stops(m, a);
      StoppedReady(m.fibers[Top(m).fiber], a);
    } else {
      FiberReady(m, a);
    }
  }

  lemma FiberReady(m: Machine, a: Action)
    requires AllReady(m) && AllHonest(m) && Can(m, a) && Safe(m, a) && !a.Await? && !a.Exit?
    ensures !Loses(m, a) && AllReady(Do(m, a)) && AllHonest(Do(m, a))
  {
    hide Resumed, Runs, RetAfter;
    if a.Dispatch? {
      hide Ready, Honest;
      ResumedReady(m.fibers[a.f], a.w, a.result);
    } else if a.Launch? {
      assert Ready(m.fibers[a.f]);
    }
  }

  lemma {:induction false} ReadyInRuns(m: Machine, acts: seq<Action>)
    requires Linked(m) && Occupied(m) && AllReady(m) && AllHonest(m) && PlaysSafely(m, acts)
    ensures Plays(m, acts) && !After(m, acts).lost && AllReady(After(m, acts)) && AllHonest(After(m, acts))
    decreases |acts|
  {
    SafelyPlays(m, acts);
    if acts != [] {
      ReadyKeeps(m, acts[0]);
      ControlKeeps(m, acts[0]);
      ReadyInRuns(Do(m, acts[0]), acts[1..]);
    }
  }

  /** What resumes a fiber suspended in c: its descriptor turning readable or writable, or a wake. */
  predicate Resumes(c: Call, w: Wakeup) {
    && (c.typ in {READ, RECV, RECVFROM, ACCEPT, EVENT} ==> w == Io(c.fd, In))
    && (c.typ in {WRITE, SEND, SENDTO} ==> w == Io(c.fd, Out))
    && (c.typ == YIELD ==> w == Timeout)
  }

  /** Each of the calls can be made by a fiber that runs. */
  lemma CallsCan(m: Machine, c: Call)
    requires Linked(m) && Occupied(m) && m.stack != []
    requires c.typ in {READ, WRITE, ACCEPT, RECVFROM, SENDTO, SEND, RECV, EVENT, YIELD}
    ensures Can(m, Await(c))
  {
  }

  lemma ReadyResumes(b: Fiber, w: Wakeup)
    requires Ready(b)
    ensures Pending(b, w) ==> b.status == Suspended && Resumes(b.call, w)
    ensures b.status == Suspended && b.call.typ != YIELD && Resumes(b.call, w) ==> Pending(b, w)
  {
  }

  /** async_yield returns what the fiber's last call returned, and no system call is made for it. */
  lemma YieldReturns(b: Fiber, c: Call, result: int)
    requires c.typ == YIELD
    ensures var op := Waiting(b, c).op; Runs(op, Timeout, result) == [] && RetAfter(op, Timeout, result) == b.op.ret
  {
  }

  /** async_event cut short by a wake returns the flag EV_TIMEOUT, 1, in place of EV_READ, 2. */
  lemma EventWoken(b: Fiber, c: Call, result: int)
    requires c.typ == EVENT
    ensures var op := Waiting(b, c).op; RetAfter(op, Timeout, result) == 1 && RetAfter(op, Io(c.fd, In), result) == 2
  {
  }

  /**
   In every run that wakes and launches safely, control is never lost, each call returns the
   result of its own operation, and a fiber suspended in a call is resumed by the event of that
   call, on its descriptor and in its direction, and by nothing else.
   */
  lemma OwnResults(acts: seq<Action>)
    requires PlaysSafely(INIT, acts)
    ensures Plays(INIT, acts) && !After(INIT, acts).lost
    ensures forall i :: 0 <= i < |After(INIT, acts).returned| ==> Honest(After(INIT, acts).returned[i])
    ensures forall f, w :: 0 <= f < |After(INIT, acts).fibers| ==>
              var b := After(INIT, acts).fibers[f];
              && (Pending(b, w) ==> b.status == Suspended && Resumes(b.call, w))
              && (b.status == Suspended && b.call.typ != YIELD && Resumes(b.call, w) ==> Pending(b, w))
  {
    ReadyInRuns(INIT, acts);
    var m := After(INIT, acts);
    hide After, Plays, PlaysSafely, Ready, Pending, Resumes;
    forall f, w | 0 <= f < |m.fibers|
      ensures Pending(m.fibers[f], w) ==> m.fibers[f].status == Suspended && Resumes(m.fibers[f].call, w)
      ensures m.fibers[f].status == Suspended && m.fibers[f].call.typ != YIELD && Resumes(m.fibers[f].call, w) ==> Pending(m.fibers[f], w)
    {
      ReadyResumes(m.fibers[f], w);
    }
  }

  // ---- Exactly which steps are harmless ----

  /** However the run goes on, with safe wakes and launches, control stays and every call returns its own result. */
  ghost predicate Harmless(m: Machine) {
    forall acts :: PlaysSafely(m, acts) ==> Plays(m, acts) && Sound(After(m, acts))
  }

  predicate Sound(m: Machine) { !m.lost && AllHonest(m) }

  lemma Unsound(m: Machine)
    requires !Sound(m)
    ensures !Harmless(m)
  {
    assert PlaysSafely(m, []) && Plays(m, []) && After(m, []) == m;
  }

  lemma HarmlessStep(m: Machine, a: Action)
    requires Can(m, a) && Safe(m, a) && Harmless(m)
    ensures Harmless(Do(m, a))
  {
    forall acts | PlaysSafely(Do(m, a), acts)
      ensures Plays(Do(m, a), acts) && Sound(After(Do(m, a), acts))
    {
      SafelyPlays(Do(m, a), acts);
      var all := [a] + acts;
      assert all[1..] == acts;
      assert PlaysSafely(m, all);
      assert After(m, all) == After(Do(m, a), acts);
    }
  }

  /** f waits for the event of its call and has been woken all the same. */
  predicate Spoiled(m: Machine, f: nat) {
    && f < |m.fibers| && m.fibers[f].status == Suspended && m.fibers[f].woken
    && (IsTransfer(m.fibers[f].call) || (m.fibers[f].call.typ == EVENT && m.fibers[f].op.typ == EVENT && m.fibers[f].op.ret == 0))
  }

  lemma SpoiledReturn(m: Machine, f: nat)
    requires Linked(m) && Spoiled(m, f) && m.stack == []
    ensures !Harmless(m)
  {
    var a := Dispatch(f, Timeout, 0);
    var q := Do(m, a);
    assert !Honest(q.returned[|m.returned|]);
    Unsound(q);
    if Harmless(m) {
      HarmlessStep(m, a);
    }
  }

  const YIELDING := Await(Call(YIELD, -1, []))

  lemma {:induction false} SpoiledHarm(m: Machine, f: nat)
    requires Linked(m) && Occupied(m) && Spoiled(m, f)
    ensures !Harmless(m)
    decreases |m.stack|
  {
    if m.stack == [] {
      SpoiledReturn(m, f);
    } else {
      hide Linked, Do, Harmless;
      Open(m);
      Stops(m, YIELDING);
      ControlKeeps(m, YIELDING);
      SpoiledHarm(Do(m, YIELDING), f);
      if Harmless(m) {
        HarmlessStep(m, YIELDING);
      }
    }
  }

  lemma Open(m: Machine)
    requires Linked(m)
    ensures !m.lost
  {
  }

  /** A running fiber that is woken can go on to wait for a descriptor. */
  lemma {:induction false} RunningHarm(m: Machine, f: nat)
    requires Linked(m) && Occupied(m) && f < |m.fibers| && m.fibers[f].status == Running && m.fibers[f].woken
    ensures !Harmless(m)
    decreases |m.stack|
  {
    hide Linked, Do, Harmless;
    Open(m);
    var a := if Top(m).fiber == f then Await(Call(READ, 0, [])) else YIELDING;
    Stops(m, a);
    ControlKeeps(m, a);
    if Top(m).fiber == f {
      SpoiledHarm(Do(m, a), f);
    } else {
      RunningHarm(Do(m, a), f);
    }
    if Harmless(m) {
      HarmlessStep(m, a);
    }
  }

  lemma FreshHarm(m: Machine, f: nat)
    requires Linked(m) && Occupied(m) && f < |m.fibers| && m.fibers[f].status == Fresh && m.fibers[f].woken
    ensures !Harmless(m)
  {
    ControlKeeps(m, Launch(f));
    RunningHarm(Do(m, Launch(f)), f);
    if Harmless(m) {
      HarmlessStep(m, Launch(f));
    }
  }

  lemma LaunchHarm(m: Machine, f: nat)
    requires Linked(m) && Occupied(m) && AllReady(m) && Can(m, Launch(f)) && !Safe(m, Launch(f))
    ensures !Harmless(Do(m, Launch(f)))
  {
    var q, b := Do(m, Launch(f)), m.fibers[f];
    ControlKeeps(m, Launch(f));
    assert Ready(b);
    if Loses(m, Launch(f)) {
      Unsound(q);
    } else if Yielding(b) {
      RunningHarm(q, f);
    } else {
      assert !Honest(q.returned[|m.returned|]);
      Unsound(q);
    }
  }

  lemma WakeHarm(m: Machine, f: nat)
    requires Linked(m) && Occupied(m) && AllReady(m) && Can(m, Wake(f)) && !Safe(m, Wake(f))
    ensures !Harmless(Do(m, Wake(f)))
  {
    var q, b := Do(m, Wake(f)), m.fibers[f];
    ControlKeeps(m, Wake(f));
    assert Ready(b);
    match b.status
    case Dead => Unsound(q);
    case Fresh => FreshHarm(q, f);
    case Running => RunningHarm(q, f);
    case Suspended => SpoiledHarm(q, f);
  }

  /**
   A step leaves control and every call's result in order, however the run goes on, exactly if
   it is safe: the events and calls always are, a wake and a launch only as Safe says.
   */
  lemma SafeExactly(m: Machine, a: Action)
    requires Linked(m) && Occupied(m) && AllReady(m) && AllHonest(m) && Can(m, a)
    ensures Harmless(Do(m, a)) <==> Safe(m, a)
  {
    hide Linked, Occupied, Do, Harmless, AllReady, AllHonest;
    if !Safe(m, a) {
      if a.Wake? { WakeHarm(m, a.f); } else { LaunchHarm(m, a.f); }
    } else {
      ReadyKeeps(m, a);
      ControlKeeps(m, a);
      ReadyHarmless(Do(m, a));
    }
  }

  /** In particular a wake is harmless exactly if its target is suspended in async_yield. */
  lemma WakeExactly(m: Machine, f: nat)
    requires Linked(m) && Occupied(m) && AllReady(m) && AllHonest(m) && Can(m, Wake(f))
    ensures Harmless(Do(m, Wake(f))) <==> Yielding(m.fibers[f])
  {
    hide Linked, Occupied, Do, Harmless, AllReady, AllHonest;
    SafeExactly(m, Wake(f));
  }

  lemma ReadyHarmless(m: Machine)
    requires Linked(m) && Occupied(m) && AllReady(m) && AllHonest(m)
    ensures Harmless(m)
  {
    forall acts | PlaysSafely(m, acts) ensures Plays(m, acts) && Sound(After(m, acts)) {
      ReadyInRuns(m, acts);
    }
  }

  /** One fiber, suspended in async_sendto on descriptor 7. */
  function Sending(args: seq<int>): Machine {
    Machine(0, [], [Fiber(Suspended, Op(SEND, args, 0), Call(SENDTO, 7, args), map[7 := {Out}], {(7, Out)}, false)],
            2, [(0, 7, Out)], [], false)
  }

  lemma SendingFiber(args: seq<int>)
    ensures Waiting(NEW_FIBER.(status := Running), Call(SENDTO, 7, args)) == Sending(args).fibers[0]
  {
    var none: map<int, set<Dir>> := map[];
    assert WithEvent(none, 7, Out) == map[7 := {Out}] by {
      assert {} + {Out} == {Out};
    }
    assert {} + {(7, Out)} == {(7, Out)};
  }

  lemma SendingReached(args: seq<int>)
    ensures var acts := [NewFiber, Launch(0), Await(Call(SENDTO, 7, args))];
            PlaysSafely(INIT, acts) && Plays(INIT, acts) && After(INIT, acts) == Sending(args)
  {
    var a := Await(Call(SENDTO, 7, args));
    var acts := [NewFiber, Launch(0), a];
    var m2 := Do(Do(INIT, NewFiber), Launch(0));
    assert m2 == Machine(1, [Launching(1, 0, 0)], [NEW_FIBER.(status := Running)], 2, [], [], false);
    SendingFiber(args);
    assert Do(m2, a) == Sending(args) by {
      hide Waiting;
      Stops(m2, a);
    }
    hide Do, Sending;
    assert acts[1..][1..] == [a] && [a][1..] == [];
    assert PlaysSafely(m2, [a]) && Plays(m2, [a]) && After(m2, [a]) == Sending(args);
  }

  /** Waking a fiber that is sending, as the device fiber may do: its call returns though nothing was sent. */
  lemma WakeDuringSend(args: seq<int>)
    ensures var acts := [Wake(0), Dispatch(0, Timeout, 0)];
            && Plays(Sending(args), acts)
            && After(Sending(args), acts).returned == [Return(0, Call(SENDTO, 7, args), [], 0)]
            && !AllHonest(After(Sending(args), acts))
  {
    var d := Dispatch(0, Timeout, 0);
    var m := Do(Sending(args), Wake(0));
    assert [Wake(0), d][1..] == [d] && [d][1..] == [];
    assert Plays(m, [d]) && After(m, [d]) == Do(m, d);
    assert !Honest(Do(m, d).returned[0]);
  }

  /**
   If that fiber then exits, its event on the descriptor is still added; when it fires, control
   goes to a fiber that is gone.
   */
  lemma LostAfterExit(args: seq<int>)
    ensures var acts := [Wake(0), Dispatch(0, Timeout, 0), Exit, Dispatch(0, Io(7, Out), 0)];
            Plays(Sending(args), acts) && After(Sending(args), acts).lost
  {
    var d, e := Dispatch(0, Timeout, 0), Dispatch(0, Io(7, Out), 0);
    var m := Do(Do(Sending(args), Wake(0)), d);
    assert m.stack == [Dispatching(2, 0)] && m.origin == 2 && (7, Out) in m.fibers[0].armed;
    var q := Do(m, Exit);
    assert q.stack == [] && q.fibers == [Exited(m.fibers[0])] && !q.lost;
    hide Do;
    assert Do(q, e).lost by { Goes(q, e); }
    var acts := [Wake(0), d, Exit, e];
    assert acts[1..][1..][1..] == [e] && acts[1..][1..] == [Exit, e] && [e][1..] == [];
    assert Plays(q, [e]) && After(q, [e]) == Do(q, e);
    assert Plays(m, [Exit, e]) && After(m, [Exit, e]) == Do(q, e);
  }
}
