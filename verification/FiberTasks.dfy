/** The scheduler's own functions, each shown to take the step of the machine it stands for. */
module FiberTasks {
  import opened FiberSched

  /** rw_events: which of the two events exist. */
  datatype RwEvents = RwEvents(r: bool, w: bool)

  predicate Has(e: RwEvents, dir: Dir) { if dir == In then e.r else e.w }

  function Dirs(e: RwEvents): set<Dir> { (if e.r then {In} else {}) + (if e.w then {Out} else {}) }

  function Table(t: map<int, RwEvents>): map<int, set<Dir>> { map fd | fd in t :: Dirs(t[fd]) }

  class Task {
    var opType: OpType
    var opArgs: seq<int>
    var opRet: int
    var mapFe: map<int, RwEvents>
    var armed: set<(int, Dir)>
    var yieldActive: bool
    var status: Status       // what the coroutine library and the allocator know of it
    ghost var call: Call

    constructor ()
      ensures View() == NEW_FIBER
    {
      opType, opArgs, opRet := NONE, [], 0;
      mapFe, armed, yieldActive := map[], {}, false;
      status, call := Fresh, Call(NONE, -1, []);
    }

    ghost function View(): Fiber
      reads this
    {
      Fiber(status, Op(opType, opArgs, opRet), call, Table(mapFe), armed, yieldActive)
    }

    /** get_events: the entry it returns has the event asked for; an event is made only if it was missing. */
    method GetEvents(fd: int, dir: Dir) returns (e: RwEvents, created: bool)
      modifies `mapFe
      ensures fd in mapFe && e == mapFe[fd] && Has(e, dir)
      ensures created <==> !HasEvent(old(Table(mapFe)), fd, dir)
      ensures Table(mapFe) == WithEvent(old(Table(mapFe)), fd, dir)
    {
      if fd !in mapFe {
        e, created := RwEvents(dir == In, dir == Out), true;
      } else {
        e, created := mapFe[fd], false;
        if Has(e, dir) {
          assert Dirs(e) + {dir} == Dirs(e);
          return;
        }
        e, created := if dir == In then e.(r := true) else e.(w := true), true;
      }
      assert Dirs(e) == (if fd in mapFe then Dirs(mapFe[fd]) else {}) + {dir};
      mapFe := mapFe[fd := e];
    }

    /** The switch of sched_dispatch; result is what the system call returns, if one is made. */
    method Perform(w: Wakeup, result: int) returns (ghost ran: seq<Ran>)
      modifies `opRet
      ensures ran == Runs(old(View()).op, w, result) && opRet == RetAfter(old(View()).op, w, result)
    {
      ran := [];
      match w
      case Io(_, In) =>
        match opType {
          case ACCEPT | RECVFROM | RECV | READ => opRet, ran := result, [Ran(opType, opArgs, result)];
          case EVENT => opRet := Flagged(opRet, EV_READ);
          case _ =>
        }
      case Io(_, Out) =>
        match opType {
          case SEND | SENDTO | WRITE => opRet, ran := result, [Ran(opType, opArgs, result)];
          case EVENT => opRet := Flagged(opRet, EV_WRITE);
          case _ =>
        }
      case Timeout =>
        if opType == EVENT {
          opRet := Flagged(opRet, EV_TIMEOUT);
        }
    }

    method Start()
      modifies this
      ensures View() == old(View()).(status := Running)
    {
      status := Running;
    }

    /** The fiber is resumed by w. */
    method Resume(w: Wakeup, result: int) returns (ghost ran: seq<Ran>, ghost value: int)
      modifies this
      ensures View() == Resumed(old(View()), w, result) && ran == Runs(old(View()).op, w, result)
      ensures value == RetAfter(old(View()).op, w, result)
    {
      if w.Io? {
        armed := armed - {(w.fd, w.dir)};
      } else {
        yieldActive := false;
      }
      ran := Perform(w, result);
      value, status := opRet, Running;
    }

    /** What async_event, async_yield and the transfers do before control leaves the fiber. */
    method Suspend(c: Call) returns (created: bool)
      requires IsCall(c)
      modifies this
      ensures View() == Waiting(old(View()), c)
      ensures opType == (if c.typ == SENDTO then SEND else c.typ) && opArgs == c.args
      ensures created <==> c.typ != YIELD && !HasEvent(old(View()).events, c.fd, DirOf(c.typ))
    {
      hide HasEvent, WithEvent, Table;
      created := false;
      if c.typ != YIELD {
        var e;
        e, created := GetEvents(c.fd, DirOf(c.typ));
        armed := armed + {(c.fd, DirOf(c.typ))};
      }
      if c.typ == EVENT {
        opRet := 0;
      }
      opType, opArgs := if c.typ == SENDTO then SEND else c.typ, c.args;
      status, call := Suspended, c;
    }

    /** What sched_fiber_exit does before control leaves the fiber. */
    method Finish()
      modifies this
      ensures View() == Exited(old(View()))
    {
      mapFe, yieldActive, opType := map[], false, FREE;
      status := Dead;
    }
  }

  /** The tasks are different objects, and they stand for fs. */
  ghost predicate Views(tasks: seq<Task>, fs: seq<Fiber>)
    reads tasks
  {
    && |fs| == |tasks|
    && (forall i :: 0 <= i < |tasks| ==> tasks[i].View() == fs[i])
    && (forall i, j :: 0 <= i < j < |tasks| ==> tasks[i] != tasks[j])
  }

  lemma OpenView(t: Task)
    ensures t.View().status == t.status
  {
  }

  lemma OpenViews(tasks: seq<Task>, fs: seq<Fiber>, f: nat)
    requires Views(tasks, fs) && f < |fs|
    ensures |tasks| == |fs| && tasks[f].View() == fs[f]
    ensures forall i :: 0 <= i < |tasks| && i != f ==> tasks[i] != tasks[f] && tasks[i].View() == fs[i]
    ensures forall i, j :: 0 <= i < j < |tasks| ==> tasks[i] != tasks[j]
  {
    hide Task.View;
  }

  lemma CloseViews(tasks: seq<Task>, fs: seq<Fiber>, f: nat)
    requires f < |tasks| == |fs| && forall i :: 0 <= i < |tasks| && i != f ==> tasks[i].View() == fs[i]
    requires forall i, j :: 0 <= i < j < |tasks| ==> tasks[i] != tasks[j]
    ensures Views(tasks, fs[f := tasks[f].View()])
  {
    hide Task.View;
  }

  lemma Launched(m: Machine, f: nat)
    requires Can(m, Action.Launch(f)) && !Loses(m, Action.Launch(f))
    ensures var q, b := Do(m, Action.Launch(f)), m.fibers[f];
            && q.stack == m.stack + [Launching(m.nextCtx, f, m.origin)]
            && q.origin == m.nextCtx && q.nextCtx == m.nextCtx + 1 && q.made == m.made
            && q.fibers == m.fibers[f := b.(status := Running)] && b.status in {Fresh, Suspended}
            && q.returned == m.returned + if b.status == Fresh then [] else [Return(f, b.call, [], b.op.ret)]
  {
  }

  lemma Dispatched(m: Machine, f: nat, w: Wakeup, result: int)
    requires Can(m, Action.Dispatch(f, w, result)) && !Loses(m, Action.Dispatch(f, w, result))
    ensures var q, b := Do(m, Action.Dispatch(f, w, result)), m.fibers[f];
            && q.stack == [Dispatching(m.nextCtx, f)] && q.origin == m.nextCtx && q.nextCtx == m.nextCtx + 1 && q.made == m.made
            && q.fibers == m.fibers[f := Resumed(b, w, result)] && b.status in {Fresh, Suspended}
            && q.returned == m.returned + if b.status == Fresh then []
                                          else [Return(f, b.call, Runs(b.op, w, result), RetAfter(b.op, w, result))]
  {
    hide Resumed, Runs, RetAfter;
  }

  class Sched {
    var origin: nat
    var tasks: seq<Task>
    var stack: seq<Activation>       // the C stack, outermost first
    var nextCtx: nat
    var made: seq<(nat, int, Dir)>   // every event_new for a descriptor
    var lost: bool                   // control has gone to what is no longer there
    ghost var returned: seq<Return>
    ghost var machine: Machine

    /** Every step keeps the control invariants of the machine, until control is lost. */
    ghost predicate Valid()
      reads this, tasks
    {
      Agrees() && (!lost ==> Linked(machine) && Occupied(machine))
    }

    ghost predicate Agrees()
      reads this, tasks
    {
      && Views(tasks, machine.fibers)
      && machine.origin == origin && machine.stack == stack && machine.nextCtx == nextCtx
      && machine.made == made && machine.returned == returned && machine.lost == lost
    }

    constructor ()
      ensures Valid() && machine == INIT && fresh(tasks)
    {
      origin, tasks, stack, nextCtx, made, lost := 0, [], [], 1, [], false;
      returned, machine := [], INIT;
    }

    method NewFiber() returns (t: Task)
      requires Valid() && Can(machine, Action.NewFiber)
      modifies this
      ensures Valid() && fresh(t) && tasks == old(tasks) + [t]
      ensures machine == Do(old(machine), Action.NewFiber)
    {
      hide Linked, Occupied;
      ControlKeeps(machine, Action.NewFiber);
      t := new Task();
      tasks := tasks + [t];
      machine := Do(machine, Action.NewFiber);
    }

    /** The call of coro_transfer that leaves the running fiber, and the end of the launch it resumes. */
    method Transfer()
      requires stack != []
      modifies `stack, `origin
      ensures stack == old(stack[..|stack| - 1])
      ensures var a := old(stack[|stack| - 1]); origin == if a.Launching? then a.save else old(origin)
    {
      var a := stack[|stack| - 1];
      stack := stack[..|stack| - 1];
      if a.Launching? {
        origin := a.save;
      }
    }

    method Launch(f: nat)
      requires Valid() && Can(machine, Action.Launch(f))
      modifies this, tasks
      ensures Valid() && tasks == old(tasks)
      ensures machine == Do(old(machine), Action.Launch(f))
    {
      hide Linked, Occupied, Do, Task.View, Views;
      ControlKeeps(machine, Action.Launch(f));
      Goes(machine, Action.Launch(f));
      OpenViews(tasks, machine.fibers, f);
      var t := tasks[f];
      assert t.View().status == t.status by { OpenView(t); }
      if t.status == Running || t.status == Dead {
        lost := true;
      } else {
        Launched(machine, f);
        if machine.fibers[f].status == Suspended {
          returned := returned + [Return(f, machine.fibers[f].call, [], machine.fibers[f].op.ret)];
        }
        var save := origin;
        origin := nextCtx;
        stack, nextCtx := stack + [Launching(origin, f, save)], nextCtx + 1;
        t.Start();
        CloseViews(tasks, machine.fibers, f);
      }
      machine := Do(machine, Action.Launch(f));
    }

    method Dispatch(f: nat, w: Wakeup, result: int)
      requires Valid() && Can(machine, Action.Dispatch(f, w, result))
      modifies this, tasks
      ensures Valid() && tasks == old(tasks)
      ensures machine == Do(old(machine), Action.Dispatch(f, w, result))
    {
      hide Linked, Occupied, Do, Resumed, Runs, Task.View, Views;
      ControlKeeps(machine, Action.Dispatch(f, w, result));
      Goes(machine, Action.Dispatch(f, w, result));
      OpenViews(tasks, machine.fibers, f);
      assert tasks[f].View().status == tasks[f].status by { OpenView(tasks[f]); }
      if tasks[f].status == Running || tasks[f].status == Dead {
        lost := true;
      } else {
        Dispatched(machine, f, w, result);
        ghost var ran, value := tasks[f].Resume(w, result);
        if machine.fibers[f].status == Suspended {
          returned := returned + [Return(f, machine.fibers[f].call, ran, value)];
        }
        CloseViews(tasks, machine.fibers, f);
        origin := nextCtx;
        stack, nextCtx := [Dispatching(origin, f)], nextCtx + 1;
      }
      machine := Do(machine, Action.Dispatch(f, w, result));
    }

    /** An async_* call by the running fiber. */
    method Await(call: Call)
      requires Valid() && Can(machine, Action.Await(call))
      modifies this, tasks
      ensures Valid() && tasks == old(tasks)
      ensures machine == Do(old(machine), Action.Await(call))
    {
      hide Linked, Occupied, Do, Waiting, Task.View, Views;
      ControlKeeps(machine, Action.Await(call));
      Stops(machine, Action.Await(call));
      var f := stack[|stack| - 1].fiber;
      OpenViews(tasks, machine.fibers, f);
      var created := tasks[f].Suspend(call);
      CloseViews(tasks, machine.fibers, f);
      if created {
        made := made + [(f, call.fd, DirOf(call.typ))];
      }
      Transfer();
      machine := Do(machine, Action.Await(call));
    }

    method Exit()
      requires Valid() && Can(machine, Action.Exit)
      modifies this, tasks
      ensures Valid() && tasks == old(tasks)
      ensures machine == Do(old(machine), Action.Exit)
    {
      hide Linked, Occupied, Do, Exited, Task.View, Views;
      ControlKeeps(machine, Action.Exit);
      Stops(machine, Action.Exit);
      var f := stack[|stack| - 1].fiber;
      OpenViews(tasks, machine.fibers, f);
      tasks[f].Finish();
      CloseViews(tasks, machine.fibers, f);
      Transfer();
      machine := Do(machine, Action.Exit);
    }

    method Wake(f: nat)
      requires Valid() && Can(machine, Action.Wake(f))
      modifies this, tasks
      ensures Valid() && tasks == old(tasks)
      ensures machine == Do(old(machine), Action.Wake(f))
    {
      hide Linked, Occupied;
      ControlKeeps(machine, Action.Wake(f));
      if tasks[f].status == Dead {
        lost := true;
      } else {
        tasks[f].yieldActive := true;
      }
      machine := Do(machine, Action.Wake(f));
    }
  }
}
