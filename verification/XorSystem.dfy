/**
  All threads together: every interleaving of their small steps, and what an observer can rely on.
 */
module XorSystem {
  import opened Ring
  import opened XorPipe
  import opened XorThreads

  /** What happens to a call: it is made, it takes effect, it returns. */
  datatype Event =
    | Invoked(t: nat, op: Op)
    | Took(t: nat, op: Op, env: Env, result: Result)
    | Returned(t: nat, result: Result)

  datatype System = System(shared: Shared, threads: map<nat, Thread>, trace: seq<Event>)

  /** Some thread makes a call, or takes its next small step; `ok` says whether what the kernel does
      for it in that step (the wait for the lock, a copy) succeeds. */
  datatype Action = Invoke(t: nat, op: Op) | Go(t: nat, ok: bool)

  function ThreadOf(sys: System, t: nat): Thread {
    if t in sys.threads then sys.threads[t] else Thread(Read(0), Idle)
  }

  function Init(trace: seq<Event>): seq<Event>
    requires trace != []
  {
    trace[..|trace| - 1]
  }

  function Last(trace: seq<Event>): Event
    requires trace != []
  {
    trace[|trace| - 1]
  }

  // ---------------------------------------------------------------- traces

  /** The pipe after the calls of a trace took effect, one after the other, each in a single step. */
  function Replay(start: Pipe, trace: seq<Event>): (p: Pipe)
    requires Sound(start)
    ensures Sound(p) && p.capacity == start.capacity && p.chunk == start.chunk
  {
    if trace == [] then start
    else
      var before := Replay(start, Init(trace));
      match Last(trace)
      case Took(_, op, env, _) => Step(before, op, env).0
      case _ => before
  }

  datatype Phase = Away | Pending(op: Op) | Effected(result: Result)

  /** Where the call of thread `t` stands at the end of a trace. */
  function PhaseOf(trace: seq<Event>, t: nat): Phase {
    if trace == [] then Away
    else if Last(trace).t != t then PhaseOf(Init(trace), t)
    else
      match Last(trace)
      case Invoked(_, op) => Pending(op)
      case Took(_, _, _, result) => Effected(result)
      case Returned(_, _) => Away
  }

  predicate Permitted(phase: Phase, e: Event) {
    match e
    case Invoked(_, _) => phase.Away?
    case Took(_, op, _, _) => phase == Pending(op)
    case Returned(_, result) => phase == Effected(result)
  }

  /** A linearized trace: each call takes effect once, between its invocation and its return, and
      gets the result the atomic step gives it at that point. */
  predicate Linearized(start: Pipe, trace: seq<Event>)
    requires Sound(start)
  {
    trace == [] ||
    (&& Linearized(start, Init(trace))
     && Permitted(PhaseOf(Init(trace), Last(trace).t), Last(trace))
     && (match Last(trace)
         case Took(_, op, env, result) => result == Step(Replay(start, Init(trace)), op, env).1
         case _ => true))
  }

  // ---------------------------------------------------------------- the invariant

  /** The thread is where the trace says, and holds the lock exactly inside its critical section, with
      the pipe as far changed as its position tells. */
  predicate ThreadOk(p: Pipe, s: Shared, trace: seq<Event>, t: nat, th: Thread)
    requires Sound(p) && Consistent(s)
  {
    && (Critical(th.pc) <==> s.lock == Some(t))
    && match th.pc
       case Idle => PhaseOf(trace, t) == Away
       case Calling => PhaseOf(trace, t) == Pending(th.op)
       case KeyCopied => PhaseOf(trace, t) == Pending(th.op) && th.op.SetKey?
       case Finished(result) => PhaseOf(trace, t) == Effected(result)
       case _ => PhaseOf(trace, t) == Pending(th.op) && Progress(p, View(s), th.op, th.pc)
  }

  ghost predicate Inv(start: Pipe, sys: System) {
    && Sound(start) && Consistent(sys.shared)
    && View(sys.shared).capacity == start.capacity && View(sys.shared).chunk == start.chunk
    && Linearized(start, sys.trace)
    && (sys.shared.lock == None ==> View(sys.shared) == Replay(start, sys.trace))
    && forall t: nat :: ThreadOk(Replay(start, sys.trace), sys.shared, sys.trace, t, ThreadOf(sys, t))
  }

  // ---------------------------------------------------------------- the steps

  function Move(sys: System, t: nat, pc: Pc): System {
    sys.(threads := sys.threads[t := Thread(ThreadOf(sys, t).op, pc)])
  }

  function Record(sys: System, e: Event): System {
    sys.(trace := sys.trace + [e])
  }

  /** The call ends without having touched the device. */
  function GiveUp(sys: System, t: nat, env: Env, error: Errno): System {
    Record(Move(sys, t, Finished(Failed(error, []))), Took(t, ThreadOf(sys, t).op, env, Failed(error, [])))
  }

  /** `mutex_lock_interruptible`: interrupted, granted, or still waiting. */
  function TryLock(sys: System, t: nat, ok: bool): System {
    if !ok then GiveUp(sys, t, Interrupted, ERESTARTSYS)
    else if sys.shared.lock == None then Move(sys, t, Entered).(shared := sys.shared.(lock := Some(t)))
    else sys
  }

  /** One step of the holder inside its critical section. */
  ghost function Inside(start: Pipe, sys: System, t: nat, ok: bool): System
    requires Inv(start, sys) && Critical(ThreadOf(sys, t).pc) && !ThreadOf(sys, t).pc.Leaving?
  {
    var Thread(op, pc) := ThreadOf(sys, t);
    assert ThreadOk(Replay(start, sys.trace), sys.shared, sys.trace, t, ThreadOf(sys, t));
    RingIsQueue(sys.shared, Nothing);
    HolderAdvances(Replay(start, sys.trace), View(sys.shared), op, pc, ok, See(sys.shared));
    Move(sys, t, NextPc(op, pc, ok, See(sys.shared))).(shared := Apply(sys.shared, EffectOf(op, pc, sys.shared.key)))
  }

  ghost function Next(start: Pipe, sys: System, a: Action): System
    requires Inv(start, sys)
  {
    var Thread(op, pc) := ThreadOf(sys, a.t);
    match a
    case Invoke(t, newOp) =>
      if pc.Idle? then Record(sys.(threads := sys.threads[t := Thread(newOp, Calling)]), Invoked(t, newOp)) else sys
    case Go(t, ok) =>
      match pc
      case Idle => sys
      case Calling =>
        if !op.SetKey? then TryLock(sys, t, ok)
        else if ok then Move(sys, t, KeyCopied)
        else GiveUp(sys, t, Fault(0), EFAULT)
      case KeyCopied => TryLock(sys, t, ok)
      case Leaving(env, result) =>
        Record(Move(sys, t, Finished(result)), Took(t, op, env, result)).(shared := sys.shared.(lock := None))
      case Finished(result) => Record(Move(sys, t, Idle), Returned(t, result))
      case _ => Inside(start, sys, t, ok)
  }

  // ---------------------------------------------------------------- the invariant is kept

  lemma Snoc(start: Pipe, trace: seq<Event>, e: Event)
    requires Sound(start)
    ensures Init(trace + [e]) == trace && Last(trace + [e]) == e
    ensures forall t: nat | t != e.t :: PhaseOf(trace + [e], t) == PhaseOf(trace, t)
    ensures Replay(start, trace + [e]) ==
            if e.Took? then Step(Replay(start, trace), e.op, e.env).0 else Replay(start, trace)
  {
  }

  /** Changing one thread and nothing the others can see leaves the others in order. */
  lemma OthersKept(start: Pipe, sys: System, sys': System, t: nat)
    requires Inv(start, sys) && Consistent(sys'.shared)
    requires View(sys'.shared) == View(sys.shared)
    requires Replay(start, sys'.trace) == Replay(start, sys.trace)
    requires forall u: nat | u != t :: PhaseOf(sys'.trace, u) == PhaseOf(sys.trace, u)
    requires forall u: nat | u != t :: ThreadOf(sys', u) == ThreadOf(sys, u)
    requires forall u: nat | u != t :: sys'.shared.lock == Some(u) <==> sys.shared.lock == Some(u)
    ensures forall u: nat | u != t :: ThreadOk(Replay(start, sys'.trace), sys'.shared, sys'.trace, u, ThreadOf(sys', u))
  {
    forall u: nat | u != t
      ensures ThreadOk(Replay(start, sys'.trace), sys'.shared, sys'.trace, u, ThreadOf(sys', u))
    {
      assert ThreadOk(Replay(start, sys.trace), sys.shared, sys.trace, u, ThreadOf(sys, u));
    }
  }

  lemma InvokeKeeps(start: Pipe, sys: System, t: nat, op: Op)
    requires Inv(start, sys)
    ensures Inv(start, Next(start, sys, Invoke(t, op)))
  {
    var sys' := Next(start, sys, Invoke(t, op));
    assert ThreadOk(Replay(start, sys.trace), sys.shared, sys.trace, t, ThreadOf(sys, t));
    if ThreadOf(sys, t).pc.Idle? {
      Snoc(start, sys.trace, Invoked(t, op));
      OthersKept(start, sys, sys', t);
    }
  }

  lemma GiveUpKeeps(start: Pipe, sys: System, t: nat, env: Env, error: Errno)
    requires Inv(start, sys)
    requires var th := ThreadOf(sys, t);
             && (th.pc.Calling? || th.pc.KeyCopied?)
             && Step(Replay(start, sys.trace), th.op, env) == (Replay(start, sys.trace), Failed(error, []))
    ensures Inv(start, GiveUp(sys, t, env, error))
  {
    var sys' := GiveUp(sys, t, env, error);
    assert ThreadOk(Replay(start, sys.trace), sys.shared, sys.trace, t, ThreadOf(sys, t));
    Snoc(start, sys.trace, Took(t, ThreadOf(sys, t).op, env, Failed(error, [])));
    OthersKept(start, sys, sys', t);
  }

  lemma TryLockKeeps(start: Pipe, sys: System, t: nat, ok: bool)
    requires Inv(start, sys)
    requires var th := ThreadOf(sys, t); th.pc.KeyCopied? || (th.pc.Calling? && !th.op.SetKey?)
    ensures Inv(start, TryLock(sys, t, ok))
  {
    assert ThreadOk(Replay(start, sys.trace), sys.shared, sys.trace, t, ThreadOf(sys, t));
    if !ok {
      GiveUpKeeps(start, sys, t, Interrupted, ERESTARTSYS);
    } else if sys.shared.lock == None {
      OthersKept(start, sys, TryLock(sys, t, ok), t);
    }
  }

  lemma CopyKeyKeeps(start: Pipe, sys: System, t: nat)
    requires Inv(start, sys) && ThreadOf(sys, t).pc.Calling? && ThreadOf(sys, t).op.SetKey?
    ensures Inv(start, Move(sys, t, KeyCopied))
  {
    assert ThreadOk(Replay(start, sys.trace), sys.shared, sys.trace, t, ThreadOf(sys, t));
    OthersKept(start, sys, Move(sys, t, KeyCopied), t);
  }

  lemma ReturnKeeps(start: Pipe, sys: System, t: nat, ok: bool)
    requires Inv(start, sys) && ThreadOf(sys, t).pc.Finished?
    ensures Inv(start, Next(start, sys, Go(t, ok)))
  {
    var sys' := Next(start, sys, Go(t, ok));
    assert ThreadOk(Replay(start, sys.trace), sys.shared, sys.trace, t, ThreadOf(sys, t));
    Snoc(start, sys.trace, Returned(t, ThreadOf(sys, t).pc.result));
    OthersKept(start, sys, sys', t);
  }

  /** While a thread holds the lock, every other thread is outside and stays in order whatever the
      device and the account of effects do. */
  lemma OutsidersKept(start: Pipe, sys: System, sys': System, t: nat)
    requires Inv(start, sys) && Consistent(sys'.shared) && sys.shared.lock == Some(t)
    requires forall u: nat | u != t :: PhaseOf(sys'.trace, u) == PhaseOf(sys.trace, u)
    requires forall u: nat | u != t :: ThreadOf(sys', u) == ThreadOf(sys, u)
    requires forall u: nat | u != t :: sys'.shared.lock != Some(u)
    ensures forall u: nat | u != t :: ThreadOk(Replay(start, sys'.trace), sys'.shared, sys'.trace, u, ThreadOf(sys', u))
  {
    forall u: nat | u != t
      ensures ThreadOk(Replay(start, sys'.trace), sys'.shared, sys'.trace, u, ThreadOf(sys', u))
    {
      assert ThreadOk(Replay(start, sys.trace), sys.shared, sys.trace, u, ThreadOf(sys, u));
    }
  }

  lemma UnlockKeeps(start: Pipe, sys: System, t: nat, ok: bool)
    requires Inv(start, sys) && ThreadOf(sys, t).pc.Leaving?
    ensures Inv(start, Next(start, sys, Go(t, ok)))
  {
    var sys' := Next(start, sys, Go(t, ok));
    var Thread(op, pc) := ThreadOf(sys, t);
    assert ThreadOk(Replay(start, sys.trace), sys.shared, sys.trace, t, ThreadOf(sys, t));
    Snoc(start, sys.trace, Took(t, op, pc.env, pc.result));
    OutsidersKept(start, sys, sys', t);
  }

  lemma InsideKeeps(start: Pipe, sys: System, t: nat, ok: bool)
    requires Inv(start, sys) && Critical(ThreadOf(sys, t).pc) && !ThreadOf(sys, t).pc.Leaving?
    ensures Inv(start, Inside(start, sys, t, ok))
  {
    hide Progress, Step, Window, Linearized, Replay, PhaseOf;
    var sys' := Inside(start, sys, t, ok);
    var Thread(op, pc) := ThreadOf(sys, t);
    assert ThreadOk(Replay(start, sys.trace), sys.shared, sys.trace, t, ThreadOf(sys, t));
    RingIsQueue(sys.shared, Nothing);
    HolderAdvances(Replay(start, sys.trace), View(sys.shared), op, pc, ok, See(sys.shared));
    RingIsQueue(sys.shared, EffectOf(op, pc, sys.shared.key));
    ProgressShape(Replay(start, sys.trace), View(sys'.shared), op, ThreadOf(sys', t).pc);
    OutsidersKept(start, sys, sys', t);
  }

  lemma NextKeeps(start: Pipe, sys: System, a: Action)
    requires Inv(start, sys)
    ensures Inv(start, Next(start, sys, a))
  {
    match a
    case Invoke(t, op) => InvokeKeeps(start, sys, t, op);
    case Go(t, ok) =>
      assert ThreadOk(Replay(start, sys.trace), sys.shared, sys.trace, t, ThreadOf(sys, t));
      var Thread(op, pc) := ThreadOf(sys, t);
      match pc {
        case Idle =>
        case Calling =>
          if !op.SetKey? { TryLockKeeps(start, sys, t, ok); }
          else if ok { CopyKeyKeeps(start, sys, t); }
          else { GiveUpKeeps(start, sys, t, Fault(0), EFAULT); }
        case KeyCopied => TryLockKeeps(start, sys, t, ok);
        case Leaving(_, _) => UnlockKeeps(start, sys, t, ok);
        case Finished(_) => ReturnKeeps(start, sys, t, ok);
        case _ => InsideKeeps(start, sys, t, ok);
      }
  }

  // ---------------------------------------------------------------- all interleavings

  /** The device as it is initialised, no call in progress. */
  function Boot(capacity: nat, chunk: nat, key: bv8): System
    requires capacity > 0
  {
    System(Shared(seq(capacity, _ => 0), 0, 0, 0, key, chunk, None), map[], [])
  }

  ghost function Exec(start: Pipe, sys: System, actions: seq<Action>): (r: System)
    requires Inv(start, sys)
    ensures Inv(start, r)
    decreases actions
  {
    if actions == [] then sys
    else
      NextKeeps(start, sys, actions[0]);
      Exec(start, Next(start, sys, actions[0]), actions[1..])
  }

  lemma BootInv(capacity: nat, chunk: nat, key: bv8)
    requires capacity > 0 && chunk > 0
    ensures Inv(Pipe(capacity, chunk, [], key), Boot(capacity, chunk, key))
  {
    assert View(Boot(capacity, chunk, key).shared).stored == [];
  }

  /** Linearizability. Whatever calls any number of threads make and however their small steps
      interleave, interruptions and faults included: the trace is linearized, so the results are
      those of atomic calls taking effect one after the other, each between its invocation and its
      return; and whenever the lock is free the ring holds exactly what those atomic calls leave. */
  lemma Linearizable(capacity: nat, chunk: nat, key: bv8, actions: seq<Action>)
    requires capacity > 0 && chunk > 0
    ensures var start, boot := Pipe(capacity, chunk, [], key), Boot(capacity, chunk, key);
            && Inv(start, boot)
            && var sys := Exec(start, boot, actions);
            && Linearized(start, sys.trace)
            && (sys.shared.lock == None ==> View(sys.shared) == Replay(start, sys.trace))
            && (forall t: nat | !Critical(ThreadOf(sys, t).pc) :: sys.shared.lock != Some(t))
  {
    BootInv(capacity, chunk, key);
    var start := Pipe(capacity, chunk, [], key);
    var sys := Exec(start, Boot(capacity, chunk, key), actions);
    forall t: nat | !Critical(ThreadOf(sys, t).pc) ensures sys.shared.lock != Some(t) {
      assert ThreadOk(Replay(start, sys.trace), sys.shared, sys.trace, t, ThreadOf(sys, t));
    }
  }

  predicate Silent(trace: seq<Event>, t: nat, from: nat, to: nat) {
    forall i | from < i < to && i < |trace| :: trace[i].t != t
  }

  /** The last event of a thread is where its phase comes from. */
  lemma {:induction false} PhaseEvent(trace: seq<Event>, t: nat) returns (i: nat)
    requires PhaseOf(trace, t) != Away
    ensures i < |trace| && trace[i].t == t && Silent(trace, t, i, |trace|)
    ensures PhaseOf(trace, t).Pending? ==> trace[i] == Invoked(t, PhaseOf(trace, t).op)
    ensures PhaseOf(trace, t).Effected? ==> trace[i].Took? && trace[i].result == PhaseOf(trace, t).result
  {
    if Last(trace).t == t {
      i := |trace| - 1;
    } else {
      i := PhaseEvent(Init(trace), t);
      assert forall k | i < k < |trace| - 1 :: trace[k] == Init(trace)[k];
    }
  }

  lemma {:induction false} PrefixLinearized(start: Pipe, trace: seq<Event>, n: nat)
    requires Sound(start) && Linearized(start, trace) && n <= |trace|
    ensures Linearized(start, trace[..n])
  {
    if n == |trace| {
      assert trace[..n] == trace;
    } else {
      PrefixLinearized(start, Init(trace), n);
      assert Init(trace)[..n] == trace[..n];
    }
  }

  /** What linearized means for one call that has returned: its effect lies between its invocation
      and its return, with no other event of that thread among the three, and gave the result
      returned. Hence effects follow the real-time order of the calls. */
  lemma LinearizationPoint(start: Pipe, trace: seq<Event>, r: nat) returns (i: nat, e: nat)
    requires Sound(start) && Linearized(start, trace) && r < |trace| && trace[r].Returned?
    ensures i < e < r && Silent(trace, trace[r].t, i, e) && Silent(trace, trace[r].t, e, r)
    ensures trace[i].Invoked? && trace[i].t == trace[r].t
    ensures trace[e].Took? && trace[e].t == trace[r].t && trace[e].op == trace[i].op
    ensures trace[e].result == trace[r].result == Step(Replay(start, trace[..e]), trace[e].op, trace[e].env).1
  {
    hide Step;
    var t := trace[r].t;
    PrefixLinearized(start, trace, r + 1);
    assert Init(trace[..r + 1]) == trace[..r];
    e := PhaseEvent(trace[..r], t);
    PrefixLinearized(start, trace, e + 1);
    assert Init(trace[..e + 1]) == trace[..e];
    i := PhaseEvent(trace[..e], t);
    assert forall k | e < k < r :: trace[k] == trace[..r][k];
    assert forall k | i < k < e :: trace[k] == trace[..e][k];
  }

  // ---------------------------------------------------------------- nothing fails by itself

  /** How many calls of thread `t` took effect as interrupted or faulting ones. */
  function Failures(trace: seq<Event>, t: nat): nat {
    if trace == [] then 0
    else Failures(Init(trace), t) + if Last(trace).Took? && Last(trace).t == t && Last(trace).env != Fine then 1 else 0
  }

  /** How often the kernel refused thread `t` its wait or its copy. */
  function Refusals(actions: seq<Action>, t: nat): nat {
    if actions == [] then 0 else (if actions[0] == Go(t, false) then 1 else 0) + Refusals(actions[1..], t)
  }

  /** The failures of a thread so far, counting one that it is about to report. */
  function Failing(sys: System, t: nat): nat {
    var pc := ThreadOf(sys, t).pc;
    Failures(sys.trace, t) + if pc.Leaving? && pc.env != Fine then 1 else 0
  }

  lemma FailuresSnoc(trace: seq<Event>, e: Event, t: nat)
    ensures Failures(trace + [e], t) == Failures(trace, t) + if e.Took? && e.t == t && e.env != Fine then 1 else 0
  {
    assert Init(trace + [e]) == trace;
  }

  lemma FailingNext(start: Pipe, sys: System, a: Action, t: nat)
    requires Inv(start, sys)
    ensures Failing(Next(start, sys, a), t) <= Failing(sys, t) + if a == Go(t, false) then 1 else 0
  {
    hide Inv, Failures, Apply, See, EffectOf;
    var next := Next(start, sys, a);
    if |next.trace| > |sys.trace| { FailuresSnoc(sys.trace, Last(next.trace), t); }
  }

  lemma {:induction false} FailingExec(start: Pipe, sys: System, actions: seq<Action>, t: nat)
    requires Inv(start, sys)
    ensures Failing(Exec(start, sys, actions), t) <= Failing(sys, t) + Refusals(actions, t)
    decreases actions
  {
    hide Inv, Next, Failing;
    if actions != [] {
      NextKeeps(start, sys, actions[0]);
      FailingNext(start, sys, actions[0], t);
      FailingExec(start, Next(start, sys, actions[0]), actions[1..], t);
    }
  }

  lemma {:induction false} NoFailures(trace: seq<Event>, t: nat)
    requires Failures(trace, t) == 0
    ensures forall i | 0 <= i < |trace| && trace[i].Took? && trace[i].t == t :: trace[i].env == Fine
  {
    if trace != [] {
      NoFailures(Init(trace), t);
      assert forall i | 0 <= i < |trace| - 1 :: trace[i] == Init(trace)[i];
    }
  }

  /** The linearization blames the kernel for nothing it did not do: a thread's calls are interrupted
      or fault at most as often as the kernel refused it something, and never if it refused nothing. */
  lemma NothingSpurious(capacity: nat, chunk: nat, key: bv8, actions: seq<Action>, t: nat)
    requires capacity > 0 && chunk > 0
    ensures var start, boot := Pipe(capacity, chunk, [], key), Boot(capacity, chunk, key);
            && Inv(start, boot)
            && var trace := Exec(start, boot, actions).trace;
            && Failures(trace, t) <= Refusals(actions, t)
            && (Refusals(actions, t) == 0 ==>
                  forall i | 0 <= i < |trace| && trace[i].Took? && trace[i].t == t :: trace[i].env == Fine)
  {
    BootInv(capacity, chunk, key);
    var start, boot := Pipe(capacity, chunk, [], key), Boot(capacity, chunk, key);
    hide Inv, Exec;
    FailingExec(start, boot, actions, t);
    var trace := Exec(start, boot, actions).trace;
    if Failures(trace, t) == 0 { NoFailures(trace, t); }
  }

  // ---------------------------------------------------------------- the lock is released

  /** How many of the actions are steps of thread `t`. */
  function StepsOf(t: nat, actions: seq<Action>): nat {
    if actions == [] then 0 else (if actions[0].Go? && actions[0].t == t then 1 else 0) + StepsOf(t, actions[1..])
  }

  lemma HolderWork(start: Pipe, sys: System, t: nat, ok: bool)
    requires Inv(start, sys) && sys.shared.lock == Some(t)
    ensures var Thread(op, pc) := ThreadOf(sys, t);
            var next := Next(start, sys, Go(t, ok));
            && Critical(pc) && 0 <= Work(op, pc)
            && (pc.Leaving? ==> next.shared.lock == None)
            && (!pc.Leaving? ==> next.shared.lock == Some(t) && ThreadOf(next, t).op == op
                                 && 0 <= Work(op, ThreadOf(next, t).pc) < Work(op, pc))
  {
    hide Progress, Step, Window, Linearized, Replay, PhaseOf, NextPc, Work;
    var Thread(op, pc) := ThreadOf(sys, t);
    assert ThreadOk(Replay(start, sys.trace), sys.shared, sys.trace, t, ThreadOf(sys, t));
    if pc.Leaving? {
      WorkDone(op, pc);
    } else {
      RingIsQueue(sys.shared, Nothing);
      ProgressInBounds(Replay(start, sys.trace), View(sys.shared), op, pc, See(sys.shared));
      HolderEnds(op, pc, ok, See(sys.shared));
      HolderAdvances(Replay(start, sys.trace), View(sys.shared), op, pc, ok, See(sys.shared));
      RingIsQueue(sys.shared, EffectOf(op, pc, sys.shared.key));
    }
  }

  /** Nothing the other threads do, nor a call it cannot make now, moves the holder or takes its lock. */
  lemma HolderUndisturbed(start: Pipe, sys: System, t: nat, a: Action)
    requires Inv(start, sys) && sys.shared.lock == Some(t) && (a.Invoke? || a.t != t)
    ensures Next(start, sys, a).shared.lock == Some(t) && ThreadOf(Next(start, sys, a), t) == ThreadOf(sys, t)
  {
    assert ThreadOk(Replay(start, sys.trace), sys.shared, sys.trace, t, ThreadOf(sys, t));
    assert ThreadOk(Replay(start, sys.trace), sys.shared, sys.trace, a.t, ThreadOf(sys, a.t));
  }

  /** A thread inside its critical section unlocks within a bounded number of its own steps, whatever
      the outcomes of its copies and whatever the other threads do in between: in any schedule that
      has it take more steps than its work, a prefix with no more than one beyond that frees the lock. */
  lemma {:induction false} LockIsReleased(start: Pipe, sys: System, t: nat, actions: seq<Action>) returns (k: nat)
    requires Inv(start, sys) && sys.shared.lock == Some(t)
    requires StepsOf(t, actions) > Work(ThreadOf(sys, t).op, ThreadOf(sys, t).pc)
    ensures k <= |actions| && StepsOf(t, actions[..k]) <= Work(ThreadOf(sys, t).op, ThreadOf(sys, t).pc) + 1
    ensures Exec(start, sys, actions[..k]).shared.lock == None
    decreases |actions|
  {
    hide Inv, Next, Work;
    HolderWork(start, sys, t, true);
    var a, later := actions[0], actions[1..];
    NextKeeps(start, sys, a);
    if a.Go? && a.t == t {
      HolderWork(start, sys, t, a.ok);
    } else {
      HolderUndisturbed(start, sys, t, a);
    }
    if a.Go? && a.t == t && ThreadOf(sys, t).pc.Leaving? {
      k := 1;
      assert actions[..1][1..] == [];
    } else {
      var n := LockIsReleased(start, Next(start, sys, a), t, later);
      k := n + 1;
      assert actions[..k][1..] == later[..n];
    }
  }

  // ---------------------------------------------------------------- the history of all threads

  /** The calls of a trace in the order in which they took effect, and what they handed out. */
  function CallsOf(trace: seq<Event>): seq<Call> {
    if trace == [] then []
    else CallsOf(Init(trace)) + if Last(trace).Took? then [Call(Last(trace).op, Last(trace).env)] else []
  }

  function HandedOut(trace: seq<Event>): seq<bv8> {
    if trace == [] then []
    else HandedOut(Init(trace)) + if Last(trace).Took? then Last(trace).result.out else []
  }

  lemma {:induction false} OutputsSnoc(p: Pipe, h: History, calls: seq<Call>, c: Call)
    requires Sound(p)
    ensures Outputs(p, calls + [c]) == Outputs(p, calls) + Step(Run(p, h, calls).0, c.op, c.env).1.out
    decreases calls
  {
    if calls == [] {
      assert calls + [c] == [c];
    } else {
      assert (calls + [c])[1..] == calls[1..] + [c];
      OutputsSnoc(Step(p, calls[0].op, calls[0].env).0, XorPipe.Record(h, p, calls[0]), calls[1..], c);
    }
  }

  /** The trace of any interleaving is a sequential run of the pipe. */
  lemma {:induction false} TraceIsRun(start: Pipe, trace: seq<Event>)
    requires Sound(start) && Linearized(start, trace)
    ensures Replay(start, trace) == Run(start, History([], []), CallsOf(trace)).0
    ensures HandedOut(trace) == Outputs(start, CallsOf(trace))
  {
    if trace != [] {
      TraceIsRun(start, Init(trace));
      var e := Last(trace);
      if e.Took? {
        RunSnoc(start, History([], []), CallsOf(Init(trace)), Call(e.op, e.env));
        OutputsSnoc(start, History([], []), CallsOf(Init(trace)), Call(e.op, e.env));
      } else {
        assert CallsOf(trace) == CallsOf(Init(trace));
      }
    }
  }

  /** First in, first out for all threads together: over every interleaving, the bytes handed out
      are, in the order of effects, the accepted bytes under both keys; nothing is reordered,
      duplicated or invented, and only faulting reads lose anything. */
  lemma ConcurrentFifo(start: Pipe, trace: seq<Event>)
    requires Sound(start) && start.stored == [] && Linearized(start, trace)
    ensures var (q, h) := Run(start, History([], []), CallsOf(trace));
            q == Replay(start, trace) && Balanced(q, h) && DeliveredBytes(h.removed) == HandedOut(trace)
  {
    TraceIsRun(start, trace);
    RunBalanced(start, History([], []), CallsOf(trace));
    HistoryIsReal(start, History([], []), CallsOf(trace));
  }
}
