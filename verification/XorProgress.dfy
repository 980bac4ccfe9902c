/**
  What threads can achieve: a call that meets a free lock goes through with the outcome of the atomic
  step, whatever the kernel does to it, and so every sequence of atomic calls is a run of the driver.
 */
module XorProgress {
  import opened Ring
  import opened XorPipe
  import opened XorThreads
  import opened XorSystem

  // ---------------------------------------------------------------- the holder gets to the end

  /** The holder has not yet passed the point where the kernel is to fail it. */
  predicate Ahead(p: Pipe, op: Op, env: Env, pc: Pc)
    requires Sound(p)
  {
    match pc
    case Entered => !env.Interrupted? && !(op.SetKey? && env.Fault?)
    case Writing(_, _, c) => !env.Interrupted? && (env.Fault? ==> c <= env.at)
    case Encrypting(_, _, c, _, _) => !env.Interrupted? && (env.Fault? ==> c < env.at)
    case Reading(_, _, c, _) => !env.Interrupted? && (env.Fault? ==> c <= env.at)
    case Decrypting(_, _, c, _, _, _) => !env.Interrupted? && (env.Fault? ==> c <= env.at)
    case Leaving(e, _) => Step(p, op, e) == Step(p, op, env) && (env.Fine? ==> e.Fine?)
    case _ => false
  }

  /** Whether the copy made in a step, if one is, succeeds. */
  predicate Succeeds(env: Env, pc: Pc) {
    match pc
    case Writing(_, _, c) => env != Fault(c)
    case Decrypting(_, _, c, _, _, _) => env != Fault(c)
    case _ => true
  }

  lemma AheadEnter(p: Pipe, v: Pipe, op: Op, env: Env, see: Sight)
    requires Sound(p) && Progress(p, v, op, Entered) && Sees(see, v) && Ahead(p, op, env, Entered)
    ensures Ahead(p, op, env, NextPc(op, Entered, true, see))
  {
  }

  lemma AheadWrite(p: Pipe, v: Pipe, op: Op, pc: Pc, env: Env, see: Sight)
    requires Sound(p) && Progress(p, v, op, pc) && Sees(see, v) && |v.stored| <= v.capacity && Ahead(p, op, env, pc)
    requires pc.Writing? || pc.Encrypting?
    ensures pc.Writing? && pc.written < pc.toWrite ==> op.Write? && pc.toWrite <= |op.data|
    ensures Ahead(p, op, env, NextPc(op, pc, Succeeds(env, pc), see))
  {
    hide Filled, Drained, Decrypted;
    if pc.Writing? && pc.written >= pc.toWrite { NoFaultLeft(pc.copies, p.chunk, pc.toWrite, env); }
  }

  lemma AheadRead(p: Pipe, v: Pipe, op: Op, pc: Pc, env: Env, see: Sight)
    requires Sound(p) && Progress(p, v, op, pc) && Sees(see, v) && |v.stored| <= v.capacity && Ahead(p, op, env, pc)
    requires pc.Reading? || pc.Decrypting?
    ensures Ahead(p, op, env, NextPc(op, pc, Succeeds(env, pc), see))
  {
    hide Filled, Drained, Decrypted;
    if pc.Reading? && pc.bytesRead >= pc.toRead { NoFaultLeft(pc.copies, p.chunk, pc.toRead, env); }
  }

  /** Nothing happened but that call of thread `t`: its effect, with the outcome of the atomic step
      under `env`, and its return. If the kernel is to do nothing, it is not said to have done anything. */
  ghost predicate Served(start: Pipe, sys: System, t: nat, env: Env, end: System)
    requires Inv(start, sys)
  {
    var op := ThreadOf(sys, t).op;
    var r := Step(Replay(start, sys.trace), op, env).1;
    && end.shared.lock == None && ThreadOf(end, t).pc == Idle
    && (forall u: nat | u != t :: ThreadOf(end, u) == ThreadOf(sys, u))
    && exists e: Env ::
         && end.trace == sys.trace + [Took(t, op, e, r), Returned(t, r)]
         && Step(Replay(start, sys.trace), op, e) == Step(Replay(start, sys.trace), op, env)
         && (env.Fine? ==> e.Fine?)
  }

  /** Steps of thread `t` alone, none refused by the kernel unless it is to do something. */
  predicate Own(t: nat, env: Env, actions: seq<Action>) {
    forall i | 0 <= i < |actions| :: actions[i] == Go(t, true) || (!env.Fine? && actions[i] == Go(t, false))
  }

  lemma ExecFirst(start: Pipe, sys: System, a: Action, later: seq<Action>)
    requires Inv(start, sys)
    ensures Inv(start, Next(start, sys, a))
    ensures Exec(start, sys, [a] + later) == Exec(start, Next(start, sys, a), later)
  {
    NextKeeps(start, sys, a);
    assert ([a] + later)[1..] == later;
  }

  lemma ReturnServes(start: Pipe, sys: System, t: nat, env: Env, e: Env, left: System)
    requires Inv(start, sys) && Inv(start, left)
    requires var op, r := ThreadOf(sys, t).op, Step(Replay(start, sys.trace), ThreadOf(sys, t).op, env).1;
             && left.shared.lock == None && ThreadOf(left, t).pc == Finished(r)
             && (forall u: nat | u != t :: ThreadOf(left, u) == ThreadOf(sys, u))
             && left.trace == sys.trace + [Took(t, op, e, r)]
             && Step(Replay(start, sys.trace), op, e) == Step(Replay(start, sys.trace), op, env)
             && (env.Fine? ==> e.Fine?)
    ensures Served(start, sys, t, env, Exec(start, left, [Go(t, true)]))
  {
    hide Inv, Replay, Step;
    ExecFirst(start, left, Go(t, true), []);
    assert [Go(t, true)] + [] == [Go(t, true)];
    var op, r := ThreadOf(sys, t).op, Step(Replay(start, sys.trace), ThreadOf(sys, t).op, env).1;
    assert sys.trace + [Took(t, op, e, r)] + [Returned(t, r)] == sys.trace + [Took(t, op, e, r), Returned(t, r)];
  }

  /** A step of the holder inside its critical section. */
  lemma HolderGoesOn(start: Pipe, sys: System, t: nat, env: Env)
    requires Inv(start, sys) && sys.shared.lock == Some(t) && !ThreadOf(sys, t).pc.Leaving?
    requires Ahead(Replay(start, sys.trace), ThreadOf(sys, t).op, env, ThreadOf(sys, t).pc)
    ensures var next := Next(start, sys, Go(t, Succeeds(env, ThreadOf(sys, t).pc)));
            && next.trace == sys.trace && (forall u: nat | u != t :: ThreadOf(next, u) == ThreadOf(sys, u))
            && ThreadOf(next, t).op == ThreadOf(sys, t).op
            && Ahead(Replay(start, sys.trace), ThreadOf(sys, t).op, env, ThreadOf(next, t).pc)
  {
    hide Progress, Step, Window, Linearized, Replay, PhaseOf, NextPc, Ahead;
    var Thread(op, pc) := ThreadOf(sys, t);
    var p, v, see := Replay(start, sys.trace), View(sys.shared), See(sys.shared);
    assert ThreadOk(p, sys.shared, sys.trace, t, ThreadOf(sys, t));
    RingIsQueue(sys.shared, Nothing);
    ProgressShape(p, v, op, pc);
    match pc {
      case Entered => AheadEnter(p, v, op, env, see);
      case Writing(_, _, _) => AheadWrite(p, v, op, pc, env, see);
      case Encrypting(_, _, _, _, _) => AheadWrite(p, v, op, pc, env, see);
      case Reading(_, _, _, _) => AheadRead(p, v, op, pc, env, see);
      case Decrypting(_, _, _, _, _, _) => AheadRead(p, v, op, pc, env, see);
    }
  }

  /** The holder unlocks with the outcome of the atomic step. */
  lemma HolderLeaves(start: Pipe, sys: System, t: nat, env: Env)
    requires Inv(start, sys) && sys.shared.lock == Some(t) && ThreadOf(sys, t).pc.Leaving?
    requires Ahead(Replay(start, sys.trace), ThreadOf(sys, t).op, env, ThreadOf(sys, t).pc)
    ensures Inv(start, Next(start, sys, Go(t, true)))
    ensures Served(start, sys, t, env, Exec(start, sys, [Go(t, true), Go(t, true)]))
  {
    var Thread(op, pc) := ThreadOf(sys, t);
    var left := Next(start, sys, Go(t, true));
    assert ThreadOk(Replay(start, sys.trace), sys.shared, sys.trace, t, ThreadOf(sys, t));
    hide Inv, Replay, Step, Progress;
    ExecFirst(start, sys, Go(t, true), [Go(t, true)]);
    assert [Go(t, true)] + [Go(t, true)] == [Go(t, true), Go(t, true)];
    ReturnServes(start, sys, t, env, pc.env, left);
  }

  /** From anywhere in its critical section, by its own steps. */
  lemma {:induction false} HolderFinishes(start: Pipe, sys: System, t: nat, env: Env) returns (actions: seq<Action>)
    requires Inv(start, sys) && sys.shared.lock == Some(t)
    requires Ahead(Replay(start, sys.trace), ThreadOf(sys, t).op, env, ThreadOf(sys, t).pc)
    ensures Own(t, env, actions) && Served(start, sys, t, env, Exec(start, sys, actions))
    decreases Work(ThreadOf(sys, t).op, ThreadOf(sys, t).pc)
  {
    hide Inv, Next, Ahead, Replay, Step, Work;
    var pc := ThreadOf(sys, t).pc;
    if pc.Leaving? {
      HolderLeaves(start, sys, t, env);
      actions := [Go(t, true), Go(t, true)];
    } else {
      var a := Go(t, Succeeds(env, pc));
      HolderWork(start, sys, t, a.ok);
      HolderGoesOn(start, sys, t, env);
      NextKeeps(start, sys, a);
      var later := HolderFinishes(start, Next(start, sys, a), t, env);
      ExecFirst(start, sys, a, later);
      actions := [a] + later;
    }
  }

  // ---------------------------------------------------------------- a call from its start

  /** A waiting thread that meets a free lock goes through. */
  lemma LockGranted(start: Pipe, sys: System, t: nat)
    requires Inv(start, sys) && sys.shared.lock == None
    requires var Thread(op, pc) := ThreadOf(sys, t); pc.KeyCopied? || (pc.Calling? && !op.SetKey?)
    ensures var next := Next(start, sys, Go(t, true));
            && next.shared.lock == Some(t) && ThreadOf(next, t) == Thread(ThreadOf(sys, t).op, Entered)
            && next.trace == sys.trace && (forall u: nat | u != t :: ThreadOf(next, u) == ThreadOf(sys, u))
  {
  }

  predicate IsTurnedDown(th: Thread, env: Env) {
    || (th.pc.Calling? && th.op.SetKey? && env.Fault?)
    || (th.pc.Calling? && !th.op.SetKey? && env.Interrupted?)
    || (th.pc.KeyCopied? && env.Interrupted?)
  }

  lemma GivenUp(start: Pipe, sys: System, t: nat, env: Env) returns (e: Env)
    requires Inv(start, sys) && IsTurnedDown(ThreadOf(sys, t), env)
    ensures var op := ThreadOf(sys, t).op;
            var r, left := Step(Replay(start, sys.trace), op, env).1, Next(start, sys, Go(t, false));
            && left.shared == sys.shared && ThreadOf(left, t).pc == Finished(r)
            && (forall u: nat | u != t :: ThreadOf(left, u) == ThreadOf(sys, u))
            && left.trace == sys.trace + [Took(t, op, e, r)]
            && Step(Replay(start, sys.trace), op, e) == Step(Replay(start, sys.trace), op, env)
  {
    assert ThreadOk(Replay(start, sys.trace), sys.shared, sys.trace, t, ThreadOf(sys, t));
    hide Progress, Replay, Linearized, PhaseOf, WriteStep, ReadStep;
    e := if env.Fault? then Fault(0) else Interrupted;
  }

  /** A call that the kernel turns down before it has the lock. */
  lemma TurnedDown(start: Pipe, sys: System, t: nat, env: Env)
    requires Inv(start, sys) && sys.shared.lock == None && IsTurnedDown(ThreadOf(sys, t), env)
    ensures Served(start, sys, t, env, Exec(start, sys, [Go(t, false), Go(t, true)]))
  {
    hide Inv, Replay, Step, Next;
    var e := GivenUp(start, sys, t, env);
    NextKeeps(start, sys, Go(t, false));
    ExecFirst(start, sys, Go(t, false), [Go(t, true)]);
    assert [Go(t, false)] + [Go(t, true)] == [Go(t, false), Go(t, true)];
    ReturnServes(start, sys, t, env, e, Next(start, sys, Go(t, false)));
  }

  /** What is served after a silent step of the thread is served before it. */
  lemma ServedBefore(start: Pipe, sys: System, next: System, t: nat, env: Env, end: System)
    requires Inv(start, sys) && Inv(start, next) && Served(start, next, t, env, end)
    requires next.trace == sys.trace && ThreadOf(next, t).op == ThreadOf(sys, t).op
    requires forall u: nat | u != t :: ThreadOf(next, u) == ThreadOf(sys, u)
    ensures Served(start, sys, t, env, end)
  {
    hide Inv, Replay, Step;
  }

  /** A thread that waits, while nobody holds the lock, is served by steps of its own; by steps none of
      which the kernel refuses, if it is to do nothing. */
  lemma {:induction false} WaitingIsServed(start: Pipe, sys: System, t: nat, env: Env) returns (actions: seq<Action>)
    requires Inv(start, sys) && sys.shared.lock == None
    requires ThreadOf(sys, t).pc.Calling? || (ThreadOf(sys, t).pc.KeyCopied? && !env.Fault?)
    ensures Own(t, env, actions) && Served(start, sys, t, env, Exec(start, sys, actions))
    decreases ThreadOf(sys, t).pc.Calling?
  {
    hide Replay, Step, Exec, Progress, Linearized, PhaseOf, Served;
    var Thread(op, pc) := ThreadOf(sys, t);
    assert ThreadOk(Replay(start, sys.trace), sys.shared, sys.trace, t, ThreadOf(sys, t));
    if IsTurnedDown(ThreadOf(sys, t), env) {
      TurnedDown(start, sys, t, env);
      actions := [Go(t, false), Go(t, true)];
    } else {
      var next := Next(start, sys, Go(t, true));
      NextKeeps(start, sys, Go(t, true));
      var later;
      if pc.Calling? && op.SetKey? {
        later := WaitingIsServed(start, next, t, env);
      } else {
        LockGranted(start, sys, t);
        later := HolderFinishes(start, next, t, env);
      }
      ServedBefore(start, sys, next, t, env, Exec(start, next, later));
      ExecFirst(start, sys, Go(t, true), later);
      actions := [Go(t, true)] + later;
    }
  }

  lemma Invoking(start: Pipe, sys: System, t: nat, op: Op)
    requires Inv(start, sys) && ThreadOf(sys, t).pc.Idle?
    ensures var next := Next(start, sys, Invoke(t, op));
            && next.shared == sys.shared && next.trace == sys.trace + [Invoked(t, op)]
            && ThreadOf(next, t) == Thread(op, Calling)
            && (forall u: nat | u != t :: ThreadOf(next, u) == ThreadOf(sys, u))
            && Replay(start, next.trace) == Replay(start, sys.trace)
  {
    Snoc(start, sys.trace, Invoked(t, op));
  }

  /** Any call, with anything the kernel may do to it, can be made by an idle thread while the lock is
      free: it is invoked, takes effect as the atomic step does under `env`, and returns that result. */
  lemma {:induction false} CallOccurs(start: Pipe, sys: System, t: nat, op: Op, env: Env) returns (actions: seq<Action>, e: Env)
    requires Inv(start, sys) && sys.shared.lock == None && ThreadOf(sys, t).pc.Idle?
    ensures |actions| > 0 && actions[0] == Invoke(t, op) && Own(t, env, actions[1..])
    ensures var (q, r) := Step(Replay(start, sys.trace), op, env);
            var end := Exec(start, sys, actions);
            && end.trace == sys.trace + [Invoked(t, op), Took(t, op, e, r), Returned(t, r)]
            && end.shared.lock == None && View(end.shared) == q == Replay(start, end.trace)
            && ThreadOf(end, t).pc.Idle? && (forall u: nat | u != t :: ThreadOf(end, u) == ThreadOf(sys, u))
    ensures env.Fine? ==> e.Fine?
  {
    hide Step, Exec, Next;
    var called := Next(start, sys, Invoke(t, op));
    Invoking(start, sys, t, op);
    NextKeeps(start, sys, Invoke(t, op));
    var later := WaitingIsServed(start, called, t, env);
    ExecFirst(start, sys, Invoke(t, op), later);
    actions := [Invoke(t, op)] + later;
    var r := Step(Replay(start, sys.trace), op, env).1;
    var end := Exec(start, sys, actions);
    e :| end.trace == called.trace + [Took(t, op, e, r), Returned(t, r)]
         && Step(Replay(start, called.trace), op, e) == Step(Replay(start, called.trace), op, env)
         && (env.Fine? ==> e.Fine?);
    assert actions[1..] == later;
    TwoEvents(start, called.trace, Took(t, op, e, r), Returned(t, r));
    assert called.trace + [Took(t, op, e, r), Returned(t, r)]
        == sys.trace + [Invoked(t, op), Took(t, op, e, r), Returned(t, r)];
  }

  lemma TwoEvents(start: Pipe, trace: seq<Event>, took: Event, returned: Event)
    requires Sound(start) && took.Took? && returned.Returned?
    ensures Replay(start, trace + [took, returned]) == Step(Replay(start, trace), took.op, took.env).0
  {
    Snoc(start, trace, took);
    Snoc(start, trace + [took], returned);
    assert trace + [took] + [returned] == trace + [took, returned];
  }

  /** A call on a free lock succeeds: if the kernel refuses the thread nothing, its own steps take it
      from the invocation to the return, with the result of the undisturbed atomic step. */
  lemma {:induction false} FreeLockServes(start: Pipe, sys: System, t: nat, op: Op) returns (actions: seq<Action>)
    requires Inv(start, sys) && sys.shared.lock == None && ThreadOf(sys, t).pc.Idle?
    ensures |actions| > 0 && actions[0] == Invoke(t, op)
    ensures forall i | 1 <= i < |actions| :: actions[i] == Go(t, true)
    ensures var (q, r) := Step(Replay(start, sys.trace), op, Fine);
            var end := Exec(start, sys, actions);
            && end.trace == sys.trace + [Invoked(t, op), Took(t, op, Fine, r), Returned(t, r)]
            && end.shared.lock == None && View(end.shared) == q
  {
    hide Inv, Step, Replay, Exec;
    var e;
    actions, e := CallOccurs(start, sys, t, op, Fine);
    assert e == Fine;
    assert forall i | 1 <= i < |actions| :: actions[i] == actions[1..][i - 1];
  }

  // ---------------------------------------------------------------- every sequence of calls

  /** A call that thread `t` is to make. */
  datatype Request = Request(t: nat, call: Call)

  /** The returns of a trace, in order. */
  function Returns(trace: seq<Event>): seq<Event> {
    if trace == [] then []
    else Returns(Init(trace)) + if Last(trace).Returned? then [Last(trace)] else []
  }

  /** What atomic calls return, one after the other, and the pipe they leave. */
  function Sequential(p: Pipe, requests: seq<Request>): (r: (seq<Event>, Pipe))
    requires Sound(p)
    decreases requests
  {
    if requests == [] then ([], p)
    else
      var Request(t, c) := requests[0];
      var (q, result) := Step(p, c.op, c.env);
      var (events, end) := Sequential(q, requests[1..]);
      ([Returned(t, result)] + events, end)
  }

  lemma ReturnsAdded(trace: seq<Event>, invoked: Event, took: Event, returned: Event)
    requires invoked.Invoked? && took.Took? && returned.Returned?
    ensures Returns(trace + [invoked, took, returned]) == Returns(trace) + [returned]
  {
    var one, two := trace + [invoked], trace + [invoked] + [took];
    assert Init(one) == trace && Last(one) == invoked;
    assert Init(two) == one && Last(two) == took;
    var three := two + [returned];
    assert Init(three) == two && Last(three) == returned;
    assert Returns(one) == Returns(trace) && Returns(two) == Returns(one);
    assert trace + [invoked, took, returned] == three;
  }

  /** The returns and the pipe at the end are those of the atomic calls. */
  ghost predicate Realised(start: Pipe, sys: System, requests: seq<Request>, end: System)
    requires Inv(start, sys) && Inv(start, end)
  {
    var (events, p) := Sequential(Replay(start, sys.trace), requests);
    Returns(end.trace) == Returns(sys.trace) + events && end.shared.lock == None && View(end.shared) == p
  }

  lemma RealisedNext(start: Pipe, sys: System, next: System, requests: seq<Request>, end: System, e: Env)
    requires Inv(start, sys) && Inv(start, next) && Inv(start, end)
    requires requests != [] && Realised(start, next, requests[1..], end)
    requires var Request(t, c) := requests[0];
             var (q, r) := Step(Replay(start, sys.trace), c.op, c.env);
             && Replay(start, next.trace) == q
             && next.trace == sys.trace + [Invoked(t, c.op), Took(t, c.op, e, r), Returned(t, r)]
    ensures Realised(start, sys, requests, end)
  {
    assert Sound(start);
    hide Inv, Replay, Step, Returns;
    var Request(t, c) := requests[0];
    var (q, r) := Step(Replay(start, sys.trace), c.op, c.env);
    ReturnsAdded(sys.trace, Invoked(t, c.op), Took(t, c.op, e, r), Returned(t, r));
    var events := Sequential(q, requests[1..]).0;
    assert Returns(sys.trace) + [Returned(t, r)] + events == Returns(sys.trace) + ([Returned(t, r)] + events);
  }

  lemma {:induction false} SequenceOccurs(start: Pipe, sys: System, requests: seq<Request>)
    returns (actions: seq<Action>)
    requires Inv(start, sys) && sys.shared.lock == None && forall t: nat :: ThreadOf(sys, t).pc.Idle?
    ensures Realised(start, sys, requests, Exec(start, sys, actions))
    decreases requests
  {
    if requests == [] {
      actions := [];
      assert Returns(sys.trace) + [] == Returns(sys.trace);
    } else {
      var Request(t, c) := requests[0];
      hide *;
      var first, e := CallOccurs(start, sys, t, c.op, c.env);
      var next := Exec(start, sys, first);
      assert forall u: nat :: ThreadOf(next, u).pc.Idle?;
      var later := SequenceOccurs(start, next, requests[1..]);
      ExecConcat(start, sys, first, later);
      actions := first + later;
      RealisedNext(start, sys, next, requests, Exec(start, sys, actions), e);
    }
  }

  lemma {:induction false} ExecConcat(start: Pipe, sys: System, a: seq<Action>, b: seq<Action>)
    requires Inv(start, sys)
    ensures Exec(start, sys, a + b) == Exec(start, Exec(start, sys, a), b)
    decreases a
  {
    hide Inv, Next;
    if a == [] {
      assert a + b == b;
    } else {
      NextKeeps(start, sys, a[0]);
      assert (a + b)[1..] == a[1..] + b;
      ExecConcat(start, Next(start, sys, a[0]), a[1..], b);
    }
  }

  /** The converse of linearizability: whatever atomic calls are made one after the other, by whichever
      threads, with whatever the kernel does to each, some run of the driver from its initialisation
      returns exactly their results in that order and leaves exactly the pipe they leave. */
  lemma {:induction false} EverySequenceOccurs(capacity: nat, chunk: nat, key: bv8, requests: seq<Request>) returns (actions: seq<Action>)
    requires capacity > 0 && chunk > 0
    ensures var start, boot := Pipe(capacity, chunk, [], key), Boot(capacity, chunk, key);
            && Inv(start, boot)
            && var end := Exec(start, boot, actions);
               (Returns(end.trace), View(end.shared)) == Sequential(start, requests) && end.shared.lock == None
  {
    BootInv(capacity, chunk, key);
    var start := Pipe(capacity, chunk, [], key);
    actions := SequenceOccurs(start, Boot(capacity, chunk, key), requests);
    assert Returns([]) + Sequential(start, requests).0 == Sequential(start, requests).0;
  }
}
