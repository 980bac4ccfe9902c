/**
  The C, Python and Rust rings and the XOR pipe with key 0 are the same bounded queue.
 */
module RingAgreement {
  import opened Ring
  import opened Rings
  import P = XorPipe
  import X = XorBox

  datatype Op = Push(b: bv8) | Pop

  /** Whether a push was accepted, and what a pop gave. */
  datatype Outcome = Pushed(ok: bool) | Popped(b: Option<bv8>)

  function QueueStep(q: Queue<bv8>, op: Op): (Outcome, Queue<bv8>) {
    match op
    case Push(b) => var (ok, q') := q.Push(b); (Pushed(ok), q')
    case Pop => var (b, q') := q.Pop(); (Popped(b), q')
  }

  function QueueRun(q: Queue<bv8>, ops: seq<Op>): (seq<Outcome>, Queue<bv8>)
    decreases ops
  {
    if ops == [] then ([], q)
    else
      var (o, q') := QueueStep(q, ops[0]);
      var (os, end) := QueueRun(q', ops[1..]);
      ([o] + os, end)
  }

  lemma {:induction false} QueueRunSnoc(q: Queue<bv8>, ops: seq<Op>, op: Op)
    ensures var (os, end) := QueueRun(q, ops);
            var (o, end') := QueueStep(end, op);
            QueueRun(q, ops + [op]) == (os + [o], end')
    decreases ops
  {
    if ops == [] {
      var o := QueueStep(q, op).0;
      assert (ops + [op])[0] == op && (ops + [op])[1..] == ops;
      assert [o] + QueueRun(q, ops).0 == QueueRun(q, ops).0 + [o];
    } else {
      var (o, q') := QueueStep(q, ops[0]);
      QueueRunSnoc(q', ops[1..], op);
      assert (ops + [op])[0] == ops[0] && (ops + [op])[1..] == ops[1..] + [op];
      var (os, end) := QueueRun(q', ops[1..]);
      var last := QueueStep(end, op).0;
      assert [o] + (os + [last]) == [o] + os + [last];
    }
  }

  /** The bytes of accepted pushes, and those of pops that found one. */
  function Accepted(ops: seq<Op>, os: seq<Outcome>): seq<bv8>
    requires |ops| == |os|
  {
    if ops == [] then []
    else (if ops[0].Push? && os[0] == Pushed(true) then [ops[0].b] else []) + Accepted(ops[1..], os[1..])
  }

  function Taken(os: seq<Outcome>): seq<bv8> {
    if os == [] then []
    else (if os[0].Popped? && os[0].b.Some? then [os[0].b.value] else []) + Taken(os[1..])
  }

  lemma {:induction false} OneEach(q: Queue<bv8>, ops: seq<Op>)
    ensures |QueueRun(q, ops).0| == |ops|
    decreases ops
  {
    if ops != [] { OneEach(QueueStep(q, ops[0]).1, ops[1..]); }
  }

  /** What the queue, and so each ring, guarantees: first in, first out, nothing lost or made up. */
  lemma {:induction false} FirstInFirstOut(q: Queue<bv8>, ops: seq<Op>)
    ensures var (os, end) := QueueRun(q, ops);
            |os| == |ops| && q.items + Accepted(ops, os) == Taken(os) + end.items && end.capacity == q.capacity
    decreases ops
  {
    OneEach(q, ops);
    if ops != [] {
      var (o, next) := QueueStep(q, ops[0]);
      var (os, end) := QueueRun(next, ops[1..]);
      FirstInFirstOut(next, ops[1..]);
      assert ([o] + os)[1..] == os;
      P.Associate(q.items, if ops[0].Push? && o == Pushed(true) then [ops[0].b] else [], Accepted(ops[1..], os),
                  if o.Popped? && o.b.Some? then [o.b.value] else [], next.items, Taken(os), end.items);
    }
  }

  /** A push is refused exactly when as many bytes are waiting as the ring holds, a pop finds nothing
      exactly when none is waiting. */
  lemma OutcomeOf(q: Queue<bv8>, ops: seq<Op>, op: Op)
    ensures var (os, end) := QueueRun(q, ops);
            && |os| == |ops|
            && var all := q.items + Accepted(ops, os);
               QueueRun(q, ops + [op]).0 ==
               os + [if op.Push? then Pushed(|all| - |Taken(os)| != q.capacity)
                     else Popped(if |all| <= |Taken(os)| then None else Some(all[|Taken(os)|]))]
  {
    QueueRunSnoc(q, ops, op);
    FirstInFirstOut(q, ops);
    var (os, end) := QueueRun(q, ops);
    hide QueueRun, Accepted, Taken;
    assert |q.items + Accepted(ops, os)| == |Taken(os) + end.items|;
    if end.items != [] { assert (Taken(os) + end.items)[|Taken(os)|] == end.items[0]; }
  }

  // ---------------------------------------------------------------- the pipe

  /** A push is a write of one byte, a pop a read of one. */
  function AsCall(op: Op): P.Op {
    match op
    case Push(b) => P.Write([b])
    case Pop => P.Read(1)
  }

  function AsOutcome(op: Op, r: P.Result): Outcome {
    if op.Push? then Pushed(r == P.Done(1, []))
    else Popped(if r.Done? && |r.out| == 1 then Some(r.out[0]) else None)
  }

  lemma XorZero(b: bv8)
    ensures b ^ 0 == b
  {
  }

  /** Under key 0 one byte in or out of the pipe is one step of the queue. */
  lemma PipeIsQueue(p: P.Pipe, op: Op)
    requires P.Sound(p) && p.key == 0
    ensures var (p', r) := P.Step(p, AsCall(op), P.Fine);
            && p'.key == 0
            && (AsOutcome(op, r), AsQueue(p')) == QueueStep(AsQueue(p), op)
  {
    match op
    case Push(b) =>
      XorZero(b);
      assert P.Filled(p.stored, [b], p.key, 0) == p.stored;
    case Pop =>
      if p.stored != [] {
        XorZero(p.stored[0]);
        assert P.Drained(p.stored, 0) == p.stored;
      }
  }

  // ---------------------------------------------------------------- clients

  // Each ring, driven by any sequence of pushes and pops from any valid state, answers as the queue.
  // So rings of one capacity that start out alike cannot be told apart.

  method DriveC(ring: CRing, ops: seq<Op>) returns (os: seq<Outcome>)
    requires ring.Valid()
    modifies ring, ring.buffer
    ensures ring.Valid() && (os, ring.View()) == QueueRun(old(ring.View()), ops)
  {
    os := [];
    for i := 0 to |ops|
      invariant ring.Valid() && (os, ring.View()) == QueueRun(old(ring.View()), ops[..i])
    {
      QueueRunSnoc(old(ring.View()), ops[..i], ops[i]);
      assert ops[..i + 1] == ops[..i] + [ops[i]];
      match ops[i] {
        case Push(b) =>
          var ok := ring.Push(b);
          os := os + [Pushed(ok)];
        case Pop =>
          var ok, b := ring.Pop(0);
          os := os + [Popped(if ok then Some(b) else None)];
      }
    }
    assert ops[..|ops|] == ops;
  }

  method DriveRust(ring: RustRing<bv8>, ops: seq<Op>) returns (os: seq<Outcome>)
    requires ring.Valid()
    modifies ring, ring.buffer
    ensures ring.Valid() && (os, ring.View()) == QueueRun(old(ring.View()), ops)
  {
    os := [];
    for i := 0 to |ops|
      invariant ring.Valid() && (os, ring.View()) == QueueRun(old(ring.View()), ops[..i])
    {
      QueueRunSnoc(old(ring.View()), ops[..i], ops[i]);
      assert ops[..i + 1] == ops[..i] + [ops[i]];
      match ops[i] {
        case Push(b) =>
          var r := ring.Push(b);
          os := os + [Pushed(r.Ok?)];
        case Pop =>
          var b := ring.Pop();
          os := os + [Popped(b)];
      }
    }
    assert ops[..|ops|] == ops;
  }

  /** A byte as a Python integer, and back. */
  function AsObject(b: bv8): PyObject { PyInt(b as int) }

  function AsByte(o: PyObject): Option<bv8> {
    if o.PyInt? && 0 <= o.n < 256 then Some(o.n as bv8) else None
  }

  function AsObjects(s: seq<bv8>): (r: seq<PyObject>)
    ensures |r| == |s|
  {
    seq(|s|, i requires 0 <= i < |s| => AsObject(s[i]))
  }

  lemma ByteAsObject(b: bv8)
    ensures AsByte(AsObject(b)) == Some(b)
  {
  }

  lemma ObjectsStep(items: seq<bv8>, b: bv8)
    ensures AsObjects(items + [b]) == AsObjects(items) + [AsObject(b)]
    ensures items != [] ==> AsObjects(items)[0] == AsObject(items[0]) && AsObjects(items[1..]) == AsObjects(items)[1..]
  {
  }

  method DrivePython(ring: PyRing, ops: seq<Op>, ghost q: Queue<bv8>) returns (os: seq<Outcome>)
    requires ring.Valid() && ring.View() == Queue(q.capacity, AsObjects(q.items))
    modifies ring, ring.buffer
    ensures ring.Valid() && var (expected, end) := QueueRun(q, ops);
            os == expected && ring.View() == Queue(end.capacity, AsObjects(end.items))
  {
    os := [];
    ghost var now := q;
    for i := 0 to |ops|
      invariant ring.Valid() && (os, now) == QueueRun(q, ops[..i])
      invariant ring.View() == Queue(now.capacity, AsObjects(now.items))
    {
      QueueRunSnoc(q, ops[..i], ops[i]);
      assert ops[..i + 1] == ops[..i] + [ops[i]];
      ObjectsStep(now.items, if ops[i].Push? then ops[i].b else 0);
      match ops[i] {
        case Push(b) =>
          var ok := ring.Push(AsObject(b));
          os := os + [Pushed(ok)];
        case Pop =>
          var item := ring.Pop();
          if now.items != [] { ByteAsObject(now.items[0]); }
          os := os + [Popped(AsByte(item))];
      }
      now := QueueStep(now, ops[i]).1;
    }
    assert ops[..|ops|] == ops;
  }

  /** The pipe as a queue. */
  function AsQueue(p: P.Pipe): Queue<bv8> {
    Queue(p.capacity, p.stored)
  }

  method DrivePipe(pipe: X.Device, ops: seq<Op>) returns (os: seq<Outcome>)
    requires pipe.Valid() && pipe.key == 0
    modifies pipe, pipe.buffer
    ensures pipe.Valid() && pipe.key == 0
    ensures (os, AsQueue(pipe.View())) == QueueRun(AsQueue(old(pipe.View())), ops)
  {
    os := [];
    ghost var q := AsQueue(pipe.View());
    for i := 0 to |ops|
      invariant pipe.Valid() && pipe.View().key == 0
      invariant (os, AsQueue(pipe.View())) == QueueRun(q, ops[..i])
    {
      QueueRunSnoc(q, ops[..i], ops[i]);
      assert ops[..i + 1] == ops[..i] + [ops[i]];
      PipeIsQueue(pipe.View(), ops[i]);
      var r;
      match ops[i] {
        case Push(b) => r := pipe.Write([b], P.Fine);
        case Pop => r := pipe.Read(1, P.Fine);
      }
      os := os + [AsOutcome(ops[i], r)];
    }
    assert ops[..|ops|] == ops;
  }
}
