/**
  The XOR pipe under any number of threads: the calls as interleaved small steps, down to the single
  byte moved inside a chunk, and their linearization.
 */
module XorThreads {
  import opened Numbers
  import opened Ring
  import opened XorPipe

  /** The device as it lies in memory; `lock` names the thread that holds the mutex. */
  datatype Shared = Shared(
    buffer: seq<bv8>, head: nat, tail: nat, dataLen: nat, key: bv8, chunk: nat, lock: Option<nat>)

  /** Where a thread is, with the local variables that live there. */
  datatype Pc =
    | Idle
    | Calling                                   // called, neither lock nor argument obtained
    | KeyCopied                                 // ioctl with its argument, waiting for the lock
    | Entered                                   // holding the lock
    | Writing(toWrite: nat, written: nat, copies: nat)
    | Encrypting(toWrite: nat, written: nat, copies: nat, kbuf: seq<bv8>, i: nat)
    | Reading(toRead: nat, bytesRead: nat, copies: nat, out: seq<bv8>)
    | Decrypting(toRead: nat, bytesRead: nat, copies: nat, out: seq<bv8>, size: nat, kbuf: seq<bv8>)
    | Leaving(env: Env, result: Result)         // about to unlock
    | Finished(result: Result)                  // unlocked, about to return

  datatype Thread = Thread(op: Op, pc: Pc)

  /** The indices agree, whoever holds the lock. */
  predicate Consistent(s: Shared) {
    && s.chunk > 0 && s.tail < |s.buffer| && s.dataLen <= |s.buffer|
    && s.head == Wrap(s.tail + s.dataLen, |s.buffer|)
  }

  function View(s: Shared): (p: Pipe)
    requires Consistent(s)
    ensures Sound(p)
  {
    Pipe(|s.buffer|, s.chunk, Window(s.buffer, s.tail, s.dataLen), s.key)
  }

  // ---------------------------------------------------------------- inside the critical section

  predicate Critical(pc: Pc) {
    pc.Entered? || pc.Writing? || pc.Encrypting? || pc.Reading? || pc.Decrypting? || pc.Leaving?
  }

  /** What a small step does to the device. */
  datatype Effect = Nothing | PutByte(b: bv8) | TakeByte | ChangeKey(k: bv8)

  /** What a small step sees of it; `front` is the byte at the tail. */
  datatype Sight = Sight(dataLen: nat, capacity: nat, chunk: nat, key: bv8, front: bv8)

  function EffectOf(op: Op, pc: Pc, key: bv8): Effect {
    match pc
    case Entered => if op.SetKey? then ChangeKey(op.newKey) else Nothing
    case Encrypting(_, _, _, kbuf, i) => if i < |kbuf| then PutByte(kbuf[i] ^ key) else Nothing
    case Decrypting(_, _, _, _, size, kbuf) => if |kbuf| < size then TakeByte else Nothing
    case _ => Nothing
  }

  /** Where the holder goes next; `ok` says whether a copy made in the step succeeds. */
  function NextPc(op: Op, pc: Pc, ok: bool, see: Sight): Pc
    requires see.dataLen <= see.capacity
    requires pc.Writing? && pc.written < pc.toWrite ==> op.Write? && pc.toWrite <= |op.data|
  {
    match pc
    case Entered =>
      (match op
       case Write(data) =>
         var available := see.capacity - see.dataLen;
         if available == 0 then Leaving(Fine, Failed(ENOSPC, [])) else Writing(Min(|data|, available), 0, 0)
       case Read(len) =>
         if see.dataLen == 0 then Leaving(Fine, Done(0, [])) else Reading(Min(len, see.dataLen), 0, 0, [])
       case SetKey(_) => Leaving(Fine, Done(0, [])))
    case Writing(n, w, c) =>
      if w >= n then Leaving(Fine, Done(w, []))
      else if ok then Encrypting(n, w, c, op.data[w..w + Min(n - w, see.chunk)], 0)
      else Leaving(Fault(c), Failed(EFAULT, []))
    case Encrypting(n, w, c, kbuf, i) =>
      if i < |kbuf| then Encrypting(n, w, c, kbuf, i + 1) else Writing(n, w + |kbuf|, c + 1)
    case Reading(n, r, c, out) =>
      if r >= n then Leaving(Fine, Done(r, out)) else Decrypting(n, r, c, out, Min(n - r, see.chunk), [])
    case Decrypting(n, r, c, out, size, kbuf) =>
      if |kbuf| < size then Decrypting(n, r, c, out, size, kbuf + [see.front ^ see.key])
      else if ok then Reading(n, r + size, c + 1, out + kbuf)
      else Leaving(Fault(c), Failed(EFAULT, out))
    case _ => pc
  }

  // The ring, and the queue it stands for.

  predicate Possible(e: Effect, dataLen: nat, capacity: nat) {
    (e.PutByte? ==> dataLen < capacity) && (e.TakeByte? ==> dataLen > 0)
  }

  function See(s: Shared): Sight
    requires Consistent(s)
  {
    Sight(s.dataLen, |s.buffer|, s.chunk, s.key, s.buffer[s.tail])
  }

  function Apply(s: Shared, e: Effect): Shared
    requires Consistent(s) && Possible(e, s.dataLen, |s.buffer|)
  {
    match e
    case Nothing => s
    case PutByte(b) => s.(buffer := s.buffer[s.head := b], head := (s.head + 1) % |s.buffer|, dataLen := s.dataLen + 1)
    case TakeByte => s.(tail := (s.tail + 1) % |s.buffer|, dataLen := s.dataLen - 1)
    case ChangeKey(k) => s.(key := k)
  }

  function OnQueue(v: Pipe, e: Effect): Pipe
    requires Possible(e, |v.stored|, v.capacity)
  {
    match e
    case Nothing => v
    case PutByte(b) => v.(stored := v.stored + [b])
    case TakeByte => v.(stored := v.stored[1..])
    case ChangeKey(k) => v.(key := k)
  }

  predicate Sees(see: Sight, v: Pipe) {
    && see.dataLen == |v.stored| && see.capacity == v.capacity && see.chunk == v.chunk && see.key == v.key
    && (v.stored != [] ==> see.front == v.stored[0])
  }

  lemma PutOnRing(s: Shared, b: bv8)
    requires Consistent(s) && s.dataLen < |s.buffer|
    ensures var s' := Apply(s, PutByte(b)); Consistent(s') && View(s') == OnQueue(View(s), PutByte(b))
  {
    hide Window;
    WrapIsModulo(s.head + 1, |s.buffer|);
    WindowPush(s.buffer, s.tail, s.dataLen, b);
  }

  lemma TakeOnRing(s: Shared)
    requires Consistent(s) && s.dataLen > 0
    ensures View(s).stored[0] == s.buffer[s.tail]
    ensures var s' := Apply(s, TakeByte); Consistent(s') && View(s') == OnQueue(View(s), TakeByte)
  {
    hide Window;
    WrapIsModulo(s.tail + 1, |s.buffer|);
    WindowPop(s.buffer, s.tail, s.dataLen, s.buffer[s.tail]);
    assert s.buffer[s.tail := s.buffer[s.tail]] == s.buffer;
  }

  /** A small step on the ring is the same step on the queue. */
  lemma RingIsQueue(s: Shared, e: Effect)
    requires Consistent(s) && Possible(e, s.dataLen, |s.buffer|)
    ensures Sees(See(s), View(s))
    ensures Consistent(Apply(s, e)) && View(Apply(s, e)) == OnQueue(View(s), e) && Apply(s, e).lock == s.lock
  {
    hide Window, Wrap;
    if s.dataLen > 0 { TakeOnRing(s); }
    if e.PutByte? { PutOnRing(s, e.b); }
  }

  // How far the holder has got: `p` is the pipe when it entered, `v` the pipe now.

  predicate Progress(p: Pipe, v: Pipe, op: Op, pc: Pc)
    requires Sound(p)
  {
    match pc
    case Entered => v == p
    case Writing(n, w, c) => InWrite(p, op, n) && w == Min(Chunks(c, p.chunk), n) && HasWritten(p, v, op.data, w)
    case Encrypting(n, w, c, kbuf, i) =>
      && InWrite(p, op, n) && w == Chunks(c, p.chunk) < n
      && |kbuf| == Min(n - w, p.chunk) && kbuf == op.data[w..w + |kbuf|]
      && i <= |kbuf| && HasWritten(p, v, op.data, w + i)
    case Reading(n, r, c, out) =>
      InRead(p, op, n) && r == Min(Chunks(c, p.chunk), n) && HasRead(p, v, r) && out == Decrypted(p.stored, p.key, 0, r)
    case Decrypting(n, r, c, out, size, kbuf) =>
      && InRead(p, op, n) && r == Chunks(c, p.chunk) < n && size == Min(n - r, p.chunk) && |kbuf| <= size
      && HasRead(p, v, r + |kbuf|)
      && out == Decrypted(p.stored, p.key, 0, r) && kbuf == Decrypted(p.stored, p.key, r, |kbuf|)
    case Leaving(env, result) => Step(p, op, env) == (v, result)
    case _ => false
  }

  predicate InWrite(p: Pipe, op: Op, n: nat) {
    op.Write? && |p.stored| < p.capacity && n == Min(|op.data|, p.capacity - |p.stored|)
  }

  predicate HasWritten(p: Pipe, v: Pipe, data: seq<bv8>, k: nat) {
    k <= |data| && v == p.(stored := Filled(p.stored, data, p.key, k))
  }

  predicate InRead(p: Pipe, op: Op, n: nat) {
    op.Read? && n == Min(op.len, |p.stored|)
  }

  predicate HasRead(p: Pipe, v: Pipe, k: nat) {
    k <= |p.stored| && v == p.(stored := Drained(p.stored, k))
  }

  /** One step of the holder, on the queue. */
  predicate Advances(p: Pipe, v: Pipe, op: Op, pc: Pc, ok: bool, see: Sight)
    requires Sound(p) && Sees(see, v) && |v.stored| <= v.capacity
  {
    var e := EffectOf(op, pc, see.key);
    && (pc.Writing? && pc.written < pc.toWrite ==> op.Write? && pc.toWrite <= |op.data|)
    && Possible(e, |v.stored|, v.capacity)
    && Progress(p, OnQueue(v, e), op, NextPc(op, pc, ok, see))
  }

  lemma WriteAdvances(p: Pipe, v: Pipe, op: Op, pc: Pc, ok: bool, see: Sight)
    requires Sound(p) && Progress(p, v, op, pc) && Sees(see, v) && |v.stored| <= v.capacity && pc.Writing?
    ensures Advances(p, v, op, pc, ok, see)
  {
    hide Drained, Decrypted, Chunks;
  }

  lemma ByteIn(p: Pipe, v: Pipe, data: seq<bv8>, w: nat, kbuf: seq<bv8>, i: nat)
    requires w + |kbuf| <= |data| && kbuf == data[w..w + |kbuf|] && i < |kbuf| && HasWritten(p, v, data, w + i)
    ensures HasWritten(p, v.(stored := v.stored + [kbuf[i] ^ p.key]), data, w + (i + 1))
    ensures v.key == p.key && v.capacity == p.capacity && |v.stored| == |p.stored| + w + i
  {
    FilledNext(p.stored, data, p.key, w, kbuf, i);
  }

  /** Putting the pieces of a step together. */
  lemma Assemble(p: Pipe, v: Pipe, op: Op, pc: Pc, ok: bool, see: Sight, e: Effect, pc': Pc)
    requires Sound(p) && Sees(see, v) && |v.stored| <= v.capacity
    requires pc.Writing? && pc.written < pc.toWrite ==> op.Write? && pc.toWrite <= |op.data|
    requires EffectOf(op, pc, see.key) == e && NextPc(op, pc, ok, see) == pc'
    requires Possible(e, |v.stored|, v.capacity) && Progress(p, OnQueue(v, e), op, pc')
    ensures Advances(p, v, op, pc, ok, see)
  {
  }

  lemma EncryptByte(p: Pipe, v: Pipe, op: Op, pc: Pc)
    requires Sound(p) && Progress(p, v, op, pc) && pc.Encrypting? && pc.i < |pc.kbuf|
    ensures v.key == p.key && |v.stored| < v.capacity
    ensures Progress(p, v.(stored := v.stored + [pc.kbuf[pc.i] ^ p.key]), op,
                     Encrypting(pc.toWrite, pc.written, pc.copies, pc.kbuf, pc.i + 1))
  {
    hide Step, Filled, Drained, Decrypted, Chunks;
    ByteIn(p, v, op.data, pc.written, pc.kbuf, pc.i);
  }

  lemma EncryptChunk(p: Pipe, v: Pipe, op: Op, pc: Pc)
    requires Sound(p) && Progress(p, v, op, pc) && pc.Encrypting? && pc.i == |pc.kbuf|
    ensures Progress(p, v, op, Writing(pc.toWrite, pc.written + |pc.kbuf|, pc.copies + 1))
  {
    hide Step, Filled, Drained, Decrypted, Chunks;
    ChunkDone(pc.copies, p.chunk, pc.toWrite, pc.written, |pc.kbuf|);
  }

  /** Being under way means being in the critical section, with the local bounds kept. */
  lemma ProgressShape(p: Pipe, v: Pipe, op: Op, pc: Pc)
    requires Sound(p) && Progress(p, v, op, pc)
    ensures Critical(pc) && v.chunk == p.chunk
    ensures pc.Encrypting? ==> pc.i <= |pc.kbuf|
    ensures pc.Decrypting? ==> |pc.kbuf| <= pc.size
  {
    hide Filled, Drained, Decrypted, Chunks;
  }

  lemma EncryptAdvances(p: Pipe, v: Pipe, op: Op, pc: Pc, ok: bool, see: Sight)
    requires Sound(p) && Progress(p, v, op, pc) && Sees(see, v) && |v.stored| <= v.capacity && pc.Encrypting?
    ensures Advances(p, v, op, pc, ok, see)
  {
    hide Progress, Advances, Step, Filled, Drained, Decrypted, Chunks, Min;
    ProgressShape(p, v, op, pc);
    if pc.i < |pc.kbuf| {
      EncryptByte(p, v, op, pc);
      Assemble(p, v, op, pc, ok, see, PutByte(pc.kbuf[pc.i] ^ p.key),
               Encrypting(pc.toWrite, pc.written, pc.copies, pc.kbuf, pc.i + 1));
    } else {
      EncryptChunk(p, v, op, pc);
      Assemble(p, v, op, pc, ok, see, Nothing, Writing(pc.toWrite, pc.written + |pc.kbuf|, pc.copies + 1));
    }
  }

  lemma ReadAdvances(p: Pipe, v: Pipe, op: Op, pc: Pc, ok: bool, see: Sight)
    requires Sound(p) && Progress(p, v, op, pc) && Sees(see, v) && |v.stored| <= v.capacity && pc.Reading?
    ensures Advances(p, v, op, pc, ok, see)
  {
    hide Filled, Chunks;
  }

  lemma ByteOut(p: Pipe, v: Pipe, r: nat, kbuf: seq<bv8>)
    requires r + |kbuf| < |p.stored| && HasRead(p, v, r + |kbuf|) && kbuf == Decrypted(p.stored, p.key, r, |kbuf|)
    ensures v.stored != [] && v.key == p.key
    ensures HasRead(p, v.(stored := v.stored[1..]), r + (|kbuf| + 1))
    ensures kbuf + [v.stored[0] ^ p.key] == Decrypted(p.stored, p.key, r, |kbuf| + 1)
  {
  }

  lemma DecryptByte(p: Pipe, v: Pipe, op: Op, pc: Pc)
    requires Sound(p) && Progress(p, v, op, pc) && pc.Decrypting? && |pc.kbuf| < pc.size
    ensures v.key == p.key && v.stored != []
    ensures Progress(p, v.(stored := v.stored[1..]), op,
                     Decrypting(pc.toRead, pc.bytesRead, pc.copies, pc.out, pc.size, pc.kbuf + [v.stored[0] ^ p.key]))
  {
    hide Step, Filled, Drained, Decrypted, Chunks;
    ByteOut(p, v, pc.bytesRead, pc.kbuf);
  }

  lemma DecryptChunk(p: Pipe, v: Pipe, op: Op, pc: Pc)
    requires Sound(p) && Progress(p, v, op, pc) && pc.Decrypting? && |pc.kbuf| == pc.size
    ensures Progress(p, v, op, Reading(pc.toRead, pc.bytesRead + pc.size, pc.copies + 1, pc.out + pc.kbuf))
  {
    hide Step, Filled, Drained, Decrypted, Chunks;
    ChunkDone(pc.copies, p.chunk, pc.toRead, pc.bytesRead, pc.size);
    DecryptedJoin(p.stored, p.key, pc.bytesRead, pc.size);
  }

  lemma DecryptFault(p: Pipe, v: Pipe, op: Op, pc: Pc)
    requires Sound(p) && Progress(p, v, op, pc) && pc.Decrypting? && |pc.kbuf| == pc.size
    ensures Progress(p, v, op, Leaving(Fault(pc.copies), Failed(EFAULT, pc.out)))
  {
    ChunkDone(pc.copies, p.chunk, pc.toRead, pc.bytesRead, pc.size);
  }

  lemma DecryptAdvances(p: Pipe, v: Pipe, op: Op, pc: Pc, ok: bool, see: Sight)
    requires Sound(p) && Progress(p, v, op, pc) && Sees(see, v) && |v.stored| <= v.capacity && pc.Decrypting?
    ensures Advances(p, v, op, pc, ok, see)
  {
    hide Progress, Advances, Step, Filled, Drained, Decrypted, Chunks, Min;
    ProgressShape(p, v, op, pc);
    if |pc.kbuf| < pc.size {
      DecryptByte(p, v, op, pc);
      Assemble(p, v, op, pc, ok, see, TakeByte,
               Decrypting(pc.toRead, pc.bytesRead, pc.copies, pc.out, pc.size, pc.kbuf + [v.stored[0] ^ p.key]));
    } else if ok {
      DecryptChunk(p, v, op, pc);
      Assemble(p, v, op, pc, ok, see, Nothing,
               Reading(pc.toRead, pc.bytesRead + pc.size, pc.copies + 1, pc.out + pc.kbuf));
    } else {
      DecryptFault(p, v, op, pc);
      Assemble(p, v, op, pc, ok, see, Nothing, Leaving(Fault(pc.copies), Failed(EFAULT, pc.out)));
    }
  }

  lemma EnterAdvances(p: Pipe, v: Pipe, op: Op, pc: Pc, ok: bool, see: Sight)
    requires Sound(p) && Progress(p, v, op, pc) && Sees(see, v) && |v.stored| <= v.capacity && pc.Entered?
    ensures Advances(p, v, op, pc, ok, see)
  {
  }

  /** Every small step of the holder keeps the account of how far it has got; when it is about to
      leave, its call has had exactly the effect and the result of the atomic step. */
  lemma HolderAdvances(p: Pipe, v: Pipe, op: Op, pc: Pc, ok: bool, see: Sight)
    requires Sound(p) && Progress(p, v, op, pc) && Sees(see, v) && |v.stored| <= v.capacity && !pc.Leaving?
    ensures Advances(p, v, op, pc, ok, see)
  {
    hide Progress, Advances, Sees;
    ProgressShape(p, v, op, pc);
    match pc {
      case Entered => EnterAdvances(p, v, op, pc, ok, see);
      case Writing(_, _, _) => WriteAdvances(p, v, op, pc, ok, see);
      case Encrypting(_, _, _, _, _) => EncryptAdvances(p, v, op, pc, ok, see);
      case Reading(_, _, _, _) => ReadAdvances(p, v, op, pc, ok, see);
      case Decrypting(_, _, _, _, _, _) => DecryptAdvances(p, v, op, pc, ok, see);
    }
  }

  /** A bound on the small steps the holder still needs before it unlocks. */
  function Work(op: Op, pc: Pc): int {
    match pc
    case Entered => (match op case Write(data) => 3 * |data| + 2 case Read(len) => 3 * len + 2 case SetKey(_) => 1)
    case Writing(n, w, _) => 3 * (n - w) + 1
    case Encrypting(n, w, _, kbuf, i) => 3 * (n - w - |kbuf|) + |kbuf| - i + 2
    case Reading(n, r, _, _) => 3 * (n - r) + 1
    case Decrypting(n, r, _, _, size, kbuf) => 3 * (n - r - size) + size - |kbuf| + 2
    case _ => 0
  }

  /** It is at most three for each byte asked for, and two. */
  lemma WorkIsLinear(p: Pipe, v: Pipe, op: Op, pc: Pc)
    requires Sound(p) && Progress(p, v, op, pc)
    ensures Work(op, pc) <= match op
                            case Write(data) => 3 * |data| + 2
                            case Read(len) => 3 * len + 2
                            case SetKey(_) => 1
  {
    hide Filled, Drained, Decrypted, Chunks, Step;
  }

  lemma WorkDone(op: Op, pc: Pc)
    requires pc.Leaving?
    ensures Work(op, pc) == 0
  {
  }

  /** The bounds on the local variables that make the work shrink. */
  predicate InBounds(op: Op, pc: Pc, see: Sight) {
    see.chunk > 0 && see.dataLen <= see.capacity &&
    match pc
    case Writing(n, w, _) => w <= n && op.Write? && n <= |op.data|
    case Encrypting(n, w, _, kbuf, i) => i <= |kbuf| && w + |kbuf| <= n
    case Reading(n, r, _, _) => r <= n
    case Decrypting(n, r, _, _, size, kbuf) => |kbuf| <= size && r + size <= n
    case Entered => true
    case _ => false
  }

  lemma ProgressInBounds(p: Pipe, v: Pipe, op: Op, pc: Pc, see: Sight)
    requires Sound(p) && Progress(p, v, op, pc) && Sees(see, v) && |v.stored| <= v.capacity && !pc.Leaving?
    requires v.chunk == p.chunk
    ensures InBounds(op, pc, see)
  {
  }

  /** The holder is never stuck and never loops: each of its steps brings the unlocking nearer. */
  lemma HolderEnds(op: Op, pc: Pc, ok: bool, see: Sight)
    requires InBounds(op, pc, see)
    ensures 0 <= Work(op, NextPc(op, pc, ok, see)) < Work(op, pc)
  {
  }
}
