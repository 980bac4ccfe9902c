/**
  The calls on the XOR pipe as atomic operations on a queue of stored bytes, and what they guarantee
  over whole runs.
 */
module XorPipe {
  import opened Numbers

  /** `stored` holds the ciphertext, oldest byte first. */
  datatype Pipe = Pipe(capacity: nat, chunk: nat, stored: seq<bv8>, key: bv8)

  datatype Op = Write(data: seq<bv8>) | Read(len: nat) | SetKey(newKey: bv8)

  /** What the kernel may do to a call: nothing, interrupt its wait for the lock, or fail its copy
      from or to user space for the given chunk. */
  datatype Env = Fine | Interrupted | Fault(at: nat)

  datatype Errno = ERESTARTSYS | EFAULT | ENOSPC

  /** The value returned, and the bytes successfully copied to the user. */
  datatype Result = Failed(error: Errno, out: seq<bv8>) | Done(count: nat, out: seq<bv8>)

  /** Every byte xor the key: encryption and decryption alike. */
  function Xor(s: seq<bv8>, key: bv8): (r: seq<bv8>)
    ensures |r| == |s|
  {
    if s == [] then [] else Xor(s[..|s| - 1], key) + [s[|s| - 1] ^ key]
  }

  lemma {:induction false} XorAt(s: seq<bv8>, key: bv8, i: nat)
    requires i < |s|
    ensures Xor(s, key)[i] == s[i] ^ key
  {
    if i < |s| - 1 { XorAt(s[..|s| - 1], key, i); }
  }

  /** Decrypting with the key of encryption gives the bytes back. */
  lemma XorTwice(s: seq<bv8>, key: bv8)
    ensures Xor(Xor(s, key), key) == s
  {
    forall i | 0 <= i < |s| ensures Xor(Xor(s, key), key)[i] == s[i] {
      XorAt(s, key, i);
      XorAt(Xor(s, key), key, i);
      XorByteTwice(s[i], key);
    }
  }

  lemma XorByteTwice(b: bv8, key: bv8)
    ensures b ^ key ^ key == b
  {
  }

  lemma {:induction false} XorConcat(a: seq<bv8>, b: seq<bv8>, key: bv8)
    ensures Xor(a + b, key) == Xor(a, key) + Xor(b, key)
  {
    if b == [] {
      assert a + b == a;
    } else {
      assert (a + b)[..|a + b| - 1] == a + b[..|b| - 1];
      XorConcat(a, b[..|b| - 1], key);
    }
  }

  /** The size of `c` whole chunks, `c * chunk`, counted up one chunk at a time. */
  function Chunks(c: nat, chunk: nat): nat {
    if c == 0 then 0 else Chunks(c - 1, chunk) + chunk
  }

  lemma {:induction false} ChunksGrow(c: nat, d: nat, chunk: nat)
    requires c <= d
    ensures Chunks(c, chunk) <= Chunks(d, chunk)
  {
    if c < d { ChunksGrow(c, d - 1, chunk); }
  }

  lemma {:induction false} ChunksProduct(c: nat, chunk: nat)
    ensures Chunks(c, chunk) == c * chunk
  {
    if c > 0 {
      ChunksProduct(c - 1, chunk);
      assert c * chunk == (c - 1) * chunk + chunk;
    }
  }

  /** The next chunk of a transfer of `n` bytes takes it to the next boundary, or to the end. */
  lemma ChunkDone(c: nat, chunk: nat, n: nat, at: nat, size: nat)
    requires at == Chunks(c, chunk) < n && size == Min(n - at, chunk)
    ensures at + size == Min(Chunks(c + 1, chunk), n)
  {
  }

  /** A transfer of `n` bytes that is over after `copies` chunks met no fault. */
  lemma NoFaultLeft(copies: nat, chunk: nat, n: nat, env: Env)
    requires n <= Chunks(copies, chunk) && (env.Fault? ==> copies <= env.at)
    ensures !(env.Fault? && Chunks(env.at, chunk) < n)
  {
    if env.Fault? { ChunksGrow(copies, env.at, chunk); }
  }

  predicate Sound(p: Pipe) {
    p.capacity > 0 && p.chunk > 0 && |p.stored| <= p.capacity
  }

  // ---------------------------------------------------------------- byte by byte

  /** The stored bytes `s` after the first `k` bytes of `data` were added, one by one. */
  function Filled(s: seq<bv8>, data: seq<bv8>, key: bv8, k: nat): (r: seq<bv8>)
    requires k <= |data|
    ensures |r| == |s| + k
  {
    if k == 0 then s else Filled(s, data, key, k - 1) + [data[k - 1] ^ key]
  }

  /** The stored bytes `s` after `k` were taken, one by one. */
  function Drained(s: seq<bv8>, k: nat): (r: seq<bv8>)
    requires k <= |s|
    ensures |r| == |s| - k
  {
    if k == 0 then s else Drained(s, k - 1)[1..]
  }

  /** The `k` bytes taken after the first `from`, decrypted. */
  function Decrypted(s: seq<bv8>, key: bv8, from: nat, k: nat): (r: seq<bv8>)
    requires from + k <= |s|
    ensures |r| == k
    decreases k
  {
    if k == 0 then [] else Decrypted(s, key, from, k - 1) + [Drained(s, from + k - 1)[0] ^ key]
  }

  lemma {:induction false} DecryptedJoin(s: seq<bv8>, key: bv8, from: nat, k: nat)
    requires from + k <= |s|
    ensures Decrypted(s, key, 0, from) + Decrypted(s, key, from, k) == Decrypted(s, key, 0, from + k)
  {
    if k > 0 {
      DecryptedJoin(s, key, from, k - 1);
      var last := [Drained(s, from + k - 1)[0] ^ key];
      assert Decrypted(s, key, 0, from) + (Decrypted(s, key, from, k - 1) + last)
          == Decrypted(s, key, 0, from) + Decrypted(s, key, from, k - 1) + last;
    }
  }

  lemma NothingMoved(s: seq<bv8>, data: seq<bv8>, key: bv8, chunk: nat)
    ensures Filled(s, data, key, 0) == s && Drained(s, 0) == s && Decrypted(s, key, 0, 0) == [] && Chunks(0, chunk) == 0
  {
  }

  /** Stopping on the way and going on with the rest comes to the same. */
  lemma {:induction false} FilledResumes(s: seq<bv8>, data: seq<bv8>, key: bv8, m: nat, n: nat)
    requires m <= n <= |data|
    ensures Filled(Filled(s, data, key, m), data[m..], key, n - m) == Filled(s, data, key, n)
  {
    if m < n {
      FilledResumes(s, data, key, m, n - 1);
      assert data[m..][n - 1 - m] == data[n - 1];
    }
  }

  lemma {:induction false} DrainedResumes(s: seq<bv8>, m: nat, k: nat)
    requires m + k <= |s|
    ensures Drained(Drained(s, m), k) == Drained(s, m + k)
  {
    if k > 0 { DrainedResumes(s, m, k - 1); }
  }

  lemma {:induction false} DecryptedResumes(s: seq<bv8>, key: bv8, m: nat, k: nat)
    requires m + k <= |s|
    ensures Decrypted(Drained(s, m), key, 0, k) == Decrypted(s, key, m, k)
  {
    if k > 0 {
      hide Drained;
      DecryptedResumes(s, key, m, k - 1);
      DrainedResumes(s, m, k - 1);
    }
  }

  /** The next byte of a chunk goes in. */
  lemma FilledNext(s: seq<bv8>, data: seq<bv8>, key: bv8, from: nat, kbuf: seq<bv8>, i: nat)
    requires from + |kbuf| <= |data| && kbuf == data[from..from + |kbuf|] && i < |kbuf|
    ensures Filled(s, data, key, from + (i + 1)) == Filled(s, data, key, from + i) + [kbuf[i] ^ key]
  {
  }

  /** Byte by byte is all at once. */
  lemma {:induction false} FilledIs(s: seq<bv8>, data: seq<bv8>, key: bv8, k: nat)
    requires k <= |data|
    ensures Filled(s, data, key, k) == s + Xor(data[..k], key)
  {
    if k > 0 {
      FilledIs(s, data, key, k - 1);
      assert data[..k][..k - 1] == data[..k - 1];
    }
  }

  lemma {:induction false} DrainedIs(s: seq<bv8>, key: bv8, k: nat)
    requires k <= |s|
    ensures Drained(s, k) == s[k..]
    ensures Decrypted(s, key, 0, k) == Xor(s[..k], key)
  {
    if k > 0 {
      DrainedIs(s, key, k - 1);
      assert Drained(s, k) == s[k - 1..][1..] == s[k..];
      assert s[..k][..k - 1] == s[..k - 1] && s[..k][k - 1] == s[k - 1..][0];
    }
  }

  // ---------------------------------------------------------------- the calls

  function WriteStep(p: Pipe, data: seq<bv8>, env: Env): (Pipe, Result)
    requires Sound(p)
  {
    var n := Min(|data|, p.capacity - |p.stored|);
    if |p.stored| == p.capacity then (p, Failed(ENOSPC, []))
    else if env.Fault? && Chunks(env.at, p.chunk) < n then
      (p.(stored := Filled(p.stored, data, p.key, Chunks(env.at, p.chunk))), Failed(EFAULT, []))
    else (p.(stored := Filled(p.stored, data, p.key, n)), Done(n, []))
  }

  function ReadStep(p: Pipe, len: nat, env: Env): (Pipe, Result)
    requires Sound(p)
  {
    var n := Min(len, |p.stored|);
    if env.Fault? && Chunks(env.at, p.chunk) < n then
      (p.(stored := Drained(p.stored, Min(Chunks(env.at + 1, p.chunk), n))),
       Failed(EFAULT, Decrypted(p.stored, p.key, 0, Chunks(env.at, p.chunk))))
    else (p.(stored := Drained(p.stored, n)), Done(n, Decrypted(p.stored, p.key, 0, n)))
  }

  /** One call, taken as a single step. */
  function Step(p: Pipe, op: Op, env: Env): (r: (Pipe, Result))
    requires Sound(p)
    ensures Sound(r.0) && r.0.capacity == p.capacity && r.0.chunk == p.chunk
    ensures op.Write? ==> |p.stored| <= |r.0.stored| <= |p.stored| + |op.data|
    ensures op.Read? ==> |r.0.stored| <= |p.stored|
  {
    match (op, env)
    case (SetKey(_), Fault(_)) => (p, Failed(EFAULT, []))
    case (_, Interrupted) => (p, Failed(ERESTARTSYS, []))
    case (SetKey(k), Fine) => (p.(key := k), Done(0, []))
    case (Write(data), _) => WriteStep(p, data, env)
    case (Read(len), _) => ReadStep(p, len, env)
  }

  // ---------------------------------------------------------------- runs

  datatype Call = Call(op: Op, env: Env)

  /** A byte accepted, and the key it was stored under. */
  datatype Accepted = Accepted(byte: bv8, key: bv8)

  /** A stored byte removed: handed to the user under some key, or lost in a faulting copy. */
  datatype Removed = Delivered(byte: bv8, key: bv8) | Lost

  datatype History = History(accepted: seq<Accepted>, removed: seq<Removed>)

  /** How many of the bytes offered a write stored. */
  function Stored(p: Pipe, c: Call): (n: nat)
    requires Sound(p) && c.op.Write?
    ensures n <= |c.op.data|
  {
    |Step(p, c.op, c.env).0.stored| - |p.stored|
  }

  /** How many stored bytes a read removed. */
  function Taken(p: Pipe, c: Call): (n: nat)
    requires Sound(p) && c.op.Read?
    ensures n <= |p.stored|
  {
    |p.stored| - |Step(p, c.op, c.env).0.stored|
  }

  function Accept(bytes: seq<bv8>, key: bv8): seq<Accepted> {
    seq(|bytes|, i requires 0 <= i < |bytes| => Accepted(bytes[i], key))
  }

  /** Of `taken` bytes removed, the first went to the user as `out` and the others nowhere. */
  function Remove(out: seq<bv8>, taken: nat, key: bv8): seq<Removed> {
    seq(taken, i requires 0 <= i < taken => if i < |out| then Delivered(out[i], key) else Lost)
  }

  function Record(h: History, p: Pipe, c: Call): History
    requires Sound(p)
  {
    match c.op
    case Write(data) => h.(accepted := h.accepted + Accept(data[..Stored(p, c)], p.key))
    case Read(_) => h.(removed := h.removed + Remove(Step(p, c.op, c.env).1.out, Taken(p, c), p.key))
    case SetKey(_) => h
  }

  function Run(p: Pipe, h: History, calls: seq<Call>): (r: (Pipe, History))
    requires Sound(p)
    ensures Sound(r.0)
    decreases calls
  {
    if calls == [] then (p, h)
    else Run(Step(p, calls[0].op, calls[0].env).0, Record(h, p, calls[0]), calls[1..])
  }

  /** The stored form of accepted bytes. */
  function Encrypted(s: seq<Accepted>): (r: seq<bv8>)
    ensures |r| == |s| && forall i | 0 <= i < |s| :: r[i] == s[i].byte ^ s[i].key
  {
    seq(|s|, i requires 0 <= i < |s| => s[i].byte ^ s[i].key)
  }

  /** A removed byte that reached the user is the accepted one under both keys. */
  predicate Matches(r: Removed, a: Accepted) {
    r.Delivered? ==> r.byte == a.byte ^ a.key ^ r.key
  }

  /** The account of a pipe: what was accepted is, in order, what was removed followed by what is
      stored. */
  predicate Balanced(p: Pipe, h: History) {
    && |h.accepted| == |h.removed| + |p.stored|
    && (forall i | 0 <= i < |h.removed| :: Matches(h.removed[i], h.accepted[i]))
    && p.stored == Encrypted(h.accepted[|h.removed|..])
  }

  /** A write stores a prefix of its data, encrypted, behind what is there. */
  lemma WriteShape(p: Pipe, c: Call)
    requires Sound(p) && c.op.Write?
    ensures var (q, r) := Step(p, c.op, c.env);
            && q == p.(stored := p.stored + Xor(c.op.data[..Stored(p, c)], p.key))
            && (r.Done? ==> r.count == Stored(p, c) == Min(|c.op.data|, p.capacity - |p.stored|))
            && r.out == []
  {
    FilledIs(p.stored, c.op.data, p.key, Stored(p, c));
  }

  /** A read takes from the front; what reaches the user is a prefix of that, decrypted, and all of
      it unless a copy faulted. */
  lemma ReadShape(p: Pipe, c: Call)
    requires Sound(p) && c.op.Read?
    ensures var (q, r) := Step(p, c.op, c.env);
            && |r.out| <= Taken(p, c)
            && q == p.(stored := p.stored[Taken(p, c)..])
            && r.out == Xor(p.stored[..|r.out|], p.key)
            && (r.Done? ==> r.count == |r.out| == Min(c.op.len, |p.stored|))
            && (!c.env.Fault? || r.Done? ==> |r.out| == Taken(p, c))
  {
    assert p.stored[0..] == p.stored && Xor(p.stored[..0], p.key) == [];
    hide Drained, Decrypted, Xor;
    var r := Step(p, c.op, c.env).1;
    assert |r.out| <= Taken(p, c);
    DrainedIs(p.stored, p.key, Taken(p, c));
    DrainedIs(p.stored, p.key, |r.out|);
  }

  // What each call does and returns, whatever the kernel does to it.

  /** Setting the key replaces the key and nothing else; no other call touches the key. */
  lemma SetKeyOutcome(p: Pipe, k: bv8, op: Op, env: Env)
    requires Sound(p)
    ensures Step(p, SetKey(k), Fine) == (Pipe(p.capacity, p.chunk, p.stored, k), Done(0, []))
    ensures env.Fault? ==> Step(p, SetKey(k), env) == (p, Failed(EFAULT, []))
    ensures Step(p, op, Interrupted) == (p, Failed(ERESTARTSYS, []))
    ensures !(op.SetKey? && env.Fine?) ==> Step(p, op, env).0.key == p.key
  {
  }

  /** A write to a full pipe fails with ENOSPC. Any other stores what fits of its data, encrypted, and
      returns how much that is; if a copy fails before that, it stores the chunks before and fails
      with EFAULT. */
  lemma WriteOutcome(p: Pipe, data: seq<bv8>, env: Env)
    requires Sound(p) && !env.Interrupted?
    ensures var room := p.capacity - |p.stored|;
            var n := if |data| <= room then |data| else room;
            Step(p, Write(data), env) ==
            if |p.stored| == p.capacity then (p, Failed(ENOSPC, []))
            else if env.Fault? && env.at * p.chunk < n then
              (Pipe(p.capacity, p.chunk, p.stored + Xor(data[..env.at * p.chunk], p.key), p.key), Failed(EFAULT, []))
            else (Pipe(p.capacity, p.chunk, p.stored + Xor(data[..n], p.key), p.key), Done(n, []))
  {
    hide Filled, Xor, Chunks;
    FilledIs(p.stored, data, p.key, Min(|data|, p.capacity - |p.stored|));
    if env.Fault? {
      ChunksProduct(env.at, p.chunk);
      if env.at * p.chunk < Min(|data|, p.capacity - |p.stored|) {
        FilledIs(p.stored, data, p.key, env.at * p.chunk);
      }
    }
  }

  /** A read never fails for want of bytes: it hands out what there is, up to its length, decrypted,
      removes that and returns how much it is; if a copy fails before that, it has handed out the
      chunks before, has removed the chunk of the fault as well, and fails with EFAULT. */
  lemma ReadOutcome(p: Pipe, len: nat, env: Env)
    requires Sound(p) && !env.Interrupted?
    ensures var n := if len <= |p.stored| then len else |p.stored|;
            Step(p, Read(len), env) ==
            if env.Fault? && env.at * p.chunk < n then
              var gone := if (env.at + 1) * p.chunk <= n then (env.at + 1) * p.chunk else n;
              (Pipe(p.capacity, p.chunk, p.stored[gone..], p.key),
               Failed(EFAULT, Xor(p.stored[..env.at * p.chunk], p.key)))
            else (Pipe(p.capacity, p.chunk, p.stored[n..], p.key), Done(n, Xor(p.stored[..n], p.key)))
  {
    hide Drained, Decrypted, Xor, Chunks;
    var n := Min(len, |p.stored|);
    DrainedIs(p.stored, p.key, n);
    if env.Fault? {
      ChunksProduct(env.at, p.chunk);
      ChunksProduct(env.at + 1, p.chunk);
      if env.at * p.chunk < n {
        DrainedIs(p.stored, p.key, env.at * p.chunk);
        DrainedIs(p.stored, p.key, Min((env.at + 1) * p.chunk, n));
      }
    }
  }

  predicate Faulted(r: Result) {
    r.Failed? && r.error == EFAULT
  }

  /** A write faults exactly when the chunk of the fault starts before the end of what fits. It has
      then stored exactly the chunks before, and writing the rest of the data completes it: the pipe
      is the one an undisturbed write leaves, and the counts add up to its count. */
  lemma WriteResumes(p: Pipe, data: seq<bv8>, at: nat)
    requires Sound(p)
    ensures var (q, r) := Step(p, Write(data), Fault(at));
            var (whole, w) := Step(p, Write(data), Fine);
            var kept := Stored(p, Call(Write(data), Fault(at)));
            && (Faulted(r) <==> w.Done? && at * p.chunk < w.count)
            && (Faulted(r) ==> kept == at * p.chunk &&
                               Step(q, Write(data[kept..]), Fine) == (whole, Done(w.count - kept, [])))
            && (!Faulted(r) ==> (q, r) == (whole, w))
  {
    hide Filled, Chunks;
    ChunksProduct(at, p.chunk);
    var (q, r) := Step(p, Write(data), Fault(at));
    if Faulted(r) {
      FilledResumes(p.stored, data, p.key, |q.stored| - |p.stored|, Min(|data|, p.capacity - |p.stored|));
    }
  }

  /** A read faults exactly when the chunk of the fault starts before its end. It has then delivered
      exactly the chunks before, and reading the rest leaves the pipe an undisturbed read leaves; but
      what it hands out lacks the chunk of the fault, `lost`, and nothing else. */
  lemma ReadLosesOneChunk(p: Pipe, len: nat, at: nat) returns (lost: seq<bv8>)
    requires Sound(p)
    ensures var (q, r) := Step(p, Read(len), Fault(at));
            var (whole, w) := Step(p, Read(len), Fine);
            var taken := Taken(p, Call(Read(len), Fault(at)));
            && (Faulted(r) <==> at * p.chunk < w.count)
            && (Faulted(r) ==> |r.out| == at * p.chunk && 0 < |lost| <= p.chunk && taken <= len &&
                               var (end, rest) := Step(q, Read(len - taken), Fine);
                               end == whole && w.out == r.out + lost + rest.out)
            && (!Faulted(r) ==> (q, r) == (whole, w))
  {
    hide Drained, Decrypted;
    ChunksProduct(at, p.chunk);
    var (q, r) := Step(p, Read(len), Fault(at));
    var n, m, taken := Min(len, |p.stored|), |r.out|, |p.stored| - |q.stored|;
    lost := [];
    if Faulted(r) {
      lost := Decrypted(p.stored, p.key, m, taken - m);
      DecryptedJoin(p.stored, p.key, m, taken - m);
      DecryptedJoin(p.stored, p.key, taken, n - taken);
      DrainedResumes(p.stored, taken, n - taken);
      DecryptedResumes(p.stored, p.key, taken, n - taken);
    }
  }

  lemma EncryptedConcat(a: seq<Accepted>, b: seq<Accepted>)
    ensures Encrypted(a + b) == Encrypted(a) + Encrypted(b)
  {
    var l, r := Encrypted(a + b), Encrypted(a) + Encrypted(b);
    forall i | 0 <= i < |a + b| ensures l[i] == r[i] {
      assert (a + b)[i] == if i < |a| then a[i] else b[i - |a|];
    }
  }

  lemma EncryptedAccept(data: seq<bv8>, key: bv8)
    ensures Encrypted(Accept(data, key)) == Xor(data, key)
  {
    forall i | 0 <= i < |data| ensures Encrypted(Accept(data, key))[i] == Xor(data, key)[i] { XorAt(data, key, i); }
  }

  lemma BalanceWrite(p: Pipe, h: History, c: Call)
    requires Sound(p) && Balanced(p, h) && c.op.Write?
    ensures Balanced(Step(p, c.op, c.env).0, Record(h, p, c))
  {
    WriteShape(p, c);
    BalanceAppend(p, h, c.op.data[..Stored(p, c)]);
  }

  lemma BalanceAppend(p: Pipe, h: History, data: seq<bv8>)
    requires Balanced(p, h)
    ensures Balanced(p.(stored := p.stored + Xor(data, p.key)), h.(accepted := h.accepted + Accept(data, p.key)))
  {
    var r, more := |h.removed|, Accept(data, p.key);
    EncryptedAccept(data, p.key);
    EncryptedConcat(h.accepted[r..], more);
    assert (h.accepted + more)[r..] == h.accepted[r..] + more;
  }

  lemma BalanceRead(p: Pipe, h: History, c: Call)
    requires Sound(p) && Balanced(p, h) && c.op.Read?
    ensures Balanced(Step(p, c.op, c.env).0, Record(h, p, c))
  {
    ReadShape(p, c);
    BalanceDrop(p, h, Taken(p, c), |Step(p, c.op, c.env).1.out|);
  }

  lemma EncryptedDrop(s: seq<Accepted>, t: nat)
    requires t <= |s|
    ensures Encrypted(s)[t..] == Encrypted(s[t..])
  {
  }

  /** Bytes taken from the front match the oldest accepted ones not yet removed. */
  lemma FrontMatches(s: seq<Accepted>, t: nat, n: nat, key: bv8, i: nat)
    requires n <= t <= |s| && i < t
    ensures Matches(Remove(Xor(Encrypted(s)[..n], key), t, key)[i], s[i])
  {
    if i < n { XorAt(Encrypted(s)[..n], key, i); }
  }

  lemma BalanceDrop(p: Pipe, h: History, t: nat, n: nat)
    requires Balanced(p, h) && n <= t <= |p.stored|
    ensures Balanced(p.(stored := p.stored[t..]),
                     h.(removed := h.removed + Remove(Xor(p.stored[..n], p.key), t, p.key)))
  {
    hide Xor, Encrypted;
    var r, rest := |h.removed|, h.accepted[|h.removed|..];
    var gone := Remove(Xor(p.stored[..n], p.key), t, p.key);
    EncryptedDrop(rest, t);
    assert rest[t..] == h.accepted[r + t..];
    forall i | 0 <= i < r + t ensures Matches((h.removed + gone)[i], h.accepted[i]) {
      if i >= r { FrontMatches(rest, t, n, p.key, i - r); }
    }
  }

  /** Over any run of calls, with faults, interruptions and changes of key anywhere in it, the
      account stays balanced. So nothing is reordered, duplicated or invented, each byte delivered is
      the byte accepted in its turn xor the key of its write xor the key of its read, and the bytes
      accepted are those delivered, those lost and the `data_len` still stored. */
  lemma {:induction false} RunBalanced(p: Pipe, h: History, calls: seq<Call>)
    requires Sound(p) && Balanced(p, h)
    ensures Balanced(Run(p, h, calls).0, Run(p, h, calls).1)
    decreases calls
  {
    if calls != [] {
      var c := calls[0];
      match c.op {
        case Write(_) => BalanceWrite(p, h, c);
        case Read(_) => BalanceRead(p, h, c);
        case SetKey(_) =>
      }
      RunBalanced(Step(p, c.op, c.env).0, Record(h, p, c), calls[1..]);
    }
  }

  function DeliveredCount(s: seq<Removed>): nat {
    if s == [] then 0 else (if s[0].Delivered? then 1 else 0) + DeliveredCount(s[1..])
  }

  function LostCount(s: seq<Removed>): nat {
    if s == [] then 0 else (if s[0].Lost? then 1 else 0) + LostCount(s[1..])
  }

  lemma {:induction false} RemovedSplit(s: seq<Removed>)
    ensures DeliveredCount(s) + LostCount(s) == |s|
  {
    if s != [] { RemovedSplit(s[1..]); }
  }

  /** Conservation: accepted = delivered + lost + stored. */
  lemma Conservation(p: Pipe, calls: seq<Call>)
    requires Sound(p) && p.stored == []
    ensures var (q, h) := Run(p, History([], []), calls);
            |h.accepted| == DeliveredCount(h.removed) + LostCount(h.removed) + |q.stored|
  {
    RunBalanced(p, History([], []), calls);
    RemovedSplit(Run(p, History([], []), calls).1.removed);
  }

  // ---------------------------------------------------------------- runs in terms of the calls

  /** The bytes all reads of a run handed to their users, in order. */
  function Outputs(p: Pipe, calls: seq<Call>): seq<bv8>
    requires Sound(p)
    decreases calls
  {
    if calls == [] then []
    else var (q, r) := Step(p, calls[0].op, calls[0].env); r.out + Outputs(q, calls[1..])
  }

  /** The bytes a call accepted. */
  function Input(p: Pipe, c: Call): seq<bv8>
    requires Sound(p)
  {
    if c.op.Write? then c.op.data[..Stored(p, c)] else []
  }

  /** The bytes all writes of a run accepted, in order. */
  function Inputs(p: Pipe, calls: seq<Call>): seq<bv8>
    requires Sound(p)
    decreases calls
  {
    if calls == [] then []
    else Input(p, calls[0]) + Inputs(Step(p, calls[0].op, calls[0].env).0, calls[1..])
  }

  function DeliveredBytes(s: seq<Removed>): seq<bv8> {
    if s == [] then [] else (if s[0].Delivered? then [s[0].byte] else []) + DeliveredBytes(s[1..])
  }

  function AcceptedBytes(s: seq<Accepted>): (r: seq<bv8>)
    ensures |r| == |s|
  {
    seq(|s|, i requires 0 <= i < |s| => s[i].byte)
  }

  lemma Regroup(a: seq<bv8>, b: seq<bv8>, c: seq<bv8>)
    ensures a + (b + c) == a + b + c
  {
  }

  lemma {:induction false} DeliveredConcat(a: seq<Removed>, b: seq<Removed>)
    ensures DeliveredBytes(a + b) == DeliveredBytes(a) + DeliveredBytes(b)
  {
    if a == [] {
      assert a + b == b;
    } else {
      DeliveredConcat(a[1..], b);
      assert (a + b)[0] == a[0] && (a + b)[1..] == a[1..] + b;
      Regroup(if a[0].Delivered? then [a[0].byte] else [], DeliveredBytes(a[1..]), DeliveredBytes(b));
    }
  }

  lemma {:induction false} DeliveredRemove(out: seq<bv8>, t: nat, key: bv8)
    requires |out| <= t
    ensures DeliveredBytes(Remove(out, t, key)) == out
  {
    if t > 0 {
      var s := Remove(out, t, key);
      if out == [] {
        assert s[1..] == Remove(out, t - 1, key);
        DeliveredRemove(out, t - 1, key);
      } else {
        assert s[1..] == Remove(out[1..], t - 1, key);
        DeliveredRemove(out[1..], t - 1, key);
      }
    }
  }

  lemma AcceptedConcat(h: seq<Accepted>, data: seq<bv8>, key: bv8)
    ensures AcceptedBytes(h + Accept(data, key)) == AcceptedBytes(h) + data
  {
    var l, r := AcceptedBytes(h + Accept(data, key)), AcceptedBytes(h) + data;
    forall i | 0 <= i < |l| ensures l[i] == r[i] {
      assert (h + Accept(data, key))[i] == if i < |h| then h[i] else Accept(data, key)[i - |h|];
    }
  }

  lemma RecordIsReal(p: Pipe, h: History, c: Call)
    requires Sound(p)
    ensures var g := Record(h, p, c);
            && DeliveredBytes(g.removed) == DeliveredBytes(h.removed) + Step(p, c.op, c.env).1.out
            && AcceptedBytes(g.accepted) == AcceptedBytes(h.accepted) + Input(p, c)
  {
    match c.op {
      case Write(data) =>
        WriteShape(p, c);
        AcceptedConcat(h.accepted, Input(p, c), p.key);
      case Read(_) =>
        ReadShape(p, c);
        var out := Step(p, c.op, c.env).1.out;
        DeliveredConcat(h.removed, Remove(out, Taken(p, c), p.key));
        DeliveredRemove(out, Taken(p, c), p.key);
      case SetKey(_) =>
    }
  }

  /** The history is made of the calls' own results: its delivered bytes are what the reads handed
      out and its accepted bytes are what the writes took. */
  lemma {:induction false} HistoryIsReal(p: Pipe, h: History, calls: seq<Call>)
    requires Sound(p)
    ensures var g := Run(p, h, calls).1;
            && DeliveredBytes(g.removed) == DeliveredBytes(h.removed) + Outputs(p, calls)
            && AcceptedBytes(g.accepted) == AcceptedBytes(h.accepted) + Inputs(p, calls)
    decreases calls
  {
    if calls != [] {
      RecordIsReal(p, h, calls[0]);
      HistoryIsReal(Step(p, calls[0].op, calls[0].env).0, Record(h, p, calls[0]), calls[1..]);
    }
  }

  // ---------------------------------------------------------------- which key was in force

  predicate SetsKey(c: Call) {
    c.op.SetKey? && c.env == Fine
  }

  /** The key in force after the calls: the last one that was set without hindrance, if any. */
  function KeyAfter(key: bv8, calls: seq<Call>): bv8 {
    if calls == [] then key
    else
      var c := calls[|calls| - 1];
      if SetsKey(c) then c.op.newKey else KeyAfter(key, calls[..|calls| - 1])
  }

  /** That is what it is: if no call from the `i`-th on sets the key, it is what the call before these
      set it to, or the initial key where there is none before. */
  lemma {:induction false} KeyAfterIsLast(key: bv8, calls: seq<Call>, i: nat)
    requires i <= |calls| && forall j | i <= j < |calls| :: !(calls[j].op.SetKey? && calls[j].env == Fine)
    ensures i == 0 ==> KeyAfter(key, calls) == key
    ensures i > 0 && calls[i - 1].op.SetKey? && calls[i - 1].env == Fine ==>
              KeyAfter(key, calls) == calls[i - 1].op.newKey
  {
    if i < |calls| { KeyAfterIsLast(key, calls[..|calls| - 1], i); }
  }

  lemma {:induction false} RunSnoc(p: Pipe, h: History, calls: seq<Call>, c: Call)
    requires Sound(p)
    ensures var (q, g) := Run(p, h, calls); Run(p, h, calls + [c]) == (Step(q, c.op, c.env).0, Record(g, q, c))
    decreases calls
  {
    if calls == [] {
      assert calls + [c] == [c];
    } else {
      assert (calls + [c])[1..] == calls[1..] + [c];
      RunSnoc(Step(p, calls[0].op, calls[0].env).0, Record(h, p, calls[0]), calls[1..], c);
    }
  }

  lemma {:induction false} KeyInForce(p: Pipe, h: History, calls: seq<Call>)
    requires Sound(p)
    ensures Run(p, h, calls).0.key == KeyAfter(p.key, calls)
  {
    if calls != [] {
      var before, c := calls[..|calls| - 1], calls[|calls| - 1];
      assert calls == before + [c];
      KeyInForce(p, h, before);
      RunSnoc(p, h, before, c);
      SetKeyOutcome(Run(p, h, before).0, 0, c.op, c.env);
    }
  }

  /** Every byte is accounted for under the key in force at its call: the history after call `i` is the
      one before, with the bytes the call took or handed out (or lost) under the last key set by then. */
  lemma RecordedKeys(p: Pipe, h: History, calls: seq<Call>, i: nat)
    requires Sound(p) && i < |calls|
    ensures var (q, g) := Run(p, h, calls[..i]);
            var c, key := calls[i], KeyAfter(p.key, calls[..i]);
            Run(p, h, calls[..i + 1]).1 ==
            match c.op
            case Write(_) => History(g.accepted + Accept(Input(q, c), key), g.removed)
            case Read(_) => History(g.accepted, g.removed + Remove(Step(q, c.op, c.env).1.out, Taken(q, c), key))
            case SetKey(_) => g
  {
    assert calls[..i + 1] == calls[..i] + [calls[i]];
    RunSnoc(p, h, calls[..i], calls[i]);
    KeyInForce(p, h, calls[..i]);
  }

  // ---------------------------------------------------------------- first in, first out

  /** No read of the run faults. */
  predicate NoLoss(p: Pipe, calls: seq<Call>)
    requires Sound(p)
    decreases calls
  {
    calls == [] ||
    var (q, r) := Step(p, calls[0].op, calls[0].env);
    !(calls[0].op.Read? && Faulted(r)) && NoLoss(q, calls[1..])
  }

  predicate AllDelivered(s: seq<Removed>) {
    forall i | 0 <= i < |s| :: s[i].Delivered?
  }

  lemma {:induction false} NothingLost(p: Pipe, h: History, calls: seq<Call>)
    requires Sound(p) && NoLoss(p, calls) && AllDelivered(h.removed)
    ensures AllDelivered(Run(p, h, calls).1.removed)
    decreases calls
  {
    if calls != [] {
      var c := calls[0];
      if c.op.Read? { ReadShape(p, c); }
      assert AllDelivered(Record(h, p, c).removed);
      NothingLost(Step(p, c.op, c.env).0, Record(h, p, c), calls[1..]);
    }
  }

  lemma {:induction false} DeliveredAt(s: seq<Removed>, i: nat)
    requires AllDelivered(s) && i < |s|
    ensures |DeliveredBytes(s)| == |s| && DeliveredBytes(s)[i] == s[i].byte
  {
    if i > 0 { DeliveredAt(s[1..], i - 1); } else if |s| > 1 { DeliveredAt(s[1..], 0); }
  }

  /** A run from an empty pipe, and its history in terms of the calls. */
  lemma RunIsReal(p: Pipe, calls: seq<Call>)
    requires Sound(p) && p.stored == [] && NoLoss(p, calls)
    ensures var (q, h) := Run(p, History([], []), calls);
            && Balanced(q, h) && AllDelivered(h.removed)
            && AcceptedBytes(h.accepted) == Inputs(p, calls) && DeliveredBytes(h.removed) == Outputs(p, calls)
  {
    assert Balanced(p, History([], []));
    hide Run, Inputs, Outputs, Balanced;
    RunBalanced(p, History([], []), calls);
    HistoryIsReal(p, History([], []), calls);
    NothingLost(p, History([], []), calls);
  }

  lemma DeliveredLength(s: seq<Removed>)
    requires AllDelivered(s)
    ensures |DeliveredBytes(s)| == |s|
  {
    if s != [] { DeliveredAt(s, 0); }
  }

  /** The byte at `i`: read under the keys of its write and its read, or stored under that of its write. */
  predicate InPlace(written: seq<bv8>, read: seq<bv8>, stored: seq<bv8>, h: History, i: nat) {
    && |written| == |read| + |stored| == |h.accepted| && |h.removed| == |read| && i < |written|
    && if i < |read|
       then h.removed[i].Delivered? && read[i] == written[i] ^ h.accepted[i].key ^ h.removed[i].key
       else stored[i - |read|] == written[i] ^ h.accepted[i].key
  }

  lemma BalancedAt(q: Pipe, h: History, i: nat)
    requires Balanced(q, h) && AllDelivered(h.removed) && i < |h.accepted|
    ensures InPlace(AcceptedBytes(h.accepted), DeliveredBytes(h.removed), q.stored, h, i)
  {
    DeliveredLength(h.removed);
    if i < |h.removed| {
      DeliveredAt(h.removed, i);
      assert Matches(h.removed[i], h.accepted[i]);
    } else {
      assert h.accepted[|h.removed|..][i - |h.removed|] == h.accepted[i];
    }
  }

  /** Over any run without lost bytes, whatever keys it sets: the bytes the reads handed out are, one by
      one and in order, the bytes the writes took, each xor the key of its write xor the key of its
      read (`RecordedKeys` says which these are); what was not yet read is in the pipe, under the key
      of its write. */
  lemma KeyedFifo(p: Pipe, calls: seq<Call>, i: nat)
    requires Sound(p) && p.stored == [] && NoLoss(p, calls) && i < |Inputs(p, calls)|
    ensures var (q, h) := Run(p, History([], []), calls);
            InPlace(Inputs(p, calls), Outputs(p, calls), q.stored, h, i)
  {
    hide *;
    RunIsReal(p, calls);
    var (q, h) := Run(p, History([], []), calls);
    BalancedAt(q, h, i);
  }

  /** The call leaves the key as it is, and if it reads, it does not fault. */
  predicate Steady(p: Pipe, c: Call)
    requires Sound(p)
  {
    var (q, r) := Step(p, c.op, c.env);
    q.key == p.key && !(c.op.Read? && Faulted(r))
  }

  /** So do all calls of a run, one of which may set the key it finds or fail to set another. */
  predicate SteadyRun(p: Pipe, calls: seq<Call>)
    requires Sound(p)
    decreases calls
  {
    calls == [] || (Steady(p, calls[0]) && SteadyRun(Step(p, calls[0].op, calls[0].env).0, calls[1..]))
  }

  lemma PlainStep(p: Pipe, c: Call)
    requires Sound(p) && Steady(p, c)
    ensures var (q, r) := Step(p, c.op, c.env);
            q.key == p.key && Xor(p.stored, p.key) + Input(p, c) == r.out + Xor(q.stored, p.key)
  {
    if c.op.Write? {
      WriteShape(p, c);
      XorConcat(p.stored, Xor(Input(p, c), p.key), p.key);
      XorTwice(Input(p, c), p.key);
    } else if c.op.Read? {
      ReadShape(p, c);
      var t := Taken(p, c);
      assert p.stored == p.stored[..t] + p.stored[t..];
      XorConcat(p.stored[..t], p.stored[t..], p.key);
    }
  }

  /** With an unchanged key and no faulting read, what was in the pipe and everything written since
      is what has been read followed by what is in the pipe, byte for byte. */
  lemma {:induction false} PlainFifo(p: Pipe, h: History, calls: seq<Call>)
    requires Sound(p) && SteadyRun(p, calls)
    ensures var q := Run(p, h, calls).0;
            && q.key == p.key
            && Xor(p.stored, p.key) + Inputs(p, calls) == Outputs(p, calls) + Xor(q.stored, p.key)
    decreases calls
  {
    if calls != [] {
      var c, later := calls[0], calls[1..];
      PlainStep(p, c);
      var (q, r) := Step(p, c.op, c.env);
      PlainFifo(q, Record(h, p, c), later);
      Associate(Xor(p.stored, p.key), Input(p, c), Inputs(q, later), r.out, Xor(q.stored, p.key),
                Outputs(q, later), Xor(Run(p, h, calls).0.stored, p.key));
    }
  }

  lemma Associate(a: seq<bv8>, b: seq<bv8>, c: seq<bv8>, d: seq<bv8>, e: seq<bv8>, f: seq<bv8>, g: seq<bv8>)
    requires a + b == d + e && e + c == f + g
    ensures a + (b + c) == (d + f) + g
  {
    assert a + (b + c) == (a + b) + c == d + (e + c);
  }
}
