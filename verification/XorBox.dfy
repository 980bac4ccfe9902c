/** The XOR pipe driver: the ring, the chunked transfer loops and the lock. */
module XorBox {
  import opened Numbers
  import opened Ring
  import opened XorPipe

  const INITIAL_KEY: bv8 := 0x5A

  class Device {
    const buffer: array<bv8>
    const chunk: nat
    var dataLen: nat
    var head: nat
    var tail: nat
    var key: bv8
    var locked: bool

    /** The indices agree, lock aside; `Wrap` is `%` here (`Ring.WrapIsModulo`). */
    ghost predicate Consistent()
      reads this
    {
      && chunk > 0 && tail < buffer.Length && dataLen <= buffer.Length
      && head == Wrap(tail + dataLen, buffer.Length)
    }

    /** What holds whenever no call is in progress. */
    ghost predicate Valid()
      reads this
    {
      Consistent() && !locked
    }

    ghost function View(): (p: Pipe)
      requires Consistent()
      reads this, buffer
      ensures Sound(p)
    {
      Pipe(buffer.Length, chunk, Window(buffer[..], tail, dataLen), key)
    }

    /** `xorbox_init`, for any buffer and chunk size (4096 and 128 there). */
    constructor (size: nat, chunk: nat)
      requires size > 0 && chunk > 0
      ensures Valid() && fresh(buffer) && View() == Pipe(size, chunk, [], 0x5A)
    {
      buffer := new bv8[size];
      this.chunk := chunk;
      head, tail, dataLen, key, locked := 0, 0, 0, INITIAL_KEY, false;
    }

    /** One turn of the inner loop of `dev_write`. */
    method Put(b: bv8)
      requires Consistent() && locked && dataLen < buffer.Length
      modifies this`head, this`dataLen, buffer
      ensures Consistent() && dataLen == old(dataLen) + 1
      ensures View() == old(View()).(stored := old(View().stored) + [b])
    {
      WindowPush(buffer[..], tail, dataLen, b);
      WrapIsModulo(head + 1, buffer.Length);
      buffer[head] := b;
      head := (head + 1) % buffer.Length;
      dataLen := dataLen + 1;
    }

    /** One turn of the inner loop of `dev_read`. */
    method Take() returns (b: bv8)
      requires Consistent() && locked && dataLen > 0
      modifies this`tail, this`dataLen
      ensures Consistent() && dataLen == old(dataLen) - 1
      ensures b == old(View().stored)[0]
      ensures View() == old(View()).(stored := old(View().stored)[1..])
    {
      WindowPop(buffer[..], tail, dataLen, buffer[tail]);
      assert buffer[..][tail := buffer[tail]] == buffer[..];
      WrapIsModulo(tail + 1, buffer.Length);
      b := buffer[tail];
      tail := (tail + 1) % buffer.Length;
      dataLen := dataLen - 1;
    }

    /** The inner loop of `dev_write`: one chunk encrypted into the ring, `p` being the pipe when the
        call began. */
    method EncryptChunk(kbuf: seq<bv8>, ghost p: Pipe, ghost data: seq<bv8>, ghost from: nat)
      requires Consistent() && locked && dataLen + |kbuf| <= buffer.Length
      requires from + |kbuf| <= |data| && kbuf == data[from..from + |kbuf|]
      requires View() == p.(stored := Filled(p.stored, data, p.key, from))
      modifies this`head, this`dataLen, buffer
      ensures Consistent() && View() == p.(stored := Filled(p.stored, data, p.key, from + |kbuf|))
    {
      hide Window, Wrap, Step, Filled;
      for i := 0 to |kbuf|
        invariant Consistent() && dataLen == old(dataLen) + i
        invariant View() == p.(stored := Filled(p.stored, data, p.key, from + i))
      {
        FilledNext(p.stored, data, p.key, from, kbuf, i);
        Put(kbuf[i] ^ key);
      }
    }

    /** The inner loop of `dev_read`: one chunk decrypted out of the ring. */
    method DecryptChunk(size: nat, ghost p: Pipe, ghost from: nat) returns (kbuf: seq<bv8>)
      requires Consistent() && locked && size <= dataLen
      requires from + size <= |p.stored| && View() == p.(stored := Drained(p.stored, from))
      modifies this`tail, this`dataLen
      ensures Consistent() && View() == p.(stored := Drained(p.stored, from + size))
      ensures kbuf == Decrypted(p.stored, p.key, from, size)
    {
      hide Window, Wrap, Step;
      kbuf := [];
      for i := 0 to size
        invariant Consistent() && dataLen == old(dataLen) - i
        invariant View() == p.(stored := Drained(p.stored, from + i))
        invariant kbuf == Decrypted(p.stored, p.key, from, i)
      {
        var b := Take();
        kbuf := kbuf + [b ^ key];
      }
    }

    /** The loop of `dev_read`: chunk after chunk taken out, decrypted and copied to the user. A fault
        gives up with the chunk already taken. */
    method CopyOut(toRead: nat, env: Env) returns (ok: bool, out: seq<bv8>)
      requires Consistent() && locked && toRead <= dataLen
      modifies this`tail, this`dataLen
      ensures Consistent()
      ensures ok <==> !(env.Fault? && Chunks(env.at, chunk) < toRead)
      ensures var p := old(View());
              && out == Decrypted(p.stored, p.key, 0, if ok then toRead else Chunks(env.at, chunk))
              && View() == p.(stored :=
                   Drained(p.stored, if ok then toRead else Min(Chunks(env.at + 1, chunk), toRead)))
    {
      hide Window, Wrap, Step, Filled, Drained, Decrypted, Chunks;
      ghost var p := View();
      NothingMoved(p.stored, [], key, chunk);
      var bytesRead, copies := 0, 0;
      out := [];
      while bytesRead < toRead
        invariant Consistent()
        invariant bytesRead == Min(Chunks(copies, chunk), toRead)
        invariant View() == p.(stored := Drained(p.stored, bytesRead))
        invariant out == Decrypted(p.stored, p.key, 0, bytesRead)
        invariant env.Fault? ==> copies <= env.at
      {
        var size := Min(toRead - bytesRead, chunk);
        ChunkDone(copies, chunk, toRead, bytesRead, size);
        var kbuf := DecryptChunk(size, p, bytesRead);
        if env == Fault(copies) {
          return false, out;
        }
        DecryptedJoin(p.stored, p.key, bytesRead, size);
        out := out + kbuf;
        bytesRead := bytesRead + size;
        copies := copies + 1;
      }
      NoFaultLeft(copies, chunk, toRead, env);
      ok := true;
    }

    /** `dev_read` */
    method Read(len: nat, env: Env) returns (r: Result)
      requires Valid()
      modifies this`tail, this`dataLen, this`locked
      ensures Valid() && !locked && (View(), r) == Step(old(View()), Op.Read(len), env)
    {
      hide Window, Wrap, Chunks, Filled, Drained, Decrypted;
      if env.Interrupted? {
        return Failed(ERESTARTSYS, []);
      }
      locked := true;
      if dataLen == 0 {
        locked := false;
        return Done(0, []);
      }
      var toRead := Min(len, dataLen);
      var ok, out := CopyOut(toRead, env);
      locked := false;
      return if ok then Done(toRead, out) else Failed(EFAULT, out);
    }

    /** The loop of `dev_write`: chunk after chunk copied from the user, then encrypted in. A fault
        gives up before the chunk is stored. */
    method CopyIn(data: seq<bv8>, toWrite: nat, env: Env) returns (ok: bool)
      requires Consistent() && locked && toWrite <= |data| && dataLen + toWrite <= buffer.Length
      modifies this`head, this`dataLen, buffer
      ensures Consistent()
      ensures ok <==> !(env.Fault? && Chunks(env.at, chunk) < toWrite)
      ensures var p := old(View());
              View() == p.(stored := Filled(p.stored, data, p.key, if ok then toWrite else Chunks(env.at, chunk)))
    {
      hide Window, Wrap, Step, Filled, Drained, Decrypted, Chunks;
      ghost var p := View();
      NothingMoved(p.stored, data, key, chunk);
      var written, copies := 0, 0;
      while written < toWrite
        invariant Consistent()
        invariant written == Min(Chunks(copies, chunk), toWrite)
        invariant View() == p.(stored := Filled(p.stored, data, p.key, written))
        invariant env.Fault? ==> copies <= env.at
      {
        var size := Min(toWrite - written, chunk);
        ChunkDone(copies, chunk, toWrite, written, size);
        if env == Fault(copies) {
          return false;
        }
        EncryptChunk(data[written..written + size], p, data, written);
        written := written + size;
        copies := copies + 1;
      }
      NoFaultLeft(copies, chunk, toWrite, env);
      ok := true;
    }

    /** `dev_write` */
    method Write(data: seq<bv8>, env: Env) returns (r: Result)
      requires Valid()
      modifies this`head, this`dataLen, this`locked, buffer
      ensures Valid() && !locked && (View(), r) == Step(old(View()), Op.Write(data), env)
    {
      hide Window, Wrap, Chunks, Filled, Drained, Decrypted;
      if env.Interrupted? {
        return Failed(ERESTARTSYS, []);
      }
      locked := true;
      var available := buffer.Length - dataLen;
      if available == 0 {
        locked := false;
        return Failed(ENOSPC, []);
      }
      var toWrite := Min(|data|, available);
      var ok := CopyIn(data, toWrite, env);
      locked := false;
      return if ok then Done(toWrite, []) else Failed(EFAULT, []);
    }

    /** `dev_unlocked_ioctl` with XORBOX_SET_KEY; the new key is copied in before the lock is taken. */
    method IoctlSetKey(newKey: bv8, env: Env) returns (r: Result)
      requires Valid()
      modifies this`key, this`locked
      ensures Valid() && !locked && (View(), r) == Step(old(View()), SetKey(newKey), env)
    {
      if env.Fault? {
        return Failed(EFAULT, []);
      }
      if env.Interrupted? {
        return Failed(ERESTARTSYS, []);
      }
      locked := true;
      key := newKey;
      locked := false;
      return Done(0, []);
    }
  }
}
