/**
  The encrypted buffer device: a seekable file kept as ciphertext, against a plain file.
 */
module CryptoFile {
  import opened Numbers

  const BUFFER_SIZE: nat := 10 * 1024 * 1024
  const XOR_KEY: bv8 := 0x5A
  const TWO63: int := 0x8000_0000_0000_0000
  const TWO64: int := 0x1_0000_0000_0000_0000

  /** `loff_t` */
  type loff = x: int | -TWO63 <= x < TWO63

  /** A computed offset as it is stored into a `loff_t`. */
  function ToLoff(x: int): loff {
    (x + TWO63) % TWO64 - TWO63
  }

  datatype Op = Read(len: nat) | Write(data: seq<bv8>) | Seek(offset: loff, whence: int)

  /** What the kernel may do to a call: nothing, refuse it memory, or fail its copy. */
  datatype Env = Fine | NoMemory | CopyFault

  datatype Errno = ENOMEM | EFAULT | EFBIG | EINVAL

  /** A failure, a byte count with the bytes handed out, or a new position. */
  datatype Result = Failed(error: Errno) | Count(n: nat, out: seq<bv8>) | At(pos: nat)

  function Crypt(s: seq<bv8>): (r: seq<bv8>)
    ensures |r| == |s| && forall i | 0 <= i < |s| :: r[i] == s[i] ^ XOR_KEY
  {
    seq(|s|, i requires 0 <= i < |s| => s[i] ^ XOR_KEY)
  }

  lemma CryptGrows(s: seq<bv8>, i: nat)
    requires i < |s|
    ensures Crypt(s[..i + 1]) == Crypt(s[..i]) + [s[i] ^ XOR_KEY]
  {
  }

  lemma CryptByte(b: bv8)
    ensures b ^ XOR_KEY ^ XOR_KEY == b
    ensures 0 ^ XOR_KEY == XOR_KEY
  {
  }

  // ---------------------------------------------------------------- the device

  /** The buffer as it lies in memory, and the high-water mark. */
  datatype Stored = Stored(bytes: seq<bv8>, size: nat)

  /** What the device never gives up: beyond the high-water mark the buffer is still zero. */
  predicate Sound(s: Stored) {
    && |s.bytes| == BUFFER_SIZE && s.size <= BUFFER_SIZE
    && forall i | s.size <= i < BUFFER_SIZE :: s.bytes[i] == 0
  }

  predicate InFile(pos: nat) {
    pos <= BUFFER_SIZE
  }

  /** The kernel refuses a transfer whose length does not fit a signed size before the driver sees it. */
  predicate Passable(op: Op) {
    op.Write? ==> |op.data| < TWO63
  }

  /** `*offset + len > BUFFER_SIZE` in 64-bit unsigned arithmetic. */
  predicate TooBig(pos: nat, len: nat) {
    (pos + len) % TWO64 > BUFFER_SIZE
  }

  /** `dev_llseek` */
  function SeekStep(s: Stored, pos: nat, offset: loff, whence: int): (nat, Result)
    requires InFile(pos)
  {
    if whence !in {0, 1, 2} then (pos, Failed(EINVAL))
    else
      var base := if whence == 0 then 0 else if whence == 1 then pos else s.size;
      var newPos := ToLoff(base + offset);
      if newPos < 0 then (pos, Failed(EINVAL))
      else if newPos > BUFFER_SIZE then (pos, Failed(EINVAL))
      else (newPos, At(newPos))
  }

  /** One call on the device through a file at position `pos`: buffer and position afterwards, result. */
  function Step(s: Stored, pos: nat, op: Op, env: Env): (Stored, nat, Result)
    requires Sound(s) && InFile(pos) && Passable(op)
  {
    match op
    case Read(len) =>
      if pos >= s.size then (s, pos, Count(0, []))
      else if env.NoMemory? then (s, pos, Failed(ENOMEM))
      else if env.CopyFault? then (s, pos, Failed(EFAULT))
      else
        var n := Min(len, s.size - pos);
        (s, pos + n, Count(n, Crypt(s.bytes[pos..pos + n])))
    case Write(data) =>
      if TooBig(pos, |data|) then (s, pos, Failed(EFBIG))
      else if env.NoMemory? then (s, pos, Failed(ENOMEM))
      else if env.CopyFault? then (s, pos, Failed(EFAULT))
      else
        ExactGuard(pos, |data|);
        var end := pos + |data|;
        (Stored(s.bytes[..pos] + Crypt(data) + s.bytes[end..], Max(s.size, end)), end, Count(|data|, []))
    case Seek(offset, whence) =>
      var (pos', r) := SeekStep(s, pos, offset, whence);
      (s, pos', r)
  }

  /** The length guard is exact for every length the kernel passes on, and wrong exactly for those
      lengths at which the 64-bit sum wraps round. */
  lemma ExactGuard(pos: nat, len: nat)
    requires InFile(pos) && len < TWO64
    ensures (TooBig(pos, len) <==> pos + len > BUFFER_SIZE) <==> pos + len < TWO64
  {
    if pos + len >= TWO64 { assert (pos + len) % TWO64 == pos + len - TWO64; }
  }

  // ---------------------------------------------------------------- the plain file

  /** A write into a plain file: bytes that were never written read as 0x5A. */
  function Overwrite(file: seq<bv8>, pos: nat, data: seq<bv8>): (r: seq<bv8>)
    ensures |r| == Max(|file|, pos + |data|)
  {
    seq(Max(|file|, pos + |data|), i requires 0 <= i < Max(|file|, pos + |data|) =>
      if pos <= i < pos + |data| then data[i - pos] else if i < |file| then file[i] else XOR_KEY)
  }

  /** One call on a plain file of at most BUFFER_SIZE bytes, in unbounded arithmetic. */
  function PlainStep(file: seq<bv8>, pos: nat, op: Op, env: Env): (seq<bv8>, nat, Result) {
    match op
    case Read(len) =>
      if pos >= |file| then (file, pos, Count(0, []))
      else if env.NoMemory? then (file, pos, Failed(ENOMEM))
      else if env.CopyFault? then (file, pos, Failed(EFAULT))
      else var out := file[pos..Min(pos + len, |file|)]; (file, pos + |out|, Count(|out|, out))
    case Write(data) =>
      if pos + |data| > BUFFER_SIZE then (file, pos, Failed(EFBIG))
      else if env.NoMemory? then (file, pos, Failed(ENOMEM))
      else if env.CopyFault? then (file, pos, Failed(EFAULT))
      else (Overwrite(file, pos, data), pos + |data|, Count(|data|, []))
    case Seek(offset, whence) =>
      var newPos := (match whence case 0 => 0 case 1 => pos case 2 => |file| case _ => -1) + offset;
      if 0 <= whence <= 2 && 0 <= newPos <= BUFFER_SIZE then (file, newPos, At(newPos)) else (file, pos, Failed(EINVAL))
  }

  /** The plain file a stored buffer stands for. */
  function Plain(s: Stored): (file: seq<bv8>)
    requires Sound(s)
    ensures |file| == s.size
  {
    Crypt(s.bytes[..s.size])
  }

  // ---------------------------------------------------------------- refinement

  lemma WriteSound(s: Stored, pos: nat, data: seq<bv8>)
    requires Sound(s) && pos + |data| <= BUFFER_SIZE
    ensures var end := pos + |data|;
            var s' := Stored(s.bytes[..pos] + Crypt(data) + s.bytes[end..], Max(s.size, end));
            Sound(s') && Plain(s') == Overwrite(Plain(s), pos, data)
  {
    hide Crypt;
    var end := pos + |data|;
    var s' := Stored(s.bytes[..pos] + Crypt(data) + s.bytes[end..], Max(s.size, end));
    assert forall i | 0 <= i < pos :: s'.bytes[i] == s.bytes[i];
    assert forall i | end <= i < BUFFER_SIZE :: s'.bytes[i] == s.bytes[i];
    var file' := Overwrite(Plain(s), pos, data);
    forall i | 0 <= i < s'.size ensures Plain(s')[i] == file'[i] {
      if pos <= i < end {
        assert s'.bytes[i] == Crypt(data)[i - pos];
        CryptByte(data[i - pos]);
      } else {
        assert s'.bytes[i] == s.bytes[i];
        CryptByte(0);
      }
    }
  }

  lemma SeekExact(s: Stored, pos: nat, offset: loff, whence: int)
    requires Sound(s) && InFile(pos)
    ensures var (pos', r) := SeekStep(s, pos, offset, whence);
            InFile(pos') && (Plain(s), pos', r) == PlainStep(Plain(s), pos, Seek(offset, whence), Fine)
  {
    if whence in {0, 1, 2} {
      var base := if whence == 0 then 0 else if whence == 1 then pos else s.size;
      WrapsBelowZero(base, offset);
    }
  }

  /** Where the 64-bit sum wraps it turns negative, so the call is refused just the same. */
  lemma WrapsBelowZero(base: nat, offset: loff)
    requires InFile(base)
    ensures ToLoff(base + offset) == if base + offset < TWO63 then base + offset else base + offset - TWO64
    ensures base + offset >= TWO63 ==> ToLoff(base + offset) < 0
  {
  }

  /** One call on the device is the same call on the plain file; the device stays sound, the position
      inside it, and a call that fails changes nothing. */
  lemma StepRefines(s: Stored, pos: nat, op: Op, env: Env)
    requires Sound(s) && InFile(pos) && Passable(op)
    ensures var (s', pos', r) := Step(s, pos, op, env);
            && Sound(s') && InFile(pos') && s.size <= s'.size
            && (Plain(s'), pos', r) == PlainStep(Plain(s), pos, op, env)
            && (r.Failed? ==> s' == s && pos' == pos)
  {
    hide Crypt, Overwrite;
    match op
    case Read(len) =>
      if pos < s.size {
        var n := Min(len, s.size - pos);
        assert Crypt(s.bytes[pos..pos + n]) == Plain(s)[pos..pos + n];
      }
    case Write(data) =>
      ExactGuard(pos, |data|);
      if pos + |data| <= BUFFER_SIZE { WriteSound(s, pos, data); }
    case Seek(offset, whence) =>
      SeekExact(s, pos, offset, whence);
  }

  /** A call made through one of any number of open files. */
  datatype Call = Call(file: nat, op: Op, env: Env)

  function PosOf(positions: map<nat, nat>, f: nat): nat {
    if f in positions then positions[f] else 0
  }

  predicate AllInFile(positions: map<nat, nat>) {
    forall f | f in positions :: InFile(positions[f])
  }

  function Run(s: Stored, positions: map<nat, nat>, calls: seq<Call>): (Stored, map<nat, nat>, seq<Result>)
    requires Sound(s) && AllInFile(positions) && forall c | c in calls :: Passable(c.op)
    decreases calls
  {
    if calls == [] then (s, positions, [])
    else
      var c := calls[0];
      StepRefines(s, PosOf(positions, c.file), c.op, c.env);
      var (s', pos', r) := Step(s, PosOf(positions, c.file), c.op, c.env);
      var (end, endPositions, rs) := Run(s', positions[c.file := pos'], calls[1..]);
      (end, endPositions, [r] + rs)
  }

  function PlainRun(file: seq<bv8>, positions: map<nat, nat>, calls: seq<Call>): (seq<bv8>, map<nat, nat>, seq<Result>)
    decreases calls
  {
    if calls == [] then (file, positions, [])
    else
      var c := calls[0];
      var (file', pos', r) := PlainStep(file, PosOf(positions, c.file), c.op, c.env);
      var (end, endPositions, rs) := PlainRun(file', positions[c.file := pos'], calls[1..]);
      (end, endPositions, [r] + rs)
  }

  /** Over every sequence of reads, writes and seeks through any number of open files, failures
      included, the encrypted device gives the results of the plain file and ends where it ends. */
  lemma {:induction false} RunRefines(s: Stored, positions: map<nat, nat>, calls: seq<Call>)
    requires Sound(s) && AllInFile(positions) && forall c | c in calls :: Passable(c.op)
    ensures var (s', positions', rs) := Run(s, positions, calls);
            && Sound(s') && AllInFile(positions') && s.size <= s'.size
            && (Plain(s'), positions', rs) == PlainRun(Plain(s), positions, calls)
    decreases calls
  {
    if calls != [] {
      var c := calls[0];
      StepRefines(s, PosOf(positions, c.file), c.op, c.env);
      var (s', pos', r) := Step(s, PosOf(positions, c.file), c.op, c.env);
      RunRefines(s', positions[c.file := pos'], calls[1..]);
    }
  }

  lemma OverwriteSlice(file: seq<bv8>, pos: nat, data: seq<bv8>, len: nat)
    requires len <= |data|
    ensures Overwrite(file, pos, data)[pos..pos + len] == data[..len]
  {
  }

  /** What was written is what is read back, through any file, until it is overwritten. */
  lemma ReadBack(s: Stored, pos: nat, data: seq<bv8>, len: nat)
    requires Sound(s) && InFile(pos) && pos + |data| <= BUFFER_SIZE && len <= |data|
    ensures var (s', end, r) := Step(s, pos, Write(data), Fine);
            && r == Count(|data|, []) && end == pos + |data| && Sound(s')
            && Step(s', pos, Read(len), Fine).2 == Count(len, data[..len])
  {
    hide Crypt, Overwrite, Plain, Sound, Step, TooBig;
    StepRefines(s, pos, Write(data), Fine);
    var s' := Step(s, pos, Write(data), Fine).0;
    StepRefines(s', pos, Read(len), Fine);
    OverwriteSlice(Plain(s), pos, data, len);
  }

  // ---------------------------------------------------------------- the driver

  /** `struct file`, of which only the position matters. */
  class OpenFile {
    var pos: nat

    constructor ()
      ensures pos == 0
    {
      pos := 0;
    }
  }

  class Device {
    const buffer: array<bv8>
    var dataSize: nat

    ghost predicate Valid()
      reads this, buffer
    {
      buffer.Length == BUFFER_SIZE && Sound(Stored(buffer[..], dataSize))
    }

    ghost function View(): (s: Stored)
      requires Valid()
      reads this, buffer
      ensures Sound(s)
    {
      Stored(buffer[..], dataSize)
    }

    /** `crypto_init` */
    constructor ()
      ensures Valid() && fresh(buffer) && Plain(View()) == []
    {
      buffer := new bv8[BUFFER_SIZE](_ => 0);
      dataSize := 0;
    }

    /** The decryption loop of `dev_read`. */
    method DecryptAt(pos: nat, n: nat) returns (tempBuf: seq<bv8>)
      requires pos + n <= buffer.Length
      ensures tempBuf == Crypt(buffer[pos..pos + n])
    {
      tempBuf := [];
      ghost var s := buffer[pos..pos + n];
      assert tempBuf == Crypt(s[..0]);
      hide Crypt;
      for i := 0 to n
        invariant tempBuf == Crypt(s[..i])
      {
        CryptGrows(s, i);
        tempBuf := tempBuf + [buffer[pos + i] ^ XOR_KEY];
      }
      assert s[..n] == s;
    }

    /** `dev_read` */
    method Read(f: OpenFile, len: nat, env: Env) returns (r: Result)
      requires Valid() && InFile(f.pos)
      modifies f
      ensures Valid() && (View(), f.pos, r) == Step(old(View()), old(f.pos), Op.Read(len), env)
    {
      if f.pos >= dataSize {
        return Count(0, []);
      }
      var n := len;
      if n > dataSize - f.pos {
        n := dataSize - f.pos;
      }
      if env.NoMemory? {
        return Failed(ENOMEM);
      }
      var tempBuf := DecryptAt(f.pos, n);
      if env.CopyFault? {
        return Failed(EFAULT);
      }
      f.pos := f.pos + n;
      return Count(n, tempBuf);
    }

    /** The encryption loop of `dev_write`. */
    method EncryptAt(pos: nat, tempBuf: seq<bv8>)
      requires pos + |tempBuf| <= buffer.Length
      modifies buffer
      ensures buffer[..] == old(buffer[..pos]) + Crypt(tempBuf) + old(buffer[pos + |tempBuf|..])
    {
      hide Crypt;
      for i := 0 to |tempBuf|
        invariant buffer[..pos] == old(buffer[..pos])
        invariant buffer[pos..pos + i] == Crypt(tempBuf[..i])
        invariant buffer[pos + i..] == old(buffer[pos + i..])
      {
        buffer[pos + i] := tempBuf[i] ^ XOR_KEY;
        CryptGrows(tempBuf, i);
        assert buffer[pos..pos + (i + 1)] == buffer[pos..pos + i] + [buffer[pos + i]];
      }
      assert tempBuf[..|tempBuf|] == tempBuf;
    }

    /** `dev_write` */
    method Write(f: OpenFile, data: seq<bv8>, env: Env) returns (r: Result)
      requires Valid() && InFile(f.pos) && Passable(Op.Write(data))
      modifies this, f, buffer
      ensures Valid() && (View(), f.pos, r) == Step(old(View()), old(f.pos), Op.Write(data), env)
    {
      hide Crypt, Plain, Overwrite, Sound;
      if (f.pos + |data|) % TWO64 > BUFFER_SIZE {
        return Failed(EFBIG);
      }
      ExactGuard(f.pos, |data|);
      WriteSound(View(), f.pos, data);
      if env.NoMemory? {
        return Failed(ENOMEM);
      }
      if env.CopyFault? {
        return Failed(EFAULT);
      }
      EncryptAt(f.pos, data);
      f.pos := f.pos + |data|;
      if f.pos > dataSize {
        dataSize := f.pos;
      }
      return Count(|data|, []);
    }

    /** `dev_llseek` */
    method Llseek(f: OpenFile, offset: loff, whence: int) returns (r: Result)
      requires Valid() && InFile(f.pos)
      modifies f
      ensures Valid() && View() == old(View()) && (f.pos, r) == SeekStep(View(), old(f.pos), offset, whence)
    {
      var newPos: loff := 0;
      match whence {
        case 0 => newPos := offset;
        case 1 => newPos := ToLoff(f.pos + offset);
        case 2 => newPos := ToLoff(dataSize + offset);
        case _ => return Failed(EINVAL);
      }
      if newPos < 0 {
        return Failed(EINVAL);
      }
      if newPos > BUFFER_SIZE {
        return Failed(EINVAL);
      }
      f.pos := newPos;
      return At(newPos);
    }
  }
}
