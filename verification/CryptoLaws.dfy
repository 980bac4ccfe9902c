/**
  What users of the encrypted buffer see: when calls fail, that positions belong to files and move with
  the calls, and what bytes nobody wrote read as. Sizes and keys are given as numbers.
 */
module CryptoLaws {
  import opened CryptoFile

  /** The device as it is initialised. */
  function Fresh(): (s: Stored)
    ensures Sound(s) && Plain(s) == []
  {
    Stored(seq(BUFFER_SIZE, _ => 0), 0)
  }

  predicate SeeksInside(size: nat, pos: nat, offset: int, whence: int) {
    || (whence == 0 && 0 <= offset <= 10485760)
    || (whence == 1 && 0 <= pos + offset <= 10485760)
    || (whence == 2 && 0 <= size + offset <= 10485760)
  }

  /** The call gets as far as moving bytes. */
  predicate Transfers(size: nat, pos: nat, op: Op) {
    match op
    case Read(_) => pos < size
    case Write(data) => pos + |data| <= 10485760
    case Seek(_, _) => false
  }

  /** Exactly when a call fails, and how. */
  lemma FailsExactly(s: Stored, pos: nat, op: Op, env: Env)
    requires Sound(s) && InFile(pos) && Passable(op)
    ensures var r := Step(s, pos, op, env).2;
            && (r == Failed(EFBIG) <==> op.Write? && pos + |op.data| > 10485760)
            && (r == Failed(EINVAL) <==> op.Seek? && !SeeksInside(s.size, pos, op.offset, op.whence))
            && (r == Failed(ENOMEM) <==> env.NoMemory? && Transfers(s.size, pos, op))
            && (r == Failed(EFAULT) <==> env.CopyFault? && Transfers(s.size, pos, op))
  {
    StepRefines(s, pos, op, env);
    hide Step, Plain, Overwrite;
  }

  /** The stored bytes are the plain ones xor 0x5A. */
  lemma StoredUnderKey(s: Stored, i: nat)
    requires Sound(s) && i < s.size
    ensures Plain(s)[i] == s.bytes[i] ^ 0x5A && s.bytes[i] == Plain(s)[i] ^ 0x5A
  {
    CryptByte(s.bytes[i]);
  }

  // ---------------------------------------------------------------- successive calls through one file

  lemma OverwriteTwice(file: seq<bv8>, pos: nat, a: seq<bv8>, b: seq<bv8>)
    ensures Overwrite(Overwrite(file, pos, a), pos + |a|, b) == Overwrite(file, pos, a + b)
  {
  }

  lemma AfterOne(s: Stored, positions: map<nat, nat>, c: Call)
    requires Sound(s) && AllInFile(positions) && Passable(c.op)
    ensures var (s', pos', r) := Step(s, PosOf(positions, c.file), c.op, c.env);
            Run(s, positions, [c]) == (s', positions[c.file := pos'], [r])
  {
    StepRefines(s, PosOf(positions, c.file), c.op, c.env);
    assert [c][1..] == [];
    var r := Step(s, PosOf(positions, c.file), c.op, c.env).2;
    assert [r] + [] == [r];
  }

  lemma AfterTwo(s: Stored, positions: map<nat, nat>, c: Call, d: Call)
    requires Sound(s) && AllInFile(positions) && Passable(c.op) && Passable(d.op) && c.file == d.file
    ensures var (s1, pos1, r1) := Step(s, PosOf(positions, c.file), c.op, c.env);
            && Sound(s1) && InFile(pos1)
            && var (s2, pos2, r2) := Step(s1, pos1, d.op, d.env);
               Run(s, positions, [c, d]) == (s2, positions[c.file := pos2], [r1, r2])
  {
    StepRefines(s, PosOf(positions, c.file), c.op, c.env);
    var (s1, pos1, r1) := Step(s, PosOf(positions, c.file), c.op, c.env);
    AfterOne(s1, positions[c.file := pos1], d);
    var (s2, pos2, r2) := Step(s1, pos1, d.op, d.env);
    assert [c, d][1..] == [d] && [r1] + [r2] == [r1, r2];
    assert positions[c.file := pos1][d.file := pos2] == positions[c.file := pos2];
  }

  /** The same stored buffer is the same plain file, and the other way round. */
  lemma PlainInjective(s: Stored, t: Stored)
    requires Sound(s) && Sound(t) && Plain(s) == Plain(t)
    ensures s == t
  {
    forall i | 0 <= i < BUFFER_SIZE ensures s.bytes[i] == t.bytes[i] {
      if i < s.size {
        StoredUnderKey(s, i);
        StoredUnderKey(t, i);
      }
    }
    assert s.bytes == t.bytes;
  }

  lemma WriteOnce(s: Stored, pos: nat, data: seq<bv8>)
    requires Sound(s) && pos + |data| <= 10485760
    ensures var (s', pos', r) := Step(s, pos, Write(data), Fine);
            && Sound(s') && Plain(s') == Overwrite(Plain(s), pos, data)
            && pos' == pos + |data| && r == Count(|data|, [])
  {
    StepRefines(s, pos, Write(data), Fine);
    hide Step, Plain, Overwrite;
  }

  lemma WriteAgain(s: Stored, pos: nat, a: seq<bv8>, b: seq<bv8>)
    requires Sound(s) && pos + |a| + |b| <= 10485760
    ensures var (s1, pos1, r1) := Step(s, pos, Write(a), Fine);
            && Sound(s1) && InFile(pos1) && pos1 == pos + |a| && r1 == Count(|a|, [])
            && Step(s1, pos1, Write(b), Fine) ==
               (Step(s, pos, Write(a + b), Fine).0, pos + |a| + |b|, Count(|b|, []))
            && Step(s, pos, Write(a + b), Fine).1 == pos + |a| + |b|
  {
    hide Step, Plain, Overwrite, Sound;
    WriteOnce(s, pos, a);
    WriteOnce(s, pos, a + b);
    var s1 := Step(s, pos, Write(a), Fine).0;
    WriteOnce(s1, pos + |a|, b);
    OverwriteTwice(Plain(s), pos, a, b);
    PlainInjective(Step(s1, pos + |a|, Write(b), Fine).0, Step(s, pos, Write(a + b), Fine).0);
  }

  /** Two writes through one file leave what one write of both their data leaves, and the file behind
      both. */
  lemma WritesJoin(s: Stored, positions: map<nat, nat>, f: nat, a: seq<bv8>, b: seq<bv8>)
    requires Sound(s) && AllInFile(positions) && PosOf(positions, f) + |a| + |b| <= 10485760
    ensures Run(s, positions, [Call(f, Write(a), Fine), Call(f, Write(b), Fine)]) ==
            (Run(s, positions, [Call(f, Write(a + b), Fine)]).0, positions[f := PosOf(positions, f) + |a| + |b|],
             [Count(|a|, []), Count(|b|, [])])
  {
    WriteAgain(s, PosOf(positions, f), a, b);
    hide *;
    AfterTwo(s, positions, Call(f, Write(a), Fine), Call(f, Write(b), Fine));
    AfterOne(s, positions, Call(f, Write(a + b), Fine));
  }

  lemma ReadAgain(s: Stored, pos: nat, m: nat, n: nat) returns (a: seq<bv8>, b: seq<bv8>)
    requires Sound(s) && InFile(pos)
    ensures var (s1, pos1, r1) := Step(s, pos, Read(m), Fine);
            && s1 == s && InFile(pos1) && r1 == Count(|a|, a)
            && Step(s, pos1, Read(n), Fine) == (s, Step(s, pos, Read(m + n), Fine).1, Count(|b|, b))
    ensures Step(s, pos, Read(m + n), Fine) == (s, Step(s, pos, Read(m + n), Fine).1, Count(|a| + |b|, a + b))
  {
    hide Step, Plain;
    ReadOnce(s, pos, m);
    ReadOnce(s, pos, m + n);
    var pos1, pos2 := Step(s, pos, Read(m), Fine).1, Step(s, pos, Read(m + n), Fine).1;
    ReadOnce(s, pos1, n);
    a, b := Step(s, pos, Read(m), Fine).2.out, Step(s, pos1, Read(n), Fine).2.out;
    if pos1 < s.size {
      assert Plain(s)[pos..pos1] + Plain(s)[pos1..pos2] == Plain(s)[pos..pos2];
    } else {
      assert a + [] == a;
    }
  }

  /** Two reads through one file hand out, one after the other, what one read of both lengths does, and
      leave the file where that leaves it. */
  lemma ReadsJoin(s: Stored, positions: map<nat, nat>, f: nat, m: nat, n: nat) returns (a: seq<bv8>, b: seq<bv8>)
    requires Sound(s) && AllInFile(positions)
    ensures var after := Run(s, positions, [Call(f, Read(m + n), Fine)]).1;
            && Run(s, positions, [Call(f, Read(m + n), Fine)]) == (s, after, [Count(|a| + |b|, a + b)])
            && Run(s, positions, [Call(f, Read(m), Fine), Call(f, Read(n), Fine)]) ==
               (s, after, [Count(|a|, a), Count(|b|, b)])
  {
    a, b := ReadAgain(s, PosOf(positions, f), m, n);
    hide *;
    AfterTwo(s, positions, Call(f, Read(m), Fine), Call(f, Read(n), Fine));
    AfterOne(s, positions, Call(f, Read(m + n), Fine));
  }

  lemma ReadOnce(s: Stored, pos: nat, n: nat)
    requires Sound(s) && InFile(pos)
    ensures Step(s, pos, Read(n), Fine) ==
            if pos >= s.size then (s, pos, Count(0, []))
            else var k := if n <= s.size - pos then n else s.size - pos; (s, pos + k, Count(k, Plain(s)[pos..pos + k]))
  {
    StepRefines(s, pos, Read(n), Fine);
    hide Plain, Crypt;
  }

  // ---------------------------------------------------------------- holes

  /** On a new device, through a file just opened: what is written at `k` is read back behind `k` bytes
      0x5A that nobody wrote; and it is read from the start through any other file just opened. */
  lemma HolesRead(f: nat, g: nat, k: nat, data: seq<bv8>)
    requires k + |data| <= 10485760 && f != g
    ensures Run(Fresh(), map[],
                [Call(f, Seek(k, 0), Fine), Call(f, Write(data), Fine), Call(g, Read(k + |data|), Fine)]).2 ==
            [At(k), Count(|data|, []), Count(k + |data|, seq(k, _ => 0x5A) + data)]
  {
    var c1, c2, c3 := Call(f, Seek(k, 0), Fine), Call(f, Write(data), Fine), Call(g, Read(k + |data|), Fine);
    var calls := [c1, c2, c3];
    RunRefines(Fresh(), map[], calls);
    PlainThree([], map[], c1, c2, c3);
    hide Run, Fresh, Plain;
    var file := Overwrite([], k, data);
    var want := seq(k, _ => 0x5A) + data;
    assert file == want;
    assert file[0..k + |data|] == file;
  }

  lemma PlainThree(file: seq<bv8>, positions: map<nat, nat>, c1: Call, c2: Call, c3: Call)
    ensures var (file1, pos1, r1) := PlainStep(file, PosOf(positions, c1.file), c1.op, c1.env);
            var positions1 := positions[c1.file := pos1];
            var (file2, pos2, r2) := PlainStep(file1, PosOf(positions1, c2.file), c2.op, c2.env);
            var positions2 := positions1[c2.file := pos2];
            var (file3, pos3, r3) := PlainStep(file2, PosOf(positions2, c3.file), c3.op, c3.env);
            PlainRun(file, positions, [c1, c2, c3]).2 == [r1, r2, r3]
  {
    hide PlainStep;
    assert [c1, c2, c3][1..] == [c2, c3] && [c2, c3][1..] == [c3] && [c3][1..] == [];
    var (file1, pos1, r1) := PlainStep(file, PosOf(positions, c1.file), c1.op, c1.env);
    var positions1 := positions[c1.file := pos1];
    var (file2, pos2, r2) := PlainStep(file1, PosOf(positions1, c2.file), c2.op, c2.env);
    var (file3, pos3, r3) := PlainStep(file2, PosOf(positions1[c2.file := pos2], c3.file), c3.op, c3.env);
    assert PlainRun(file2, positions1[c2.file := pos2], [c3]).2 == [r3];
    assert PlainRun(file1, positions1, [c2, c3]).2 == [r2] + [r3] == [r2, r3];
    assert [r1] + [r2, r3] == [r1, r2, r3];
  }
}
