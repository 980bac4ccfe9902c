/**
  Overlapping writes to the encrypted buffer. The driver takes no lock, so the encrypting loops and
  the updates of the high-water mark of several writes interleave: when is that as good as a plain file?
  (`{:induction false}` also stands on lemmas that do not recurse where Dafny would try an induction.)
 */
module CryptoRaces {
  import opened CryptoFile
  import opened Numbers

  /** A write that has passed its guard and holds its data; its offset is its own while it runs. */
  datatype Job = Job(pos: nat, data: seq<bv8>)

  function End(j: Job): nat {
    j.pos + |j.data|
  }

  /** Where it is: at byte `i` of the loop, past it (`i == |data|`) and about to look at the mark,
      about to raise the mark, or done. */
  datatype Pc = Encrypting(i: nat) | Raising | Finished

  datatype System = System(stored: Stored, pcs: seq<Pc>)

  predicate Ok(jobs: seq<Job>, sys: System) {
    && |sys.pcs| == |jobs| && |sys.stored.bytes| == BUFFER_SIZE
    && (forall t | 0 <= t < |jobs| :: End(jobs[t]) <= BUFFER_SIZE)
    && (forall t | 0 <= t < |jobs| :: sys.pcs[t].Encrypting? ==> sys.pcs[t].i <= |jobs[t].data|)
  }

  /** The next step of write `t`: one byte, the test of line 191, or the assignment of line 192. */
  function Next(jobs: seq<Job>, sys: System, t: nat): (r: System)
    requires Ok(jobs, sys) && t < |jobs|
    ensures Ok(jobs, r)
  {
    var j, Stored(bytes, size) := jobs[t], sys.stored;
    match sys.pcs[t]
    case Encrypting(i) =>
      if i < |j.data|
      then System(Stored(bytes[j.pos + i := j.data[i] ^ XOR_KEY], size), sys.pcs[t := Encrypting(i + 1)])
      else System(sys.stored, sys.pcs[t := if End(j) > size then Raising else Finished])
    case Raising => System(Stored(bytes, End(j)), sys.pcs[t := Finished])
    case Finished => sys
  }

  predicate Names(schedule: seq<nat>, n: nat) {
    forall i | 0 <= i < |schedule| :: schedule[i] < n
  }

  function Exec(jobs: seq<Job>, sys: System, schedule: seq<nat>): (r: System)
    requires Ok(jobs, sys) && Names(schedule, |jobs|)
    ensures Ok(jobs, r)
    decreases schedule
  {
    if schedule == [] then sys else Exec(jobs, Next(jobs, sys, schedule[0]), schedule[1..])
  }

  lemma {:induction false} ExecConcat(jobs: seq<Job>, sys: System, s: seq<nat>, u: seq<nat>)
    requires Ok(jobs, sys) && Names(s, |jobs|) && Names(u, |jobs|)
    ensures Exec(jobs, sys, s + u) == Exec(jobs, Exec(jobs, sys, s), u)
    decreases s
  {
    if s == [] {
      assert s + u == u;
    } else {
      assert (s + u)[1..] == s[1..] + u;
      ExecConcat(jobs, Next(jobs, sys, s[0]), s[1..], u);
    }
  }

  // ---------------------------------------------------------------- uninterrupted stretches

  /** What a write puts into the cell `k`. */
  function Cipher(j: Job, k: nat): bv8
    requires j.pos <= k < End(j)
  {
    j.data[k - j.pos] ^ XOR_KEY
  }

  /** The buffer with the bytes of a write from `lo` to `hi` in it. */
  function Cells(bytes: seq<bv8>, j: Job, lo: nat, hi: nat): (r: seq<bv8>)
    requires lo <= hi <= |j.data|
    ensures |r| == |bytes|
  {
    seq(|bytes|, k requires 0 <= k < |bytes| =>
      if j.pos + lo <= k < j.pos + hi then Cipher(j, k) else bytes[k])
  }

  function Turns(t: nat, n: nat): (r: seq<nat>)
    ensures |r| == n && forall i | 0 <= i < n :: r[i] == t
  {
    if n == 0 then [] else [t] + Turns(t, n - 1)
  }

  lemma {:induction false} Advance(jobs: seq<Job>, sys: System, t: nat, n: nat)
    requires Ok(jobs, sys) && t < |jobs| && sys.pcs[t].Encrypting? && sys.pcs[t].i + n <= |jobs[t].data|
    ensures var i := sys.pcs[t].i;
            Exec(jobs, sys, Turns(t, n)) ==
            System(Stored(Cells(sys.stored.bytes, jobs[t], i, i + n), sys.stored.size), sys.pcs[t := Encrypting(i + n)])
    decreases n
  {
    var i, bytes := sys.pcs[t].i, sys.stored.bytes;
    if n == 0 {
      assert Cells(bytes, jobs[t], i, i) == bytes;
    } else {
      var later := Next(jobs, sys, t);
      Advance(jobs, later, t, n - 1);
      assert Turns(t, n)[1..] == Turns(t, n - 1);
      assert Cells(later.stored.bytes, jobs[t], i + 1, i + n) == Cells(bytes, jobs[t], i, i + n);
    }
  }

  /** What a write leaves that nothing interrupts. */
  function Written(s: Stored, j: Job): Stored {
    Stored(Cells(s.bytes, j, 0, |j.data|), Max(s.size, End(j)))
  }

  lemma {:induction false} LastTurns(jobs: seq<Job>, sys: System, t: nat)
    requires Ok(jobs, sys) && t < |jobs| && sys.pcs[t] == Encrypting(|jobs[t].data|)
    ensures Exec(jobs, sys, Turns(t, 2)) ==
            System(Stored(sys.stored.bytes, Max(sys.stored.size, End(jobs[t]))), sys.pcs[t := Finished])
  {
    var one := Next(jobs, sys, t);
    assert Turns(t, 2)[1..] == [t] == Turns(t, 1) && Turns(t, 1)[1..] == [];
    assert Exec(jobs, sys, Turns(t, 2)) == Exec(jobs, one, [t]) == Next(jobs, one, t);
    assert one.pcs[t := Finished] == sys.pcs[t := Finished];
  }

  /** A write whose remaining steps come in one stretch. */
  lemma {:induction false} Finish(jobs: seq<Job>, sys: System, t: nat)
    requires Ok(jobs, sys) && t < |jobs| && sys.pcs[t].Encrypting?
    ensures var i := sys.pcs[t].i;
            Exec(jobs, sys, Turns(t, |jobs[t].data| - i) + Turns(t, 2)) ==
            System(Stored(Cells(sys.stored.bytes, jobs[t], i, |jobs[t].data|), Max(sys.stored.size, End(jobs[t]))),
                   sys.pcs[t := Finished])
  {
    var n := |jobs[t].data| - sys.pcs[t].i;
    ExecConcat(jobs, sys, Turns(t, n), Turns(t, 2));
    Advance(jobs, sys, t, n);
    LastTurns(jobs, Exec(jobs, sys, Turns(t, n)), t);
    assert sys.pcs[t := Encrypting(|jobs[t].data|)][t := Finished] == sys.pcs[t := Finished];
  }

  // ---------------------------------------------------------------- no two writes overlap

  /** All steps of a write. */
  function Whole(jobs: seq<Job>, t: nat): (r: seq<nat>)
    requires t < |jobs|
    ensures Names(r, |jobs|)
  {
    Turns(t, |jobs[t].data|) + Turns(t, 2)
  }

  /** Each write of `order` runs from its first step to its last before the next one begins. */
  function OneByOne(jobs: seq<Job>, order: seq<nat>): (r: seq<nat>)
    requires Names(order, |jobs|)
    ensures Names(r, |jobs|)
  {
    if order == [] then []
    else
      var t := order[0];
      Whole(jobs, t) + OneByOne(jobs, order[1..])
  }

  /** The same writes on a plain file. */
  function OnPlainFile(file: seq<bv8>, jobs: seq<Job>, order: seq<nat>): seq<bv8>
    requires Names(order, |jobs|)
    decreases order
  {
    if order == [] then file
    else OnPlainFile(Overwrite(file, jobs[order[0]].pos, jobs[order[0]].data), jobs, order[1..])
  }

  /** The small steps of one write add up to the call of `CryptoFile`. */
  lemma WrittenIsStep(s: Stored, j: Job)
    requires Sound(s) && End(j) <= BUFFER_SIZE
    ensures Written(s, j) == CryptoFile.Step(s, j.pos, Write(j.data), Fine).0
    ensures Sound(Written(s, j)) && Plain(Written(s, j)) == Overwrite(Plain(s), j.pos, j.data)
  {
    hide Plain, Overwrite;
    assert s.bytes[..j.pos] + Crypt(j.data) + s.bytes[End(j)..] == Cells(s.bytes, j, 0, |j.data|);
    assert !TooBig(j.pos, |j.data|);
    WriteSound(s, j.pos, j.data);
  }

  /** Writes that do not overlap are writes on the plain file, in their order. */
  lemma {:induction false} WithoutOverlap(jobs: seq<Job>, sys: System, order: seq<nat>)
    requires Ok(jobs, sys) && Sound(sys.stored) && Names(order, |jobs|)
    requires forall k | 0 <= k < |order| :: sys.pcs[order[k]] == Encrypting(0)
    requires forall k, l | 0 <= k < l < |order| :: order[k] != order[l]
    ensures var end := Exec(jobs, sys, OneByOne(jobs, order)).stored;
            Sound(end) && Plain(end) == OnPlainFile(Plain(sys.stored), jobs, order)
    decreases order
  {
    hide Plain, Overwrite, Sound, Cells;
    if order != [] {
      var t := order[0];
      Finish(jobs, sys, t);
      WrittenIsStep(sys.stored, jobs[t]);
      ExecConcat(jobs, sys, Whole(jobs, t), OneByOne(jobs, order[1..]));
      WithoutOverlap(jobs, System(Written(sys.stored, jobs[t]), sys.pcs[t := Finished]), order[1..]);
    }
  }

  // ---------------------------------------------------------------- the high-water mark

  function Start(s: Stored, n: nat): (sys: System)
    ensures |sys.pcs| == n && forall t | 0 <= t < n :: sys.pcs[t] == Encrypting(0)
  {
    System(s, seq(n, _ => Encrypting(0)))
  }

  /** Every write that is done lies below the mark, so that it can be read back. */
  predicate Covered(jobs: seq<Job>, sys: System)
    requires Ok(jobs, sys)
  {
    forall t | 0 <= t < |jobs| && sys.pcs[t].Finished? :: End(jobs[t]) <= sys.stored.size
  }

  /** All writes that go past the mark `size` end at the same place. */
  predicate OneEnd(jobs: seq<Job>, size: nat) {
    forall t, u | 0 <= t < |jobs| && 0 <= u < |jobs| && End(jobs[t]) > size && End(jobs[u]) > size ::
      End(jobs[t]) == End(jobs[u])
  }

  predicate MarkOk(jobs: seq<Job>, size: nat, most: nat, sys: System)
    requires Ok(jobs, sys)
  {
    && size <= sys.stored.size <= most && Covered(jobs, sys)
    && forall t | 0 <= t < |jobs| && sys.pcs[t].Raising? :: End(jobs[t]) > size
  }

  lemma {:induction false} MarkKept(jobs: seq<Job>, size: nat, most: nat, sys: System, schedule: seq<nat>)
    requires Ok(jobs, sys) && Names(schedule, |jobs|) && OneEnd(jobs, size) && MarkOk(jobs, size, most, sys)
    requires forall t | 0 <= t < |jobs| :: End(jobs[t]) <= most
    ensures MarkOk(jobs, size, most, Exec(jobs, sys, schedule))
    decreases schedule
  {
    if schedule != [] {
      MarkKept(jobs, size, most, Next(jobs, sys, schedule[0]), schedule[1..]);
    }
  }

  /** Write `t` writes its bytes and finds the mark too low. */
  lemma {:induction false} Waits(jobs: seq<Job>, sys: System, t: nat)
    requires Ok(jobs, sys) && t < |jobs| && sys.pcs[t] == Encrypting(0) && sys.stored.size < End(jobs[t])
    ensures var waiting := Exec(jobs, sys, Turns(t, |jobs[t].data|) + [t]);
            waiting.stored.size == sys.stored.size && waiting.pcs == sys.pcs[t := Raising]
  {
    hide Cells;
    ExecConcat(jobs, sys, Turns(t, |jobs[t].data|), [t]);
    Advance(jobs, sys, t, |jobs[t].data|);
    ExecOne(jobs, Exec(jobs, sys, Turns(t, |jobs[t].data|)), t);
  }

  lemma {:induction false} ExecOne(jobs: seq<Job>, sys: System, t: nat)
    requires Ok(jobs, sys) && t < |jobs|
    ensures Exec(jobs, sys, [t]) == Next(jobs, sys, t)
  {
    assert [t][1..] == [];
  }

  /** Write `t` finds the mark too low, write `u` runs, and then `t` lowers the mark again. */
  function Overtaken(jobs: seq<Job>, t: nat, u: nat): (r: seq<nat>)
    requires t < |jobs| && u < |jobs|
    ensures Names(r, |jobs|)
  {
    Turns(t, |jobs[t].data|) + [t] + Whole(jobs, u) + [t]
  }

  lemma {:induction false} OvertakenLowers(jobs: seq<Job>, s: Stored, t: nat, u: nat)
    requires Ok(jobs, Start(s, |jobs|)) && t < |jobs| && u < |jobs|
    requires s.size < End(jobs[t]) < End(jobs[u])
    ensures var sys := Exec(jobs, Start(s, |jobs|), Overtaken(jobs, t, u));
            sys.stored.size == End(jobs[t]) && sys.pcs == Start(s, |jobs|).pcs[t := Finished][u := Finished]
  {
    hide Cells, Exec, Turns;
    var start := Start(s, |jobs|);
    var first := Turns(t, |jobs[t].data|) + [t];
    ExecConcat(jobs, start, first + Whole(jobs, u), [t]);
    ExecConcat(jobs, start, first, Whole(jobs, u));
    Waits(jobs, start, t);
    var waiting := Exec(jobs, start, first);
    Finish(jobs, waiting, u);
    var overtaken := Exec(jobs, waiting, Whole(jobs, u));
    assert overtaken.pcs == start.pcs[t := Raising][u := Finished];
    ExecOne(jobs, overtaken, t);
  }

  /** However many writes overlap: in every interleaving all that are done lie below the high-water
      mark exactly when the writes that go past the mark at the outset all end at the same place. */
  lemma {:induction false} MarkExact(jobs: seq<Job>, s: Stored)
    requires Ok(jobs, Start(s, |jobs|))
    ensures (forall schedule | Names(schedule, |jobs|) :: Covered(jobs, Exec(jobs, Start(s, |jobs|), schedule))) <==>
            OneEnd(jobs, s.size)
  {
    hide Exec, Turns;
    var start := Start(s, |jobs|);
    if OneEnd(jobs, s.size) {
      forall schedule | Names(schedule, |jobs|) ensures Covered(jobs, Exec(jobs, start, schedule)) {
        MarkKept(jobs, s.size, s.size + BUFFER_SIZE, start, schedule);
      }
    } else {
      var t, u :| 0 <= t < |jobs| && 0 <= u < |jobs| && s.size < End(jobs[t]) < End(jobs[u]);
      OvertakenLowers(jobs, s, t, u);
      assert !Covered(jobs, Exec(jobs, start, Overtaken(jobs, t, u)));
    }
  }

  // ---------------------------------------------------------------- two overlapping writes

  /** A cell that both writes fill, with different bytes. */
  predicate Conflict(a: Job, b: Job, k: nat) {
    a.pos <= k < End(a) && b.pos <= k < End(b) && a.data[k - a.pos] != b.data[k - b.pos]
  }

  ghost predicate AtMostOneConflict(a: Job, b: Job) {
    forall k, l | Conflict(a, b, k) && Conflict(a, b, l) :: k == l
  }

  predicate BothDone(sys: System) {
    |sys.pcs| == 2 && sys.pcs[0].Finished? && sys.pcs[1].Finished?
  }

  predicate InSomeOrder(s: Stored, a: Job, b: Job, end: Stored) {
    end == Written(Written(s, a), b) || end == Written(Written(s, b), a)
  }

  /** Whatever the interleaving, the two writes leave what they leave one after the other. */
  ghost predicate Serializable(s: Stored, a: Job, b: Job)
    requires Ok([a, b], Start(s, 2))
  {
    forall schedule | Names(schedule, 2) && BothDone(Exec([a, b], Start(s, 2), schedule)) ::
      InSomeOrder(s, a, b, Exec([a, b], Start(s, 2), schedule).stored)
  }

  /** How many bytes of a write are in the buffer. */
  function Filled(j: Job, pc: Pc): nat {
    if pc.Encrypting? then pc.i else |j.data|
  }

  /** The cell `k` holds what the writes that have reached it put there, and `old` before. */
  predicate CellOk(a: Job, m: nat, b: Job, n: nat, k: nat, before: bv8, cell: bv8)
    requires m <= |a.data| && n <= |b.data|
  {
    var byA, byB := a.pos <= k < a.pos + m, b.pos <= k < b.pos + n;
    if byA || byB
    then (byA && cell == Cipher(a, k)) || (byB && cell == Cipher(b, k))
    else cell == before
  }

  predicate Mixed(s: Stored, a: Job, b: Job, sys: System)
    requires Ok([a, b], sys) && |s.bytes| == BUFFER_SIZE
  {
    var m, n := Filled(a, sys.pcs[0]), Filled(b, sys.pcs[1]);
    && m <= |[a, b][0].data| && n <= |[a, b][1].data|
    && forall k | 0 <= k < BUFFER_SIZE :: CellOk(a, m, b, n, k, s.bytes[k], sys.stored.bytes[k])
  }

  lemma MixedNext(s: Stored, a: Job, b: Job, sys: System, t: nat)
    requires Ok([a, b], sys) && |s.bytes| == BUFFER_SIZE && Mixed(s, a, b, sys) && t < 2
    ensures Mixed(s, a, b, Next([a, b], sys, t))
  {
    var m, n := Filled(a, sys.pcs[0]), Filled(b, sys.pcs[1]);
    var later := Next([a, b], sys, t);
    var m', n' := Filled(a, later.pcs[0]), Filled(b, later.pcs[1]);
    assert t == 0 ==> n' == n && m <= m' <= m + 1;
    assert t == 1 ==> m' == m && n <= n' <= n + 1;
    forall k | 0 <= k < BUFFER_SIZE ensures CellOk(a, m', b, n', k, s.bytes[k], later.stored.bytes[k]) {
      assert CellOk(a, m, b, n, k, s.bytes[k], sys.stored.bytes[k]);
    }
  }

  lemma {:induction false} MixedKept(s: Stored, a: Job, b: Job, sys: System, schedule: seq<nat>)
    requires Ok([a, b], sys) && |s.bytes| == BUFFER_SIZE && Mixed(s, a, b, sys) && Names(schedule, 2)
    ensures Mixed(s, a, b, Exec([a, b], sys, schedule))
    decreases schedule
  {
    hide Mixed, Next;
    if schedule != [] {
      MixedNext(s, a, b, sys, schedule[0]);
      MixedKept(s, a, b, Next([a, b], sys, schedule[0]), schedule[1..]);
    }
  }

  lemma CipherEqual(a: Job, b: Job, k: nat)
    ensures a.pos <= k < End(a) && b.pos <= k < End(b) ==> (Conflict(a, b, k) <==> Cipher(a, k) != Cipher(b, k))
    ensures Conflict(a, b, k) ==> a.pos <= k < End(a) && b.pos <= k < End(b)
  {
    if a.pos <= k < End(a) && b.pos <= k < End(b) {
      var x, y := a.data[k - a.pos], b.data[k - b.pos];
      assert x ^ XOR_KEY ^ XOR_KEY == x && y ^ XOR_KEY ^ XOR_KEY == y;
    }
  }

  /** With at most one conflict, whoever wins that cell can be taken to be the later one. */
  lemma MixedInOrder(s: Stored, a: Job, b: Job, end: seq<bv8>)
    requires |s.bytes| == |end| == BUFFER_SIZE && AtMostOneConflict(a, b)
    requires forall k | 0 <= k < BUFFER_SIZE :: CellOk(a, |a.data|, b, |b.data|, k, s.bytes[k], end[k])
    ensures end == Written(Written(s, a), b).bytes || end == Written(Written(s, b), a).bytes
  {
    hide Cipher;
    if k :| 0 <= k < BUFFER_SIZE && Conflict(a, b, k) && end[k] == Cipher(a, k) {
      var other := Written(Written(s, b), a).bytes;
      forall j | 0 <= j < BUFFER_SIZE ensures end[j] == other[j] {
        assert CellOk(a, |a.data|, b, |b.data|, j, s.bytes[j], end[j]);
        CipherEqual(a, b, j);
        assert Conflict(a, b, j) ==> j == k;
      }
    } else {
      var other := Written(Written(s, a), b).bytes;
      forall j | 0 <= j < BUFFER_SIZE ensures end[j] == other[j] {
        assert CellOk(a, |a.data|, b, |b.data|, j, s.bytes[j], end[j]);
        CipherEqual(a, b, j);
      }
    }
  }

  /** Write b gets as far as the cell `k`, write a runs, and then b goes on. */
  function Torn(a: Job, b: Job, k: nat): (r: seq<nat>)
    requires b.pos <= k < End(b)
    ensures Names(r, 2)
  {
    Turns(1, k + 1 - b.pos) + Whole([a, b], 0) + (Turns(1, |b.data| - (k + 1 - b.pos)) + Turns(1, 2))
  }

  lemma TornMixes(s: Stored, a: Job, b: Job, k: nat)
    requires Ok([a, b], Start(s, 2)) && b.pos <= k < End(b)
    ensures var sys := Exec([a, b], Start(s, 2), Torn(a, b, k));
            var m := k + 1 - b.pos;
            && BothDone(sys)
            && sys.stored.bytes == Cells(Cells(Cells(s.bytes, b, 0, m), a, 0, |a.data|), b, m, |b.data|)
  {
    hide Cells, Exec, Turns;
    var jobs, start, m := [a, b], Start(s, 2), k + 1 - b.pos;
    var last := Turns(1, |b.data| - m) + Turns(1, 2);
    ExecConcat(jobs, start, Turns(1, m) + Whole(jobs, 0), last);
    ExecConcat(jobs, start, Turns(1, m), Whole(jobs, 0));
    Advance(jobs, start, 1, m);
    var stopped := Exec(jobs, start, Turns(1, m));
    Finish(jobs, stopped, 0);
    Finish(jobs, Exec(jobs, stopped, Whole(jobs, 0)), 1);
  }

  lemma CellAt(bytes: seq<bv8>, j: Job, lo: nat, hi: nat, k: nat)
    requires lo <= hi <= |j.data| && k < |bytes|
    ensures Cells(bytes, j, lo, hi)[k] == if j.pos + lo <= k < j.pos + hi then Cipher(j, k) else bytes[k]
  {
  }

  /** With two conflicts the first can go to one write and the second to the other. */
  lemma TornIsNoOrder(s: Stored, a: Job, b: Job, k: nat, l: nat)
    requires |s.bytes| == BUFFER_SIZE && End(a) <= BUFFER_SIZE && End(b) <= BUFFER_SIZE
    requires k < l && Conflict(a, b, k) && Conflict(a, b, l)
    ensures var m := k + 1 - b.pos;
            var bytes := Cells(Cells(Cells(s.bytes, b, 0, m), a, 0, |a.data|), b, m, |b.data|);
            bytes != Written(Written(s, a), b).bytes && bytes != Written(Written(s, b), a).bytes
  {
    hide Cells, Cipher, Conflict;
    CipherEqual(a, b, k);
    CipherEqual(a, b, l);
    var m := k + 1 - b.pos;
    var start := Cells(s.bytes, b, 0, m);
    var middle := Cells(start, a, 0, |a.data|);
    CellAt(start, a, 0, |a.data|, k);
    CellAt(middle, b, m, |b.data|, k);
    CellAt(middle, b, m, |b.data|, l);
    CellAt(Written(s, a).bytes, b, 0, |b.data|, k);
    CellAt(Written(s, b).bytes, a, 0, |a.data|, l);
  }

  lemma {:induction false} SafeIsSerializable(s: Stored, a: Job, b: Job, schedule: seq<nat>)
    requires Ok([a, b], Start(s, 2)) && OneEnd([a, b], s.size) && AtMostOneConflict(a, b)
    requires Names(schedule, 2) && BothDone(Exec([a, b], Start(s, 2), schedule))
    ensures InSomeOrder(s, a, b, Exec([a, b], Start(s, 2), schedule).stored)
  {
    hide Cells, Exec;
    var jobs, start := [a, b], Start(s, 2);
    var end := Exec(jobs, start, schedule);
    MarkKept(jobs, s.size, Max(s.size, Max(End(a), End(b))), start, schedule);
    MixedKept(s, a, b, start, schedule);
    assert End(jobs[0]) <= end.stored.size && End(jobs[1]) <= end.stored.size;
    MixedInOrder(s, a, b, end.stored.bytes);
  }

  /** Two overlapping writes are always as good as one after the other exactly when there is at most
      one cell they would fill differently, and they do not both go past the mark to different places. */
  lemma OverlapExact(s: Stored, a: Job, b: Job)
    requires Ok([a, b], Start(s, 2))
    ensures Serializable(s, a, b) <==> AtMostOneConflict(a, b) && OneEnd([a, b], s.size)
  {
    hide Cells, Exec, Turns;
    var jobs := [a, b];
    if AtMostOneConflict(a, b) && OneEnd(jobs, s.size) {
      forall schedule | Names(schedule, 2) && BothDone(Exec(jobs, Start(s, 2), schedule))
        ensures InSomeOrder(s, a, b, Exec(jobs, Start(s, 2), schedule).stored)
      {
        SafeIsSerializable(s, a, b, schedule);
      }
    } else if !OneEnd(jobs, s.size) {
      var t := if End(a) < End(b) then 0 else 1;
      OvertakenLowers(jobs, s, t, 1 - t);
      assert !InSomeOrder(s, a, b, Exec(jobs, Start(s, 2), Overtaken(jobs, t, 1 - t)).stored);
    } else {
      var k, l :| k < l && Conflict(a, b, k) && Conflict(a, b, l);
      TornMixes(s, a, b, k);
      TornIsNoOrder(s, a, b, k, l);
      assert !InSomeOrder(s, a, b, Exec(jobs, Start(s, 2), Torn(a, b, k)).stored);
    }
  }

  // ---------------------------------------------------------------- any number of overlapping writes

  predicate AllDone(sys: System) {
    forall t | 0 <= t < |sys.pcs| :: sys.pcs[t].Finished?
  }

  /** The writes one after the other, in some order. */
  function OneAfterAnother(s: Stored, jobs: seq<Job>, order: seq<nat>): (r: Stored)
    requires Names(order, |jobs|)
    ensures |r.bytes| == |s.bytes|
    decreases order
  {
    if order == [] then s else OneAfterAnother(Written(s, jobs[order[0]]), jobs, order[1..])
  }

  ghost predicate NoConflicts(jobs: seq<Job>) {
    forall t, u, k | 0 <= t < |jobs| && 0 <= u < |jobs| :: !Conflict(jobs[t], jobs[u], k)
  }

  /** The first `m` bytes of the write include the cell `k`. */
  predicate Reaches(j: Job, m: nat, k: nat) {
    j.pos <= k < j.pos + m && m <= |j.data|
  }

  predicate Reached(jobs: seq<Job>, sys: System, t: nat, k: nat)
    requires Ok(jobs, sys) && t < |jobs|
  {
    Reaches(jobs[t], Filled(jobs[t], sys.pcs[t]), k)
  }

  /** A cell holds what all writes that have reached it agree on, or what it held before. */
  predicate Agreed(s: Stored, jobs: seq<Job>, sys: System, k: nat)
    requires Ok(jobs, sys) && |s.bytes| == BUFFER_SIZE && k < BUFFER_SIZE
  {
    && (forall t | 0 <= t < |jobs| && Reached(jobs, sys, t, k) :: sys.stored.bytes[k] == Cipher(jobs[t], k))
    && ((forall t | 0 <= t < |jobs| :: !Reached(jobs, sys, t, k)) ==> sys.stored.bytes[k] == s.bytes[k])
  }

  lemma AgreedNext(s: Stored, jobs: seq<Job>, sys: System, u: nat, k: nat)
    requires Ok(jobs, sys) && |s.bytes| == BUFFER_SIZE && k < BUFFER_SIZE && u < |jobs|
    requires NoConflicts(jobs) && Agreed(s, jobs, sys, k)
    ensures Agreed(s, jobs, Next(jobs, sys, u), k)
  {
    hide Conflict;
    var next := Next(jobs, sys, u);
    forall t | 0 <= t < |jobs| ensures t != u ==> Reached(jobs, next, t, k) == Reached(jobs, sys, t, k) {
      assert t != u ==> next.pcs[t] == sys.pcs[t];
    }
    assert Reached(jobs, sys, u, k) ==> Reached(jobs, next, u, k);
    if Reached(jobs, next, u, k) && !Reached(jobs, sys, u, k) {
      assert next.stored.bytes[k] == Cipher(jobs[u], k);
      forall t | 0 <= t < |jobs| && Reached(jobs, next, t, k) ensures next.stored.bytes[k] == Cipher(jobs[t], k) {
        CipherEqual(jobs[t], jobs[u], k);
        assert !Conflict(jobs[t], jobs[u], k);
      }
    } else {
      assert next.stored.bytes[k] == sys.stored.bytes[k];
    }
  }

  lemma {:induction false} AgreedKept(s: Stored, jobs: seq<Job>, sys: System, schedule: seq<nat>, k: nat)
    requires Ok(jobs, sys) && |s.bytes| == BUFFER_SIZE && k < BUFFER_SIZE && Names(schedule, |jobs|)
    requires NoConflicts(jobs) && Agreed(s, jobs, sys, k)
    ensures Agreed(s, jobs, Exec(jobs, sys, schedule), k)
    decreases schedule
  {
    hide Agreed, NoConflicts, Next;
    if schedule != [] {
      AgreedNext(s, jobs, sys, schedule[0], k);
      AgreedKept(s, jobs, Next(jobs, sys, schedule[0]), schedule[1..], k);
    }
  }

  /** What a sequence of writes leaves in a cell, and the mark it leaves. */
  lemma {:induction false} OrderCell(s: Stored, jobs: seq<Job>, order: seq<nat>, k: nat)
    requires Names(order, |jobs|) && NoConflicts(jobs) && k < |s.bytes|
    ensures var r := OneAfterAnother(s, jobs, order);
            && (forall i | 0 <= i < |order| && Reaches(jobs[order[i]], |jobs[order[i]].data|, k) ::
                  r.bytes[k] == Cipher(jobs[order[i]], k))
            && ((forall i | 0 <= i < |order| :: !Reaches(jobs[order[i]], |jobs[order[i]].data|, k)) ==>
                  r.bytes[k] == s.bytes[k])
    decreases order
  {
    hide Cipher, Conflict;
    if order != [] {
      var j, later := jobs[order[0]], order[1..];
      OrderCell(Written(s, j), jobs, later, k);
      CellAt(s.bytes, j, 0, |j.data|, k);
      if Reaches(j, |j.data|, k) {
        forall i | 0 <= i < |later| && Reaches(jobs[later[i]], |jobs[later[i]].data|, k)
          ensures Cipher(jobs[later[i]], k) == Cipher(j, k)
        {
          CipherEqual(jobs[later[i]], j, k);
          assert !Conflict(jobs[later[i]], j, k);
        }
      }
      assert forall i | 1 <= i < |order| :: order[i] == later[i - 1];
    }
  }

  lemma {:induction false} OrderMark(s: Stored, jobs: seq<Job>, order: seq<nat>, most: nat)
    requires Names(order, |jobs|)
    ensures var mark := OneAfterAnother(s, jobs, order).size;
            && s.size <= mark && (forall i | 0 <= i < |order| :: End(jobs[order[i]]) <= mark)
            && (s.size <= most && (forall t | 0 <= t < |jobs| :: End(jobs[t]) <= most) ==> mark <= most)
    decreases order
  {
    if order != [] {
      OrderMark(Written(s, jobs[order[0]]), jobs, order[1..], most);
      assert forall i | 1 <= i < |order| :: order[i] == order[1..][i - 1];
    }
  }

  /** When all are done the two accounts of a cell meet. */
  lemma SameCell(s: Stored, jobs: seq<Job>, end: System, serial: Stored, order: seq<nat>, k: nat)
    requires Ok(jobs, end) && |s.bytes| == |serial.bytes| == BUFFER_SIZE && k < BUFFER_SIZE
    requires AllDone(end) && Agreed(s, jobs, end, k)
    requires Names(order, |jobs|) && forall t | 0 <= t < |jobs| :: t in order
    requires forall i | 0 <= i < |order| && Reaches(jobs[order[i]], |jobs[order[i]].data|, k) ::
               serial.bytes[k] == Cipher(jobs[order[i]], k)
    requires (forall i | 0 <= i < |order| :: !Reaches(jobs[order[i]], |jobs[order[i]].data|, k)) ==>
               serial.bytes[k] == s.bytes[k]
    ensures end.stored.bytes[k] == serial.bytes[k]
  {
    hide Cipher;
    if i :| 0 <= i < |order| && Reaches(jobs[order[i]], |jobs[order[i]].data|, k) {
      assert Reached(jobs, end, order[i], k);
    } else {
      forall t | 0 <= t < |jobs| ensures !Reached(jobs, end, t, k) {
        assert t in order;
        var i :| 0 <= i < |order| && order[i] == t;
      }
    }
  }

  /** However many writes overlap: if no two of them would fill a cell differently and those that go
      past the mark all end at the same place, every interleaving leaves what they leave one after
      another, in whatever order. */
  lemma {:induction false} ManyOverlap(s: Stored, jobs: seq<Job>, schedule: seq<nat>, order: seq<nat>)
    requires Ok(jobs, Start(s, |jobs|)) && NoConflicts(jobs) && OneEnd(jobs, s.size)
    requires Names(schedule, |jobs|) && AllDone(Exec(jobs, Start(s, |jobs|), schedule))
    requires Names(order, |jobs|) && forall t | 0 <= t < |jobs| :: t in order
    ensures Exec(jobs, Start(s, |jobs|), schedule).stored == OneAfterAnother(s, jobs, order)
  {
    hide Exec, OneAfterAnother, NoConflicts, OneEnd;
    var start := Start(s, |jobs|);
    var end, serial := Exec(jobs, start, schedule), OneAfterAnother(s, jobs, order);
    OrderMark(s, jobs, order, end.stored.size);
    forall t | 0 <= t < |jobs| ensures End(jobs[t]) <= serial.size {
      assert t in order;
      var i :| 0 <= i < |order| && order[i] == t;
    }
    MarkKept(jobs, s.size, serial.size, start, schedule);
    forall k | 0 <= k < BUFFER_SIZE ensures end.stored.bytes[k] == serial.bytes[k] {
      AgreedKept(s, jobs, start, schedule, k);
      OrderCell(s, jobs, order, k);
      SameCell(s, jobs, end, serial, order, k);
    }
  }
}
