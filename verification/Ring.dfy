/** The live window of a ring buffer, shared by all four rings, and the bounded queue it stands for. */
module Ring {
  datatype Option<+T> = None | Some(value: T)

  /** The index `i` brought back into a ring of `n` slots by at most one lap. */
  function Wrap(i: nat, n: nat): (r: nat)
    requires i < 2 * n
    ensures r < n
  {
    if i < n then i else i - n
  }

  /** The slots from `tail` on, `len` of them, in order. */
  function Window<T>(slots: seq<T>, tail: nat, len: nat): (w: seq<T>)
    requires tail < |slots| && len <= |slots|
    ensures |w| == len
    ensures forall i | 0 <= i < len :: w[i] == slots[Wrap(tail + i, |slots|)]
  {
    seq(len, i requires 0 <= i < len => slots[Wrap(tail + i, |slots|)])
  }

  /** The slot `i` is one of those. */
  predicate Live(i: nat, tail: nat, len: nat, n: nat)
    requires i < n && tail < n
  {
    (if i >= tail then i - tail else i + n - tail) < len
  }

  /** `%` takes an index that is at most one lap ahead back into the ring. */
  lemma WrapIsModulo(i: nat, n: nat)
    requires i < 2 * n
    ensures i % n == Wrap(i, n)
  {
    if i >= n { assert i == n + (i - n) && (i - n) / n == 0; }
  }

  /** Counting slots from the tail on, modulo the capacity, the live ones are the first `len`. */
  lemma LiveIs(k: nat, tail: nat, len: nat, n: nat)
    requires k < n && tail < n && len <= n
    ensures Live((tail + k) % n, tail, len, n) <==> k < len
  {
    WrapIsModulo(tail + k, n);
  }

  /** Filling the slot after the window appends to it. */
  lemma WindowPush<T>(slots: seq<T>, tail: nat, len: nat, x: T)
    requires tail < |slots| && len < |slots|
    ensures Window(slots[Wrap(tail + len, |slots|) := x], tail, len + 1) == Window(slots, tail, len) + [x]
  {
    var slots' := slots[Wrap(tail + len, |slots|) := x];
    forall i | 0 <= i < len ensures Window(slots', tail, len + 1)[i] == Window(slots, tail, len)[i] {
    }
  }

  lemma LivePush(tail: nat, len: nat, n: nat)
    requires tail < n && len < n
    ensures forall i | 0 <= i < n :: Live(i, tail, len + 1, n) <==> Live(i, tail, len, n) || i == Wrap(tail + len, n)
  {
    forall i | 0 <= i < n
      ensures Live(i, tail, len + 1, n) <==> Live(i, tail, len, n) || i == Wrap(tail + len, n)
    {
    }
  }

  /** Moving the tail on removes the oldest element, whatever is then put in its slot. */
  lemma WindowPop<T>(slots: seq<T>, tail: nat, len: nat, x: T)
    requires tail < |slots| && 0 < len <= |slots|
    ensures Window(slots, tail, len)[0] == slots[tail]
    ensures Window(slots[tail := x], Wrap(tail + 1, |slots|), len - 1) == Window(slots, tail, len)[1..]
    ensures Wrap(tail + len, |slots|) == Wrap(Wrap(tail + 1, |slots|) + (len - 1), |slots|)
  {
    var n, t := |slots|, Wrap(tail + 1, |slots|);
    assert Wrap(tail + 0, n) == tail;
    var before, after := Window(slots, tail, len)[1..], Window(slots[tail := x], t, len - 1);
    forall i | 0 <= i < len - 1 ensures after[i] == before[i] {
      assert Wrap(t + i, n) == Wrap(tail + (i + 1), n) != tail;
    }
  }

  lemma LivePop(tail: nat, len: nat, n: nat)
    requires tail < n && 0 < len <= n
    ensures forall i | 0 <= i < n :: Live(i, Wrap(tail + 1, n), len - 1, n) <==> Live(i, tail, len, n) && i != tail
  {
    forall i | 0 <= i < n
      ensures Live(i, Wrap(tail + 1, n), len - 1, n) <==> Live(i, tail, len, n) && i != tail
    {
    }
  }

  /** If exactly the live slots are filled, everything the window shows is there. */
  lemma WindowFilled<T>(slots: seq<Option<T>>, tail: nat, len: nat)
    requires tail < |slots| && len <= |slots|
    requires forall i | 0 <= i < |slots| :: slots[i].Some? <==> Live(i, tail, len, |slots|)
    ensures forall i | 0 <= i < len :: Window(slots, tail, len)[i].Some?
  {
    forall i | 0 <= i < len ensures Window(slots, tail, len)[i].Some? {
      assert Live(Wrap(tail + i, |slots|), tail, len, |slots|);
    }
  }

  // ---------------------------------------------------------------- the queue

  /** A FIFO queue that holds at most `capacity` items. */
  datatype Queue<T> = Queue(capacity: nat, items: seq<T>)
  {
    function Push(x: T): (bool, Queue<T>) {
      if |items| == capacity then (false, this) else (true, this.(items := items + [x]))
    }

    function Pop(): (Option<T>, Queue<T>) {
      if items == [] then (None, this) else (Some(items[0]), this.(items := items[1..]))
    }
  }
}
