/** The C, Python and Rust circular buffers, each against the bounded queue. */
module Rings {
  import opened Bits
  import opened Ring

  /** The masked step of all three: `(i + 1) & (n - 1)`. */
  function Next(i: nat, n: nat): nat
    requires n > 0
  {
    And(i + 1, n - 1)
  }

  lemma NextWraps(i: nat, n: nat)
    requires IsPow2(n) && i < n
    ensures Next(i, n) == Wrap(i + 1, n) == (i + 1) % n
  {
    CapacityCheck(n);
    MaskedStep(i, n);
    WrapIsModulo(i + 1, n);
  }

  // ---------------------------------------------------------------- C

  /** `circular_buffer`; the compile-time BUFFER_SIZE of 8 is any power of two here. */
  class CRing {
    const buffer: array<bv8>
    var head: nat
    var tail: nat
    var count: nat

    ghost predicate Valid()
      reads this
    {
      IsPow2(buffer.Length) && tail < buffer.Length && count <= buffer.Length
      && head == Wrap(tail + count, buffer.Length)
    }

    ghost function View(): Queue<bv8>
      requires Valid()
      reads this, buffer
    {
      Queue(buffer.Length, Window(buffer[..], tail, count))
    }

    constructor (size: nat)
      requires IsPow2(size)
      ensures fresh(buffer) && buffer.Length == size
    {
      buffer := new bv8[size];
    }

    /** `cb_init` */
    method Init()
      requires IsPow2(buffer.Length)
      modifies this
      ensures Valid() && View() == Queue(buffer.Length, [])
    {
      head, tail, count := 0, 0, 0;
    }

    /** `cb_push` */
    method Push(data: bv8) returns (ok: bool)
      requires Valid()
      modifies this, buffer
      ensures Valid() && (ok, View()) == old(View()).Push(data)
    {
      if count == buffer.Length {
        return false;
      }
      WindowPush(buffer[..], tail, count, data);
      NextWraps(head, buffer.Length);
      buffer[head] := data;
      head := Next(head, buffer.Length);
      count := count + 1;
      return true;
    }

    /** `cb_pop`; `data` is what `*data` holds afterwards, `before` what it held. */
    method Pop(before: bv8) returns (ok: bool, data: bv8)
      requires Valid()
      modifies this
      ensures Valid() && (if ok then Some(data) else None, View()) == old(View()).Pop()
      ensures !ok ==> data == before
    {
      if count == 0 {
        return false, before;
      }
      WindowPop(buffer[..], tail, count, buffer[tail]);
      assert buffer[..][tail := buffer[tail]] == buffer[..];
      NextWraps(tail, buffer.Length);
      data := buffer[tail];
      tail := Next(tail, buffer.Length);
      count := count - 1;
      return true, data;
    }
  }

  // ---------------------------------------------------------------- Python

  datatype PyObject = PyNone | PyBool(b: bool) | PyInt(n: int)

  /** `CircularBuffer` of Python; an unused slot holds None. */
  class PyRing {
    const capacity: int
    const buffer: array<PyObject>
    var head: nat
    var tail: nat
    var count: nat

    ghost predicate Valid()
      reads this, buffer
    {
      && IsPow2(capacity) && buffer.Length == capacity && tail < capacity && count <= capacity
      && head == Wrap(tail + count, capacity)
      && forall i | 0 <= i < capacity :: !Live(i, tail, count, capacity) ==> buffer[i] == PyNone
    }

    ghost function View(): Queue<PyObject>
      requires Valid()
      reads this, buffer
    {
      Queue(capacity, Window(buffer[..], tail, count))
    }

    constructor (capacity: nat)
      requires IsPow2(capacity)
      ensures Valid() && fresh(buffer) && View() == Queue(capacity, [])
    {
      this.capacity := capacity;
      buffer := new PyObject[capacity](_ => PyNone);
      head, tail, count := 0, 0, 0;
    }

    /** `CircularBuffer(capacity)`: null stands for the ValueError, raised for every integer that is
        not a power of two. */
    static method Create(capacity: int) returns (ring: PyRing?)
      ensures ring == null <==> !IsPow2(capacity)
      ensures ring != null ==> ring.Valid() && fresh(ring) && fresh(ring.buffer) && ring.View() == Queue(capacity, [])
    {
      if capacity > 0 { CapacityCheck(capacity); }
      if capacity <= 0 || And(capacity, capacity - 1) != 0 {
        return null;
      }
      ring := new PyRing(capacity);
    }

    method Push(item: PyObject) returns (ok: bool)
      requires Valid()
      modifies this, buffer
      ensures Valid() && (ok, View()) == old(View()).Push(item)
    {
      if count == capacity {
        return false;
      }
      WindowPush(buffer[..], tail, count, item);
      LivePush(tail, count, buffer.Length);
      NextWraps(head, capacity);
      buffer[head] := item;
      head := Next(head, capacity);
      count := count + 1;
      return true;
    }

    /** `pop` gives False when the ring is empty, so a caller that sees False knows only that the ring
        was empty or that False was its oldest item. */
    method Pop() returns (item: PyObject)
      requires Valid()
      modifies this, buffer
      ensures Valid() && View() == old(View()).Pop().1
      ensures old(View()).items != [] ==> Some(item) == old(View()).Pop().0
      ensures item == PyBool(false) <==> old(View()).items == [] || old(View()).items[0] == PyBool(false)
    {
      if count == 0 {
        return PyBool(false);
      }
      WindowPop(buffer[..], tail, count, PyNone);
      LivePop(tail, count, buffer.Length);
      NextWraps(tail, capacity);
      item := buffer[tail];
      buffer[tail] := PyNone;
      tail := Next(tail, capacity);
      count := count - 1;
    }

    /** The list `__str__` shows: the items, oldest first. */
    method Listing() returns (items: seq<PyObject>)
      requires Valid()
      ensures items == View().items
    {
      items := [];
      for i := 0 to count
        invariant items == Window(buffer[..], tail, count)[..i]
      {
        var k: nat :| capacity == Pow2(k);
        MaskIsModulo(tail + i, k);
        WrapIsModulo(tail + i, capacity);
        items := items + [buffer[And(tail + i, capacity - 1)]];
      }
    }
  }

  // ---------------------------------------------------------------- Rust

  datatype PushResult<T> = Ok | Err(item: T)

  class RustRing<T> {
    const buffer: array<Option<T>>
    var head: nat
    var tail: nat
    var count: nat

    /** Besides the indices: a slot holds `Some` exactly when it lies in the live window. */
    ghost predicate Valid()
      reads this, buffer
    {
      && IsPow2(buffer.Length) && tail < buffer.Length && count <= buffer.Length
      && head == Wrap(tail + count, buffer.Length)
      && forall i | 0 <= i < buffer.Length :: buffer[i].Some? <==> Live(i, tail, count, buffer.Length)
    }

    ghost function View(): Queue<T>
      requires Valid()
      reads this, buffer
    {
      WindowFilled(buffer[..], tail, count);
      Queue(buffer.Length, Values(Window(buffer[..], tail, count)))
    }

    constructor (n: nat)
      requires IsPow2(n)
      ensures Valid() && fresh(buffer) && View() == Queue(n, [])
    {
      buffer := new Option<T>[n](_ => None);
      head, tail, count := 0, 0, 0;
    }

    /** `new`: null stands for the panic of its assertion. */
    static method New(n: nat) returns (ring: RustRing?<T>)
      ensures ring == null <==> !IsPow2(n)
      ensures ring != null ==> ring.Valid() && fresh(ring) && fresh(ring.buffer) && ring.View() == Queue(n, [])
    {
      if n > 0 { CapacityCheck(n); }
      if !(n > 0 && And(n, n - 1) == 0) {
        return null;
      }
      ring := new RustRing(n);
    }

    method Push(item: T) returns (r: PushResult<T>)
      requires Valid()
      modifies this, buffer
      ensures Valid() && (r.Ok?, View()) == old(View()).Push(item)
      ensures r.Err? ==> r.item == item
    {
      if count == buffer.Length {
        return Err(item);
      }
      hide Window, Live, IsPow2, And;
      WindowPush(buffer[..], tail, count, Some(item));
      LivePush(tail, count, buffer.Length);
      NextWraps(head, buffer.Length);
      buffer[head] := Some(item);
      head := Next(head, buffer.Length);
      count := count + 1;
      assert View().items == old(View().items) + [item];
      return Ok;
    }

    /** `pop`; its `take` leaves `None` behind, and gives `None` only when the ring is empty. */
    method Pop() returns (item: Option<T>)
      requires Valid()
      modifies this, buffer
      ensures Valid() && (item, View()) == old(View()).Pop()
    {
      if count == 0 {
        return None;
      }
      hide Window, Live, IsPow2, And;
      WindowPop(buffer[..], tail, count, None);
      LivePop(tail, count, buffer.Length);
      NextWraps(tail, buffer.Length);
      item := buffer[tail];
      buffer[tail] := None;
      tail := Next(tail, buffer.Length);
      count := count - 1;
      assert View().items == old(View().items)[1..];
    }
  }

  function Values<T>(s: seq<Option<T>>): (r: seq<T>)
    requires forall i | 0 <= i < |s| :: s[i].Some?
    ensures |r| == |s| && forall i | 0 <= i < |s| :: s[i] == Some(r[i])
  {
    seq(|s|, i requires 0 <= i < |s| => s[i].value)
  }
}
