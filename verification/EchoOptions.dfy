/**
  The IP options of an echo request, and what RFC 1122 makes of them in the reply: section 3.2.2.6
  wants a source route turned round, and recommends that the answering host add itself to a record
  route and to timestamps. The formats are those of RFC 791, section 3.1.
 */
module EchoOptions {
  import opened Bytes

  const END_OF_LIST: byte := 0
  const NO_OPERATION: byte := 1
  const RECORD_ROUTE: byte := 7
  const TIMESTAMP: byte := 68
  const LOOSE_SOURCE_ROUTE: byte := 131
  const STRICT_SOURCE_ROUTE: byte := 137

  const MAX_OPTIONS: nat := 40

  /** The length of the first option in `o`; 0 at the end of the list, or where no option fits. */
  function OptionLength(o: seq<byte>): (n: nat)
    ensures n <= |o|
  {
    if o == [] || o[0] == END_OF_LIST then 0
    else if o[0] == NO_OPERATION then 1
    else if |o| < 2 || o[1] < 2 || o[1] > |o| then 0
    else o[1]
  }

  // ---------------------------------------------------------------- source routes

  predicate IsSourceRoute(o: seq<byte>) {
    |o| >= 3 && (o[0] == LOOSE_SOURCE_ROUTE || o[0] == STRICT_SOURCE_ROUTE)
  }

  /** A source route whose pointer is still within it: the datagram has further to go. */
  predicate IsUnfinished(o: seq<byte>) {
    IsSourceRoute(o) && o[2] <= |o|
  }

  /** A source route that has been travelled to its end, with at least one hop recorded in it. */
  predicate IsTravelled(o: seq<byte>) {
    IsSourceRoute(o) && o[2] > |o| >= 7
  }

  /** The number of addresses in a source route. */
  function Hops(o: seq<byte>): (n: nat)
    requires |o| >= 3
    ensures 3 + 4 * n <= |o|
  {
    (|o| - 3) / 4
  }

  function Hop(o: seq<byte>, i: nat): (ip: seq<byte>)
    requires 7 + 4 * i <= |o|
    ensures |ip| == 4
  {
    o[3 + 4 * i..7 + 4 * i]
  }

  /** The first `n` hops, last first. */
  function Backwards(o: seq<byte>, n: nat): (r: seq<byte>)
    requires 3 + 4 * n <= |o|
    ensures |r| == 4 * n
  {
    if n == 0 then [] else Hop(o, n - 1) + Backwards(o, n - 1)
  }

  /** The way back: the reply is sent to the last hop, so the route holds the ones before it in
      reverse and ends at the source of the request; the pointer is at its start. */
  function Reversed(o: seq<byte>, src: seq<byte>): (r: seq<byte>)
    requires IsTravelled(o) && |src| == 4
    ensures |r| == |o|
  {
    [o[0], o[1], 4] + Backwards(o, Hops(o) - 1) + src + o[3 + 4 * Hops(o)..]
  }

  // ---------------------------------------------------------------- record routes and timestamps

  /** A record route with room for one more address. */
  predicate HasRoom(o: seq<byte>) {
    |o| >= 3 && o[0] == RECORD_ROUTE && 4 <= o[2] && o[2] + 3 <= |o|
  }

  /** A timestamp option that the host `own` changes: by its time, its address and its time, its time
      after its prespecified address, or one more overflow. */
  datatype Stamp = None | Time | AddressAndTime | TimeAfterAddress | Overflow

  function StampFor(o: seq<byte>, own: seq<byte>): (t: Stamp)
    ensures t != None ==> |o| >= 4
    ensures t.Time? ==> 5 <= o[2] && o[2] + 3 <= |o|
    ensures t.AddressAndTime? || t.TimeAfterAddress? ==> 5 <= o[2] && o[2] + 7 <= |o|
    ensures t.Overflow? ==> o[3] < 0xF0
  {
    if |o| < 4 || o[0] != TIMESTAMP || o[2] < 5 then None
    else if o[2] > |o| then if o[3] < 0xF0 then Overflow else None
    else if o[3] % 0x10 == 0 && o[2] + 3 <= |o| then Time
    else if o[3] % 0x10 == 1 && o[2] + 7 <= |o| then AddressAndTime
    else if o[3] % 0x10 == 3 && o[2] + 7 <= |o| && o[o[2] - 1..o[2] + 3] == own then TimeAfterAddress
    else None
  }

  function Stamped(o: seq<byte>, own: seq<byte>, now: seq<byte>): (r: seq<byte>)
    requires |o| <= MAX_OPTIONS && |own| == |now| == 4
    ensures |r| == |o|
  {
    match StampFor(o, own)
    case None => o
    case Time => Splice(o, o[2] - 1, now)[2 := o[2] + 4]
    case AddressAndTime => Splice(o, o[2] - 1, own + now)[2 := o[2] + 8]
    case TimeAfterAddress => Splice(o, o[2] + 3, now)[2 := o[2] + 8]
    case Overflow => o[3 := o[3] + 0x10]
  }

  // ---------------------------------------------------------------- the options of the reply

  /** Who answers whom, and when; `advised` says whether what is only recommended is done as well. */
  datatype Setting = Setting(own: seq<byte>, src: seq<byte>, now: seq<byte>, advised: bool)

  predicate Complete(c: Setting) {
    |c.own| == |c.src| == |c.now| == 4
  }

  /** The option calls for a change. */
  predicate Due(o: seq<byte>, c: Setting) {
    || (IsTravelled(o))
    || (c.advised && (HasRoom(o) || StampFor(o, c.own) != None))
  }

  function Treated(o: seq<byte>, c: Setting): (r: seq<byte>)
    requires |o| <= MAX_OPTIONS && Complete(c)
    ensures |r| == |o|
  {
    if IsTravelled(o) then Reversed(o, c.src)
    else if c.advised && HasRoom(o) then Splice(o, o[2] - 1, c.own)[2 := o[2] + 4]
    else if c.advised then Stamped(o, c.own, c.now)
    else o
  }

  function ReplyOptions(o: seq<byte>, c: Setting): (r: seq<byte>)
    requires |o| <= MAX_OPTIONS && Complete(c)
    ensures |r| == |o|
  {
    var n := OptionLength(o);
    if n == 0 then o else Treated(o[..n], c) + ReplyOptions(o[n..], c)
  }

  /** Some option in the list calls for a change. */
  predicate SomeDue(o: seq<byte>, c: Setting) {
    var n := OptionLength(o);
    n != 0 && (Due(o[..n], c) || SomeDue(o[n..], c))
  }

  /** Where the reply is sent: the last hop of the source route, if there is one. */
  function FirstHop(o: seq<byte>, src: seq<byte>): seq<byte> {
    var n := OptionLength(o);
    if n == 0 then src
    else if IsTravelled(o[..n]) then Hop(o[..n], Hops(o[..n]) - 1)
    else FirstHop(o[n..], src)
  }

  /** Some source route in the list is unfinished. */
  predicate Unfinished(o: seq<byte>) {
    var n := OptionLength(o);
    n != 0 && (IsUnfinished(o[..n]) || Unfinished(o[n..]))
  }

  // ---------------------------------------------------------------- when nothing changes

  /** An option that calls for a change is changed: each change shows in the pointer or the counter. */
  lemma TreatedDiffers(o: seq<byte>, c: Setting)
    requires |o| <= MAX_OPTIONS && Complete(c)
    ensures Treated(o, c) == o <==> !Due(o, c)
  {
    hide Backwards, Splice;
    if IsTravelled(o) {
      assert Reversed(o, c.src)[2] == 4;
    } else if Due(o, c) && !HasRoom(o) {
      assert Stamped(o, c.own, c.now)[2..4] != o[2..4] by {
        assert Stamped(o, c.own, c.now)[2] != o[2] || Stamped(o, c.own, c.now)[3] != o[3];
      }
    }
  }

  lemma {:induction false} OptionsDiffer(o: seq<byte>, c: Setting)
    requires |o| <= MAX_OPTIONS && Complete(c)
    ensures ReplyOptions(o, c) == o <==> !SomeDue(o, c)
  {
    hide Treated, Due;
    var n := OptionLength(o);
    if n != 0 {
      TreatedDiffers(o[..n], c);
      OptionsDiffer(o[n..], c);
      var first, rest := Treated(o[..n], c), ReplyOptions(o[n..], c);
      assert (first + rest)[..n] == first && (first + rest)[n..] == rest && o == o[..n] + o[n..];
    }
  }

  lemma {:induction false} SentToSource(o: seq<byte>, c: Setting)
    requires !SomeDue(o, c)
    ensures FirstHop(o, c.src) == c.src
  {
    var n := OptionLength(o);
    if n != 0 { SentToSource(o[n..], c); }
  }

  /** One option, the loose source route through 10.0.0.1, and how it is turned round. */
  lemma OneHop(c: Setting)
    requires Complete(c)
    ensures var o := [LOOSE_SOURCE_ROUTE, 7, 8, 10, 0, 0, 1];
            && IsTravelled(o) && Hops(o) == 1 && Hop(o, 0) == [10, 0, 0, 1]
            && Treated(o, c) == [LOOSE_SOURCE_ROUTE, 7, 4] + c.src
  {
    var o := [LOOSE_SOURCE_ROUTE, 7, 8, 10, 0, 0, 1];
    assert Backwards(o, 0) == [] && o[7..] == [];
    assert [o[0], o[1], 4] + [] + c.src + [] == [o[0], o[1], 4] + c.src;
  }

  lemma OneHopList(c: Setting)
    requires Complete(c)
    ensures var o := [LOOSE_SOURCE_ROUTE, 7, 8, 10, 0, 0, 1, END_OF_LIST];
            && ReplyOptions(o, c) == [LOOSE_SOURCE_ROUTE, 7, 4] + c.src + [END_OF_LIST]
            && FirstHop(o, c.src) == [10, 0, 0, 1] && !Unfinished(o)
  {
    var o := [LOOSE_SOURCE_ROUTE, 7, 8, 10, 0, 0, 1, END_OF_LIST];
    OneHop(c);
    hide Treated, Hops, Hop;
    assert OptionLength(o) == 7 && o[..7] == [LOOSE_SOURCE_ROUTE, 7, 8, 10, 0, 0, 1];
    assert o[7..] == [END_OF_LIST] && OptionLength(o[7..]) == 0;
  }

  /** The same route before its hop has been visited. */
  lemma UnvisitedList(c: Setting)
    ensures var o := [LOOSE_SOURCE_ROUTE, 7, 4, 10, 0, 0, 1, END_OF_LIST]; Unfinished(o) && !SomeDue(o, c)
  {
    var o := [LOOSE_SOURCE_ROUTE, 7, 4, 10, 0, 0, 1, END_OF_LIST];
    assert OptionLength(o) == 7 && o[..7] == [LOOSE_SOURCE_ROUTE, 7, 4, 10, 0, 0, 1];
    assert o[7..] == [END_OF_LIST] && OptionLength(o[7..]) == 0;
  }
}
