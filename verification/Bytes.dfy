/** Bytes, 16-bit words and the two host byte orders, as the packed C structs see them. */
module Bytes {
  type byte = x: int | 0 <= x < 0x100
  type u16 = x: int | 0 <= x < 0x1_0000

  const TWO32: nat := 0x1_0000_0000

  datatype Endian = Little | Big

  /** The uint16_t that `memcpy` from two bytes in memory produces on the given host. */
  function LoadHost(e: Endian, first: byte, second: byte): u16 {
    match e
    case Little => first + 0x100 * second
    case Big => 0x100 * first + second
  }

  /** The two bytes that storing a uint16_t leaves in memory on the given host. */
  function StoreHost(e: Endian, w: u16): seq<byte> {
    match e
    case Little => [w % 0x100, w / 0x100]
    case Big => [w / 0x100, w % 0x100]
  }

  function SwapBytes(w: u16): u16 {
    (w % 0x100) * 0x100 + w / 0x100
  }

  /** `ntohs`, which is also `htons`. */
  function Ntohs(e: Endian, w: u16): u16 {
    if e.Little? then SwapBytes(w) else w
  }

  /** The number that two bytes in network order stand for. */
  function Number(w: seq<byte>): u16
    requires |w| == 2
  {
    0x100 * (w[0] as int) + w[1] as int
  }

  /** Loading a word and converting it gives its big-endian value on either host. */
  lemma NtohsLoad(e: Endian, first: byte, second: byte)
    ensures Ntohs(e, LoadHost(e, first, second)) == 0x100 * first + second
  {
    var w := first + 0x100 * second;
    assert w / 0x100 == second && w % 0x100 == first;
  }

  /** Converting a number and storing it leaves its big-endian bytes on either host. */
  lemma StoreHtons(e: Endian, w: u16)
    ensures StoreHost(e, Ntohs(e, w)) == StoreHost(Big, w)
  {
    var hi, lo := w / 0x100, w % 0x100;
    var v := lo * 0x100 + hi;
    assert v / 0x100 == lo && v % 0x100 == hi;
  }

  /** Overwrites the bytes of `s` from index `at` on by `x`: what a `memcpy` into a frame does. */
  function Splice(s: seq<byte>, at: nat, x: seq<byte>): (r: seq<byte>)
    requires at + |x| <= |s|
    ensures |r| == |s|
  {
    s[..at] + x + s[at + |x|..]
  }

  lemma SpliceSlices(s: seq<byte>, at: nat, x: seq<byte>)
    requires at + |x| <= |s|
    ensures Splice(s, at, x)[at..at + |x|] == x
    ensures forall i | 0 <= i < |s| && !(at <= i < at + |x|) :: Splice(s, at, x)[i] == s[i]
    ensures forall lo, hi | 0 <= lo <= hi <= |s| && (hi <= at || at + |x| <= lo) ::
              Splice(s, at, x)[lo..hi] == s[lo..hi]
  {
  }

  lemma SpliceGrows(s: seq<byte>, at: nat, x: seq<byte>, i: nat)
    requires at + |x| <= |s| && i < |x|
    ensures Splice(s, at, x[..i])[at + i := x[i]] == Splice(s, at, x[..i + 1])
  {
  }

  /** Copies `x` into the buffer at `at`, byte by byte. */
  method Store(buffer: array<byte>, at: nat, x: seq<byte>)
    requires at + |x| <= buffer.Length
    modifies buffer
    ensures buffer[..] == Splice(old(buffer[..]), at, x)
  {
    assert buffer[..] == Splice(buffer[..], at, x[..0]);
    hide Splice;
    for i := 0 to |x|
      invariant buffer[..] == Splice(old(buffer[..]), at, x[..i])
    {
      SpliceGrows(old(buffer[..]), at, x, i);
      buffer[at + i] := x[i];
    }
    assert x[..|x|] == x;
  }

  /** The same within the frame held by the first `len` bytes of the buffer. */
  method StoreWithin(buffer: array<byte>, ghost len: nat, at: nat, x: seq<byte>)
    requires at + |x| <= len <= buffer.Length
    modifies buffer
    ensures buffer[..len] == Splice(old(buffer[..len]), at, x)
    ensures buffer[len..] == old(buffer[len..])
  {
    Store(buffer, at, x);
    SpliceSlices(old(buffer[..]), at, x);
  }
}
