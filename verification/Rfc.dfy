/**
  What RFC 1071 and RFC 1624 promise about the checksum: the accumulator's range, independence of
  the byte order, and agreement of recomputation with incremental update.
 */
module Rfc {
  import opened Bytes
  import opened Checksum

  // ---------------------------------------------------------------- the 32-bit accumulator

  function Repeat(n: nat, a: byte, b: byte): (r: seq<byte>)
    ensures |r| == 2 * n
  {
    if n == 0 then [] else [a, b] + Repeat(n - 1, a, b)
  }

  lemma {:induction false} SumRepeat(n: nat, a: byte, b: byte)
    ensures Sum(Repeat(n, a, b)) == n * (0x100 * a + b)
    ensures HostSum(Little, Repeat(n, a, b)) == n * (a + 0x100 * b)
  {
    if n > 0 {
      SumRepeat(n - 1, a, b);
      assert Repeat(n, a, b)[2..] == Repeat(n - 1, a, b);
      OneMore(n, 0x100 * a + b);
      OneMore(n, a + 0x100 * b);
    }
  }

  lemma OneMore(n: nat, w: nat)
    requires n > 0
    ensures n * w == (n - 1) * w + w
  {
  }

  lemma {:induction false} HostSumConcat(a: seq<byte>, b: seq<byte>)
    requires |a| % 2 == 0
    ensures HostSum(Little, a + b) == HostSum(Little, a) + HostSum(Little, b)
  {
    if a == [] {
      assert a + b == b;
    } else {
      assert (a + b)[2..] == a[2..] + b;
      HostSumConcat(a[2..], b);
    }
  }

  /** Two words 0xFF00, then 65535 words 0xFFFF, then a byte 0xFF, then zeros. */
  function Overflowing(length: nat): (r: seq<byte>)
    requires length > MAX_LENGTH
    ensures |r| == length
  {
    Repeat(1, 0xFF, 0) + Repeat(65536, 0xFF, 0xFF) + ([0xFF] + seq(length - MAX_LENGTH - 1, _ => 0))
  }

  lemma OneByteSums(zeros: seq<byte>)
    requires forall i | 0 <= i < |zeros| :: zeros[i] == 0
    ensures Sum([0xFF] + zeros) == 0xFF00 && HostSum(Little, [0xFF] + zeros) == 0xFF
  {
    if |zeros| > 0 {
      assert ([0xFF] + zeros)[2..] == zeros[1..];
      SumZero(zeros[1..]);
    }
  }

  /** Its big-endian sum leaves the 32-bit register and its little-endian sum does not. */
  lemma OverflowingSums(length: nat)
    requires length > MAX_LENGTH
    ensures Sum(Overflowing(length)) == TWO32 + 0xFFFE - 510
    ensures HostSum(Little, Overflowing(length)) == TWO32 + 0xFFFE - 130560
  {
    var zeros: seq<byte> := seq(length - MAX_LENGTH - 1, _ => 0);
    OneByteSums(zeros);
    SumRepeat(1, 0xFF, 0);
    SumRepeat(65536, 0xFF, 0xFF);
    var first, middle := Repeat(1, 0xFF, 0), Repeat(65536, 0xFF, 0xFF);
    assert Overflowing(length) == first + middle + ([0xFF] + zeros);
    hide Repeat, Overflowing, Sum, HostSum;
    SumConcat(first, middle);
    HostSumConcat(first, middle);
    SumConcat(first + middle, [0xFF] + zeros);
    HostSumConcat(first + middle, [0xFF] + zeros);
  }

  /** The uint32_t accumulator is exact for every input of a length up to 131074 bytes, and for no
      greater length. */
  lemma AccumulatorRange(length: nat)
    ensures (forall s: seq<byte> | |s| == length :: Sum(s) < TWO32) <==> length <= MAX_LENGTH
  {
    if length <= MAX_LENGTH {
      forall s: seq<byte> | |s| == length ensures Sum(s) < TWO32 { NoOverflow(s); }
    } else {
      OverflowingSums(length);
      assert |Overflowing(length)| == length && Sum(Overflowing(length)) >= TWO32;
    }
  }

  // ---------------------------------------------------------------- byte order

  /** The sum of the bytes at even offsets. */
  function HighBytes(s: seq<byte>): nat {
    if |s| == 0 then 0 else s[0] + if |s| == 1 then 0 else HighBytes(s[2..])
  }

  /** Swapping the bytes of every word multiplies the sum by 256 modulo 65535. */
  lemma {:induction false} SwappedSum(s: seq<byte>)
    ensures 0x100 * Sum(s) == HostSum(Little, s) + 0xFFFF * HighBytes(s)
  {
    if |s| >= 2 { SwappedSum(s[2..]); }
  }

  lemma SwapArithmetic(w: u16) returns (hi: byte)
    ensures SwapBytes(w) == 0x100 * w - 0xFFFF * hi
    ensures SwapBytes(w) == 0 <==> w == 0
  {
    hi := w / 0x100;
    assert w == 0x100 * hi + w % 0x100;
  }

  /** Byte swapping commutes with folding. */
  lemma FoldSwapped(n: nat, h: nat, k: int)
    requires 0x100 * n == h + 0xFFFF * k
    requires n == 0 <==> h == 0
    ensures Fold(h) == SwapBytes(Fold(n))
  {
    var f := Fold(n);
    var q := Quotient(n, f);
    var hi := SwapArithmetic(f);
    var swapped := SwapBytes(f);
    assert h == swapped + 0xFFFF * (hi + 0x100 * q - k);
    CongruentBy(h, swapped, hi + 0x100 * q - k);
    FoldCharacterised(h, swapped);
  }

  lemma SwapNot(w: u16)
    ensures Not(SwapBytes(w)) == SwapBytes(Not(w))
  {
    var hi, lo := w / 0x100, w % 0x100;
    var n := Not(w);
    assert n == 0x100 * (0xFF - hi) + (0xFF - lo);
    assert n / 0x100 == 0xFF - hi && n % 0x100 == 0xFF - lo;
  }

  lemma {:induction false} HostSumBig(s: seq<byte>)
    ensures HostSum(Big, s) == Sum(s)
  {
    if |s| >= 2 { HostSumBig(s[2..]); }
  }

  lemma InRegister(n: nat)
    requires n < TWO32
    ensures n % TWO32 == n
  {
  }

  lemma SwappedField(s: seq<byte>)
    requires |s| <= MAX_LENGTH
    ensures RawField(Little, s) == StoreHost(Little, Ntohs(Little, Value(s)))
  {
    hide Sum, HostSum, Fold, HighBytes, Not, SwapBytes, StoreHost;
    NoOverflow(s);
    SwappedSum(s);
    SumZero(s);
    FoldSwapped(Sum(s), HostSum(Little, s), HighBytes(s));
    SwapNot(Fold(Sum(s)));
    InRegister(HostSum(Little, s));
  }

  /** RFC 1071, section 2 (B): without any byte-order conversion the same two bytes are stored. */
  lemma SameBytes(e: Endian, s: seq<byte>)
    requires |s| <= MAX_LENGTH
    ensures RawField(e, s) == Field(s)
  {
    match e
    case Big =>
      HostSumBig(s);
    case Little =>
      SwappedField(s);
      StoreHtons(Little, Value(s));
  }

  /** The byte order is immaterial for all data of a given length exactly when the accumulator
      cannot overflow at that length. */
  lemma ByteOrderIndependence(length: nat)
    ensures (forall s: seq<byte> | |s| == length :: RawField(Little, s) == Field(s)) <==> length <= MAX_LENGTH
  {
    if length <= MAX_LENGTH {
      forall s: seq<byte> | |s| == length ensures RawField(Little, s) == Field(s) { SameBytes(Little, s); }
    } else {
      hide Sum, HostSum, Fold, Overflowing;
      var s := Overflowing(length);
      OverflowingSums(length);
      assert Sum(s) % TWO32 == 0xFFFE - 510;
      FoldCharacterised(0xFFFE - 510, 0xFFFE - 510);
      var h := TWO32 + 0xFFFE - 130560;
      CongruentBy(h, 0x1FE, 65536);
      FoldCharacterised(h, 0x1FE);
      assert RawField(Little, s) != Field(s);
    }
  }

  // ---------------------------------------------------------------- incremental update

  /** Recomputation against equation 3 of RFC 1624, for data whose words other than the checksum
      `hc` and the changing word `m` sum to `rest`: the two agree unless exactly one of the two sums
      is the positive zero. */
  lemma Incremental(rest: nat, hc: u16, m: u16, m': u16)
    requires (rest + hc + m) % 0xFFFF == 0
    ensures Equation3(hc, m, m') == Not(Fold(rest + m')) <==>
            ((rest == 0 && m' == 0) <==> (hc == ALL_ONES && m == ALL_ONES && m' == 0))
  {
    var k := (rest + hc + m) / 0xFFFF;
    var inner := OnesAdd(Not(hc), Not(m));
    var j := Quotient(Not(hc) + Not(m), inner);
    var outer := OnesAdd(inner, m');
    var i := Quotient(inner + m', outer);
    assert rest + m' == outer + 0xFFFF * (i + j + k - 2);
    CongruentBy(rest + m', outer, i + j + k - 2);
    FoldCharacterised(rest + m', outer);
  }

  /** Where neither sum can be zero, recomputation is equation 3. */
  lemma IncrementalExact(rest: nat, hc: u16, m: u16, m': u16)
    requires (rest + hc + m) % 0xFFFF == 0
    requires rest > 0 && (m' > 0 || m < ALL_ONES)
    ensures Not(Fold(rest + m')) == Equation3(hc, m, m')
  {
    Incremental(rest, hc, m, m');
  }

  // ---------------------------------------------------------------- what the sum is of

  /** A byte at an even offset counts 256 times, one at an odd offset once; so an odd last byte counts
      as the first of a word. */
  lemma {:induction false} SumUpdate(s: seq<byte>, i: nat, b: byte)
    requires i < |s|
    ensures Sum(s[i := b]) == Sum(s) + (if i % 2 == 0 then 0x100 else 1) * (b as int - s[i] as int)
  {
    if i >= 2 {
      assert s[i := b][2..] == s[2..][i - 2 := b];
      SumUpdate(s[2..], i - 2, b);
    } else if |s| > 2 {
      assert s[i := b][2..] == s[2..];
    }
  }

  lemma NotMultiple(n: int, d: int)
    requires n % 0xFFFF == 0 && -0xFFFF < d < 0xFFFF && d != 0
    ensures (n + d) % 0xFFFF != 0
  {
  }

  /** Any single damaged byte is found out. */
  lemma DamageDetected(s: seq<byte>, i: nat, b: byte)
    requires |s| <= MAX_LENGTH && Verifies(s) && i < |s| && b != s[i]
    ensures !Verifies(s[i := b])
  {
    hide Sum, Verifies;
    NoOverflow(s);
    NoOverflow(s[i := b]);
    SumUpdate(s, i, b);
    NotMultiple(Sum(s), (if i % 2 == 0 then 0x100 else 1) * (b as int - s[i] as int));
  }

  lemma ExampleSum()
    ensures Sum([0x00, 0x01, 0xF2, 0x03, 0xF4, 0xF5, 0xF6, 0xF7]) == 0x2DDF0
  {
    var a, b, c, d: seq<byte> := [0x00, 0x01], [0xF2, 0x03], [0xF4, 0xF5], [0xF6, 0xF7];
    assert a[2..] == b[2..] == c[2..] == d[2..] == [];
    assert Sum(a) == 0x0001 && Sum(b) == 0xF203 && Sum(c) == 0xF4F5 && Sum(d) == 0xF6F7;
    hide Sum;
    SumConcat(a, b);
    SumConcat(a + b, c);
    SumConcat(a + b + c, d);
    assert a + b + c + d == [0x00, 0x01, 0xF2, 0x03, 0xF4, 0xF5, 0xF6, 0xF7];
  }

  /** The example of RFC 1071, section 3. */
  lemma Example()
    ensures Field([0x00, 0x01, 0xF2, 0x03, 0xF4, 0xF5, 0xF6, 0xF7]) == [0x22, 0x0D]
  {
    ExampleSum();
    hide Sum, Fold;
    CongruentBy(0x2DDF0, 0xDDF2, 2);
    FoldCharacterised(0x2DDF0, 0xDDF2);
  }
}
