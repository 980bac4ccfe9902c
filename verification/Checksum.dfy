/**
  The Internet checksum of RFC 1071 as `calculate_checksum` computes it, and the ones' complement
  arithmetic that relates it to the incremental update of RFC 1624.
 */
module Checksum {
  import opened Bytes
  import opened Numbers

  const ALL_ONES: u16 := 0xFFFF

  /** The longest input whose sum always fits a uint32_t. */
  const MAX_LENGTH: nat := 131074

  // ---------------------------------------------------------------- sums of 16-bit words

  /** The sum of the big-endian 16-bit words of `s`, an odd last byte being padded by a zero byte. */
  function Sum(s: seq<byte>): nat {
    if |s| == 0 then 0
    else if |s| == 1 then 0x100 * s[0]
    else 0x100 * s[0] + s[1] + Sum(s[2..])
  }

  /** The same sum with every word loaded in host order and not converted. */
  function HostSum(e: Endian, s: seq<byte>): nat {
    if |s| == 0 then 0
    else if |s| == 1 then LoadHost(e, s[0], 0)
    else LoadHost(e, s[0], s[1]) + HostSum(e, s[2..])
  }

  lemma {:induction false} SumConcat(a: seq<byte>, b: seq<byte>)
    requires |a| % 2 == 0
    ensures Sum(a + b) == Sum(a) + Sum(b)
  {
    if a == [] {
      assert a + b == b;
    } else {
      assert (a + b)[2..] == a[2..] + b;
      SumConcat(a[2..], b);
    }
  }

  lemma {:induction false} SumBound(s: seq<byte>)
    ensures Sum(s) <= (|s| + 1) / 2 * 0xFFFF
    ensures HostSum(Little, s) <= (|s| + 1) / 2 * 0xFFFF
  {
    if |s| >= 2 { SumBound(s[2..]); }
  }

  /** A sum is zero exactly when every byte is. */
  lemma {:induction false} SumZero(s: seq<byte>)
    ensures Sum(s) == 0 <==> forall i | 0 <= i < |s| :: s[i] == 0
    ensures HostSum(Little, s) == 0 <==> Sum(s) == 0
  {
    if |s| >= 2 {
      SumZero(s[2..]);
      assert forall i | 2 <= i < |s| :: s[i] == s[2..][i - 2];
    }
  }

  // ---------------------------------------------------------------- ones' complement arithmetic

  predicate Congruent(a: int, b: int) {
    (a - b) % 0xFFFF == 0
  }

  /** Congruence from an explicit quotient. */
  lemma CongruentBy(a: int, b: int, k: int)
    requires a == b + 0xFFFF * k
    ensures Congruent(a, b)
  {
    assert a - b == 0xFFFF * k;
  }

  /** The quotient of two congruent numbers. */
  lemma Quotient(a: int, b: int) returns (k: int)
    requires Congruent(a, b)
    ensures a == b + 0xFFFF * k
  {
    k := (a - b) / 0xFFFF;
  }

  lemma CongruentTrans(a: int, b: int, c: int)
    requires Congruent(a, b) && Congruent(b, c)
    ensures Congruent(a, c)
  {
    var j := Quotient(a, b);
    var k := Quotient(b, c);
    CongruentBy(a, c, j + k);
  }

  function Not(w: u16): u16 {
    ALL_ONES - w
  }

  /** The end-around-carry loop: it folds the high half of the accumulator into the low half until
      nothing is left above bit 15. */
  function Fold(n: nat): (r: u16)
    ensures Congruent(n, r)
    ensures r == 0 <==> n == 0
  {
    if n / 0x1_0000 == 0 then n
    else
      var m := n % 0x1_0000 + n / 0x1_0000;
      assert Congruent(n, Fold(m)) by {
        CongruentBy(n, m, n / 0x1_0000);
        CongruentTrans(n, m, Fold(m));
      }
      Fold(m)
  }

  /** How often the folding loop runs. */
  function FoldRounds(n: nat): nat {
    if n / 0x1_0000 == 0 then 0 else 1 + FoldRounds(n % 0x1_0000 + n / 0x1_0000)
  }

  /** Each residue has one representative in 0..65535 once the two zeros are told apart. */
  lemma CongruentUnique(a: u16, b: u16)
    requires Congruent(a, b)
    requires a == 0 <==> b == 0
    ensures a == b
  {
  }

  /** Folding gives the one 16-bit value congruent to the sum that is zero only for a zero sum. */
  lemma FoldCharacterised(n: nat, r: u16)
    ensures r == Fold(n) <==> Congruent(n, r) && (r == 0 <==> n == 0)
  {
    hide Fold;
    if Congruent(n, r) && (r == 0 <==> n == 0) {
      CongruentUnique(r, Fold(n));
    }
  }

  /** A uint32_t is folded in at most two rounds, and the sum in the loop stays a uint32_t. */
  lemma FoldTwice(n: nat)
    requires n < TWO32
    ensures FoldRounds(n) <= 2
    ensures n % 0x1_0000 + n / 0x1_0000 < TWO32
  {
    var m := n % 0x1_0000 + n / 0x1_0000;
    assert m <= 0x1_FFFE;
    assert m % 0x1_0000 + m / 0x1_0000 < 0x1_0000;
    assert FoldRounds(m % 0x1_0000 + m / 0x1_0000) == 0;
    assert FoldRounds(m) <= 1;
  }

  /** One turn of the folding loop, in a 32-bit register. */
  function FoldOnce(acc: nat): nat {
    (acc % 0x1_0000 + acc / 0x1_0000) % TWO32
  }

  lemma FoldLoop(acc: nat)
    requires 0x1_0000 <= acc < TWO32
    ensures FoldOnce(acc) < acc
    ensures Fold(FoldOnce(acc)) == Fold(acc)
    ensures FoldRounds(acc) == 1 + FoldRounds(FoldOnce(acc))
  {
    var lo, hi := acc % 0x1_0000, acc / 0x1_0000;
    assert acc == 0x1_0000 * hi + lo;
    assert FoldOnce(acc) == lo + hi;
  }

  /** Addition with end-around carry. */
  function OnesAdd(a: u16, b: u16): u16 {
    Fold(a + b)
  }

  /** RFC 1624, section 3, equation 3: HC' = ~(~HC + ~m + m'). */
  function Equation3(hc: u16, m: u16, m': u16): u16 {
    Not(OnesAdd(OnesAdd(Not(hc), Not(m)), m'))
  }

  // ---------------------------------------------------------------- the checksum

  /** The checksum as a number in network order, with the source's 32-bit accumulator. */
  function Value(s: seq<byte>): u16 {
    Not(Fold(Sum(s) % TWO32))
  }

  /** The two bytes that storing the checksum leaves in the frame. */
  function Field(s: seq<byte>): (r: seq<byte>)
    ensures |r| == 2
  {
    StoreHost(Big, Value(s))
  }

  /** The checksum bytes of the variant without `ntohs` on the words and `htons` on the result. */
  function RawField(e: Endian, s: seq<byte>): seq<byte> {
    StoreHost(e, Not(Fold(HostSum(e, s) % TWO32)))
  }

  /** The receiver's test: the checksum over the data, its checksum field included, is zero. */
  predicate Verifies(s: seq<byte>) {
    Value(s) == 0
  }

  /** A folded sum is all ones exactly for the non-zero multiples of 65535. */
  lemma FoldAllOnes(n: nat)
    ensures Fold(n) == ALL_ONES <==> n % 0xFFFF == 0 && n != 0
  {
    if n % 0xFFFF == 0 && n != 0 {
      CongruentBy(n, ALL_ONES, n / 0xFFFF - 1);
      FoldCharacterised(n, ALL_ONES);
    }
  }

  lemma NoOverflow(s: seq<byte>)
    requires |s| <= MAX_LENGTH
    ensures Sum(s) < TWO32 && HostSum(Little, s) < TWO32
    ensures Value(s) == Not(Fold(Sum(s)))
    ensures Verifies(s) <==> Sum(s) % 0xFFFF == 0 && Sum(s) != 0
  {
    hide Sum, HostSum, Fold;
    SumBound(s);
    FoldAllOnes(Sum(s));
  }

  /** The 16-bit word at `i`, an odd last byte being padded. */
  function WordAt(s: seq<byte>, i: nat): u16
    requires i < |s|
  {
    0x100 * (s[i] as int) + if i + 1 < |s| then s[i + 1] as int else 0
  }

  /** One turn of the accumulating loop takes in the next word, or the padded last byte. */
  lemma NextWord(s: seq<byte>, i: nat)
    requires i < |s| && i % 2 == 0
    ensures (Sum(s[..i]) % TWO32 + WordAt(s, i)) % TWO32 == Sum(s[..Min(i + 2, |s|)]) % TWO32
  {
    var w := if i + 1 < |s| then [s[i], s[i + 1]] else [s[i]];
    assert s[..Min(i + 2, |s|)] == s[..i] + w;
    SumConcat(s[..i], w);
    assert Sum(w) == WordAt(s, i);
    AddModulo(Sum(s[..i]), WordAt(s, i));
  }

  lemma AddModulo(n: nat, w: nat)
    ensures (n % TWO32 + w) % TWO32 == (n + w) % TWO32
  {
  }

  /** Complementing the 32-bit register and keeping its low half complements the 16-bit sum. */
  lemma NotInRegister(acc: u16)
    ensures (TWO32 - 1 - acc) % 0x1_0000 == Not(acc)
  {
  }

  /** `calculate_checksum`: the accumulating loop, the folding loop and the final complement, on a
      host of either byte order. The bytes it makes the caller store do not depend on that order. */
  method Calculate(e: Endian, data: array<byte>, start: nat, length: nat) returns (r: u16, ghost rounds: nat)
    requires start + length <= data.Length
    ensures StoreHost(e, r) == Field(data[start..start + length])
    ensures rounds == FoldRounds(Sum(data[start..start + length]) % TWO32) <= 2
  {
    ghost var s := data[start..start + length];
    var acc, i := 0, 0;
    while i < length
      invariant i % 2 == 0 && 0 <= i
      invariant acc == Sum(s[..Min(i, length)]) % TWO32
    {
      NextWord(s, i);
      var word: u16;
      if i + 1 < length {
        word := LoadHost(e, data[start + i], data[start + i + 1]);
      } else {
        word := LoadHost(e, data[start + i], 0);
      }
      NtohsLoad(e, s[i], if i + 1 < length then s[i + 1] else 0);
      acc := (acc + Ntohs(e, word)) % TWO32;
      i := i + 2;
    }
    assert s[..length] == s;
    ghost var total := acc;
    FoldTwice(total);
    rounds := 0;
    while acc / 0x1_0000 != 0
      invariant 0 <= acc < TWO32
      invariant Fold(acc) == Fold(total)
      invariant rounds + FoldRounds(acc) == FoldRounds(total)
      decreases acc
    {
      FoldLoop(acc);
      acc := FoldOnce(acc);
      rounds := rounds + 1;
    }
    StoreHtons(e, Not(acc));
    NotInRegister(acc);
    r := Ntohs(e, (TWO32 - 1 - acc) % 0x1_0000);
  }
}
