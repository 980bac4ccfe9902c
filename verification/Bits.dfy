/** Bitwise AND over unbounded integers, and the power-of-two tricks the rings rest on. */
module Bits {

  function Pow2(k: nat): (r: nat)
    ensures r > 0
  {
    if k == 0 then 1 else 2 * Pow2(k - 1)
  }

  ghost predicate IsPow2(n: int) {
    exists k: nat :: n == Pow2(k)
  }

  /** `x & y` on non-negative integers. */
  function And(x: nat, y: nat): nat {
    if x == 0 || y == 0 then 0 else 2 * And(x / 2, y / 2) + (x % 2) * (y % 2)
  }

  lemma {:induction false} AndSelf(x: nat)
    ensures And(x, x) == x
  {
    if x != 0 {
      AndSelf(x / 2);
      assert x % 2 == 0 || x % 2 == 1;
    }
  }

  lemma Pow2Doubles(n: nat)
    requires n > 0
    ensures IsPow2(2 * n) <==> IsPow2(n)
  {
    if IsPow2(n) {
      var k: nat :| n == Pow2(k);
      assert 2 * n == Pow2(k + 1);
    }
    if IsPow2(2 * n) {
      var k: nat :| 2 * n == Pow2(k);
      assert k > 0 && n == Pow2(k - 1);
    }
  }

  lemma {:induction false} Pow2Even(k: nat)
    ensures k == 0 || Pow2(k) % 2 == 0
  {
    if k > 0 {
      assert Pow2(k) == 2 * Pow2(k - 1);
      hide Pow2;
    }
  }

  /** The capacity check: `n & (n - 1)` is zero exactly for the powers of two. */
  lemma {:induction false} CapacityCheck(n: nat)
    requires n > 0
    ensures And(n, n - 1) == 0 <==> IsPow2(n)
  {
    if n == 1 {
      assert n == Pow2(0);
    } else if n % 2 == 0 {
      var h := n / 2;
      assert n == 2 * h && (n - 1) / 2 == h - 1;
      assert And(n, n - 1) == 2 * And(h, h - 1);
      CapacityCheck(h);
      Pow2Doubles(h);
    } else {
      var h := n / 2;
      assert (n - 1) / 2 == h && (n - 1) % 2 == 0;
      assert And(n, n - 1) == 2 * And(h, h);
      AndSelf(h);
      forall k: nat ensures n != Pow2(k) { Pow2Even(k); }
    }
  }

  /** Quotient and remainder are unique. */
  lemma ModuloFrom(x: nat, n: nat, q: nat, r: nat)
    requires r < n && x == q * n + r
    ensures x % n == r
  {
    var d := x / n - q;
    assert d * n == r - x % n by {
      assert x == x / n * n + x % n;
      assert d * n == x / n * n - q * n;
    }
    MultipleOf(d, n);
  }

  lemma MultipleOf(d: int, n: nat)
    ensures d >= 1 ==> d * n >= n
    ensures d <= -1 ==> d * n <= 0 - n
  {
  }

  lemma DoubledModulo(h: nat, bit: nat, m: nat)
    requires m > 0 && bit < 2
    ensures (2 * h + bit) % (2 * m) == 2 * (h % m) + bit
  {
    var q, r := h / m, h % m;
    assert h == q * m + r;
    assert q * (2 * m) == 2 * (q * m);
    ModuloFrom(2 * h + bit, 2 * m, q, 2 * r + bit);
  }

  lemma AndOddMask(x: nat, m: nat)
    requires m > 0
    ensures And(x, 2 * m - 1) == 2 * And(x / 2, m - 1) + x % 2
  {
    var y := 2 * m - 1;
    assert y / 2 == m - 1 && y % 2 == 1;
  }

  /** Masking with a power of two less one is taking the remainder. */
  lemma {:induction false} MaskIsModulo(x: nat, k: nat)
    ensures And(x, Pow2(k) - 1) == x % Pow2(k)
  {
    if k == 0 {
      ModuloFrom(x, 1, x, 0);
    } else {
      var m, h, b := Pow2(k - 1), x / 2, x % 2;
      assert x == 2 * h + b && Pow2(k) == 2 * m;
      hide And, Pow2;
      MaskIsModulo(h, k - 1);
      AndOddMask(x, m);
      DoubledModulo(h, b, m);
    }
  }

  /** The step the rings take: for a capacity that passes the check, the mask gives the successor
      modulo the capacity, for every index. */
  lemma MaskedStep(x: nat, n: nat)
    requires n > 0 && And(n, n - 1) == 0
    ensures And(x + 1, n - 1) == (x + 1) % n
  {
    CapacityCheck(n);
    var k: nat :| n == Pow2(k);
    MaskIsModulo(x + 1, k);
  }

  /** For any other capacity the mask is wrong somewhere: the check is as weak as it can be. */
  lemma MaskNeedsPow2(n: nat)
    requires n > 0
    ensures (forall x: nat :: And(x, n - 1) == x % n) <==> IsPow2(n)
  {
    if IsPow2(n) {
      var k: nat :| n == Pow2(k);
      forall x: nat ensures And(x, n - 1) == x % n { MaskIsModulo(x, k); }
    } else {
      CapacityCheck(n);
      assert n % n == 0;
    }
  }

  /** Bit `k` of `x & y` is set exactly when it is set in both. */
  lemma {:induction false} AndBit(x: nat, y: nat, k: nat)
    ensures And(x, y) / Pow2(k) % 2 == 1 <==> x / Pow2(k) % 2 == 1 && y / Pow2(k) % 2 == 1
  {
    if k == 0 {
      assert And(x, y) == 2 * And(x / 2, y / 2) + (x % 2) * (y % 2);
      BitProduct(x % 2, y % 2);
    } else {
      AndBit(x / 2, y / 2, k - 1);
      Halved(And(x, y), Pow2(k - 1));
      Halved(x, Pow2(k - 1));
      Halved(y, Pow2(k - 1));
      BitProduct(x % 2, y % 2);
      assert And(x, y) / 2 == And(x / 2, y / 2);
    }
  }

  lemma BitProduct(a: nat, b: nat)
    requires a < 2 && b < 2
    ensures a * b == if a == 1 && b == 1 then 1 else 0
  {
  }

  lemma Halved(x: nat, m: nat)
    requires m > 0
    ensures x / (2 * m) == x / 2 / m
  {
    var q, r := x / 2 / m, x / 2 % m;
    assert x / 2 == q * m + r && x == 2 * (x / 2) + x % 2;
    assert x == q * (2 * m) + (2 * r + x % 2) by { assert q * (2 * m) == 2 * (q * m); }
    ModuloFrom(x, 2 * m, q, 2 * r + x % 2);
    assert x == x / (2 * m) * (2 * m) + x % (2 * m);
    SameFactor(x / (2 * m), q, 2 * m);
  }

  lemma SameFactor(a: int, b: int, n: nat)
    requires n > 0 && a * n == b * n
    ensures a == b
  {
    assert (a - b) * n == 0;
    MultipleOf(a - b, n);
  }
}
