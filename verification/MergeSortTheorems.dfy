/**
  What merge sort promises: a sorted and stable permutation, which is unique, and at most
  n * ceil(log2 n) - 2 ^ ceil(log2 n) + 1 comparisons, a bound some input of every length attains.
 */
module MergeSortTheorems {
  import opened Bits
  import opened MergeSort

  predicate SortedBy<T>(s: seq<T>, key: T -> int) {
    forall i, j | 0 <= i < j < |s| :: key(s[i]) <= key(s[j])
  }

  /** The elements of key `k`, in order. */
  function WithKey<T>(s: seq<T>, key: T -> int, k: int): seq<T> {
    if s == [] then [] else (if key(s[0]) == k then [s[0]] else []) + WithKey(s[1..], key, k)
  }

  /** Elements of equal keys stand in the same order in both. */
  ghost predicate SameOrder<T>(s: seq<T>, t: seq<T>, key: T -> int) {
    forall k :: WithKey(s, key, k) == WithKey(t, key, k)
  }

  lemma GroupLeft<T>(a: seq<T>, b: seq<T>, c: seq<T>)
    ensures a + (b + c) == a + b + c
  {
  }

  lemma {:induction false} WithKeyConcat<T>(a: seq<T>, b: seq<T>, key: T -> int, k: int)
    ensures WithKey(a + b, key, k) == WithKey(a, key, k) + WithKey(b, key, k)
  {
    if a == [] {
      assert a + b == b;
    } else {
      WithKeyConcat(a[1..], b, key, k);
      assert (a + b)[0] == a[0] && (a + b)[1..] == a[1..] + b;
      GroupLeft(if key(a[0]) == k then [a[0]] else [], WithKey(a[1..], key, k), WithKey(b, key, k));
    }
  }

  lemma WithKeyCons<T>(x: T, s: seq<T>, key: T -> int, k: int)
    ensures WithKey([x] + s, key, k) == if key(x) == k then [x] + WithKey(s, key, k) else WithKey(s, key, k)
  {
    assert ([x] + s)[1..] == s;
  }

  lemma {:induction false} WithKeyNone<T>(s: seq<T>, key: T -> int, k: int)
    ensures WithKey(s, key, k) == [] <==> forall i | 0 <= i < |s| :: key(s[i]) != k
  {
    if s != [] {
      WithKeyNone(s[1..], key, k);
      assert forall i | 1 <= i < |s| :: s[i] == s[1..][i - 1];
    }
  }

  /** The two halves that are sorted and merged. */
  lemma Split<T>(s: seq<T>, key: T -> int) returns (l: seq<T>, r: seq<T>)
    requires |s| > 1
    ensures |l| < |s| && |r| < |s| && s == l + r
    ensures Sort(s, key) == Merge(Sort(l, key), Sort(r, key), key)
  {
    hide *;
    l, r := s[..Half(|s|)], s[Half(|s|)..];
    SortSplit(s, l, r, key);
  }

  // ---------------------------------------------------------------- stability

  lemma MergeHead<T>(l: seq<T>, r: seq<T>, key: T -> int)
    requires l != [] && r != []
    ensures Merge(l, r, key) == if key(l[0]) <= key(r[0]) then [l[0]] + Merge(l[1..], r, key)
                                else [r[0]] + Merge(l, r[1..], key)
  {
  }

  /** Merging keeps the order of equal keys, those of the left run first: the test is `<=`. */
  lemma {:induction false} MergeStable<T>(l: seq<T>, r: seq<T>, key: T -> int, k: int)
    requires SortedBy(l, key)
    ensures WithKey(Merge(l, r, key), key, k) == WithKey(l, key, k) + WithKey(r, key, k)
    decreases |l| + |r|
  {
    if l != [] && r != [] {
      if key(l[0]) <= key(r[0]) {
        MergeStable(l[1..], r, key, k);
        StableLeft(l, r, key, k);
      } else {
        MergeStable(l, r[1..], key, k);
        WithKeyNone(l, key, k);
        StableRight(l, r, key, k);
      }
    }
  }

  lemma StableLeft<T>(l: seq<T>, r: seq<T>, key: T -> int, k: int)
    requires l != [] && r != [] && key(l[0]) <= key(r[0])
    requires WithKey(Merge(l[1..], r, key), key, k) == WithKey(l[1..], key, k) + WithKey(r, key, k)
    ensures WithKey(Merge(l, r, key), key, k) == WithKey(l, key, k) + WithKey(r, key, k)
  {
    hide WithKey, Merge;
    MergeHead(l, r, key);
    WithKeyCons(l[0], l[1..], key, k);
    WithKeyCons(l[0], Merge(l[1..], r, key), key, k);
    assert l == [l[0]] + l[1..];
  }

  lemma StableRight<T>(l: seq<T>, r: seq<T>, key: T -> int, k: int)
    requires l != [] && r != [] && key(l[0]) > key(r[0])
    requires key(r[0]) == k ==> WithKey(l, key, k) == []
    requires WithKey(Merge(l, r[1..], key), key, k) == WithKey(l, key, k) + WithKey(r[1..], key, k)
    ensures WithKey(Merge(l, r, key), key, k) == WithKey(l, key, k) + WithKey(r, key, k)
  {
    hide WithKey, Merge;
    MergeHead(l, r, key);
    WithKeyCons(r[0], r[1..], key, k);
    WithKeyCons(r[0], Merge(l, r[1..], key), key, k);
    assert r == [r[0]] + r[1..];
  }

  /** The sort of a sequence is stable if the sorts of its halves are. */
  lemma StableFromHalves<T>(s: seq<T>, l: seq<T>, r: seq<T>, key: T -> int, k: int)
    requires s == l + r && Sort(s, key) == Merge(Sort(l, key), Sort(r, key), key)
    requires WithKey(Sort(l, key), key, k) == WithKey(l, key, k) && WithKey(Sort(r, key), key, k) == WithKey(r, key, k)
    ensures WithKey(Sort(s, key), key, k) == WithKey(s, key, k)
  {
    hide *;
    SortSorted(l, key);
    MergeStable(Sort(l, key), Sort(r, key), key, k);
    WithKeyConcat(l, r, key, k);
  }

  lemma {:induction false} SortStable<T>(s: seq<T>, key: T -> int, k: int)
    ensures WithKey(Sort(s, key), key, k) == WithKey(s, key, k)
    decreases |s|
  {
    if |s| > 1 {
      var l, r := Split(s, key);
      hide *;
      SortStable(l, key, k);
      SortStable(r, key, k);
      StableFromHalves(s, l, r, key, k);
    }
  }

  // ---------------------------------------------------------------- sortedness

  predicate AllAtLeast<T>(s: seq<T>, key: T -> int, k: int) {
    forall i | 0 <= i < |s| :: k <= key(s[i])
  }

  lemma {:induction false} MergeAtLeast<T>(l: seq<T>, r: seq<T>, key: T -> int, k: int)
    requires AllAtLeast(l, key, k) && AllAtLeast(r, key, k)
    ensures AllAtLeast(Merge(l, r, key), key, k)
    decreases |l| + |r|
  {
    if l != [] && r != [] {
      if key(l[0]) <= key(r[0]) { MergeAtLeast(l[1..], r, key, k); } else { MergeAtLeast(l, r[1..], key, k); }
    }
  }

  lemma SortedFrom<T>(x: T, s: seq<T>, key: T -> int)
    requires SortedBy(s, key) && AllAtLeast(s, key, key(x))
    ensures SortedBy([x] + s, key)
  {
  }

  lemma {:induction false} MergeSorted<T>(l: seq<T>, r: seq<T>, key: T -> int)
    requires SortedBy(l, key) && SortedBy(r, key)
    ensures SortedBy(Merge(l, r, key), key)
    decreases |l| + |r|
  {
    if l != [] && r != [] {
      if key(l[0]) <= key(r[0]) {
        MergeSorted(l[1..], r, key);
        MergeAtLeast(l[1..], r, key, key(l[0]));
        SortedFrom(l[0], Merge(l[1..], r, key), key);
      } else {
        MergeSorted(l, r[1..], key);
        MergeAtLeast(l, r[1..], key, key(r[0]));
        SortedFrom(r[0], Merge(l, r[1..], key), key);
      }
    }
  }

  lemma {:induction false} SortSorted<T>(s: seq<T>, key: T -> int)
    ensures SortedBy(Sort(s, key), key)
    decreases |s|
  {
    if |s| > 1 {
      SortSorted(s[..Half(|s|)], key);
      SortSorted(s[Half(|s|)..], key);
      MergeSorted(Sort(s[..Half(|s|)], key), Sort(s[Half(|s|)..], key), key);
    }
  }

  // ---------------------------------------------------------------- the stable sort

  lemma SameOrderTail<T>(s: seq<T>, t: seq<T>, key: T -> int)
    requires s != [] && t != [] && s[0] == t[0] && SameOrder(s, t, key)
    ensures SameOrder(s[1..], t[1..], key)
  {
    forall k ensures WithKey(s[1..], key, k) == WithKey(t[1..], key, k) {
      assert WithKey(s, key, k) == WithKey(t, key, k);
      var first := if key(s[0]) == k then [s[0]] else [];
      assert (first + WithKey(s[1..], key, k))[|first|..] == WithKey(s[1..], key, k);
      assert (first + WithKey(t[1..], key, k))[|first|..] == WithKey(t[1..], key, k);
    }
  }

  /** Two sorted sequences with equal keys in the same order start alike. */
  lemma SameHead<T>(s: seq<T>, t: seq<T>, key: T -> int)
    requires SortedBy(s, key) && SortedBy(t, key) && SameOrder(s, t, key) && s != []
    ensures t != [] && s[0] == t[0]
  {
    var k := key(s[0]);
    WithKeyNone(s, key, k);
    WithKeyNone(t, key, k);
    assert WithKey(s, key, k) == WithKey(t, key, k);
    var k' := key(t[0]);
    WithKeyNone(s, key, k');
    WithKeyNone(t, key, k');
    assert WithKey(s, key, k') == WithKey(t, key, k');
    assert k == k';
    assert WithKey(s, key, k)[0] == s[0] && WithKey(t, key, k)[0] == t[0];
  }

  lemma {:induction false} StableUnique<T>(s: seq<T>, t: seq<T>, key: T -> int)
    requires SortedBy(s, key) && SortedBy(t, key) && SameOrder(s, t, key)
    ensures s == t
    decreases |s|
  {
    if s != [] {
      SameHead(s, t, key);
      SameOrderTail(s, t, key);
      StableUnique(s[1..], t[1..], key);
      assert s == [s[0]] + s[1..] && t == [t[0]] + t[1..];
    } else if t != [] {
      SameHead(t, s, key);
    }
  }

  /** Merge sort computes the stable sort, and nothing else is one: a result is that of `merge_sort`
      exactly when it is sorted and has the elements of each key in their original order. */
  lemma SortIsTheStableSort<T>(s: seq<T>, t: seq<T>, key: T -> int)
    ensures t == Sort(s, key) <==> SortedBy(t, key) && SameOrder(t, s, key)
  {
    SortSorted(s, key);
    forall k ensures WithKey(Sort(s, key), key, k) == WithKey(s, key, k) { SortStable(s, key, k); }
    if SortedBy(t, key) && SameOrder(t, s, key) {
      assert SameOrder(t, Sort(s, key), key);
      StableUnique(t, Sort(s, key), key);
    }
  }

  lemma {:induction false} MergePermutes<T>(l: seq<T>, r: seq<T>, key: T -> int)
    ensures multiset(Merge(l, r, key)) == multiset(l) + multiset(r)
    decreases |l| + |r|
  {
    if l == [] || r == [] {
    } else {
      hide Merge;
      MergeHead(l, r, key);
      if key(l[0]) <= key(r[0]) {
        MergePermutes(l[1..], r, key);
        assert l == [l[0]] + l[1..];
      } else {
        MergePermutes(l, r[1..], key);
        assert r == [r[0]] + r[1..];
      }
    }
  }

  lemma {:induction false} SortPermutes<T>(s: seq<T>, key: T -> int)
    ensures multiset(Sort(s, key)) == multiset(s)
    decreases |s|
  {
    if |s| > 1 {
      var l, r := Split(s, key);
      hide *;
      SortPermutes(l, key);
      SortPermutes(r, key);
      MergePermutes(Sort(l, key), Sort(r, key), key);
      assert multiset(s) == multiset(l + r);
    }
  }

  // ---------------------------------------------------------------- comparisons

  /** The least c with n <= 2^c. */
  function CeilLog2(n: nat): nat {
    if n <= 1 then 0 else 1 + CeilLog2(Half(n))
  }

  lemma {:induction false} CeilLog2Is(n: nat)
    requires n >= 1
    ensures n <= Pow2(CeilLog2(n))
    ensures CeilLog2(n) > 0 ==> Pow2(CeilLog2(n) - 1) < n
  {
    if n > 1 { CeilLog2Is(Half(n)); }
  }

  /** The greatest number of comparisons for n elements. */
  function Worst(n: nat): nat {
    if n <= 1 then 0 else Worst(Half(n)) + Worst(n - Half(n)) + n - 1
  }

  lemma {:induction false} MergeTestsBound<T>(l: seq<T>, r: seq<T>, key: T -> int)
    ensures l != [] && r != [] ==> MergeTests(l, r, key) <= |l| + |r| - 1
    decreases |l| + |r|
  {
    if l != [] && r != [] {
      if key(l[0]) <= key(r[0]) { MergeTestsBound(l[1..], r, key); } else { MergeTestsBound(l, r[1..], key); }
    }
  }

  lemma SplitTests<T>(s: seq<T>, key: T -> int) returns (l: seq<T>, r: seq<T>)
    requires |s| > 1
    ensures |l| == Half(|s|) && |r| == |s| - Half(|s|)
    ensures Tests(s, key) == Tests(l, key) + Tests(r, key) + MergeTests(Sort(l, key), Sort(r, key), key)
  {
    l, r := s[..Half(|s|)], s[Half(|s|)..];
  }

  lemma WorstHalves(n: nat)
    requires n > 1
    ensures Worst(n) == Worst(Half(n)) + Worst(n - Half(n)) + n - 1
  {
  }

  lemma NothingToSort<T>(s: seq<T>, key: T -> int)
    requires |s| <= 1
    ensures Tests(s, key) == 0
  {
  }

  lemma {:induction false} TestsWorst<T>(s: seq<T>, key: T -> int)
    ensures Tests(s, key) <= Worst(|s|)
    decreases |s|
  {
    hide *;
    if |s| > 1 {
      var l, r := SplitTests(s, key);
      WorstHalves(|s|);
      TestsWorst(l, key);
      TestsWorst(r, key);
      MergeTestsBound(Sort(l, key), Sort(r, key), key);
    } else {
      NothingToSort(s, key);
    }
  }

  /** n * c - 2^c + 1, which for 2^(c-1) <= n <= 2^c does not depend on which such c is taken. */
  function ClosedForm(n: nat, c: nat): int {
    n * c - Pow2(c) + 1
  }

  lemma ExponentOfOne(c: nat)
    requires c > 0 ==> Pow2(c - 1) <= 1
    ensures Worst(1) == 0 == ClosedForm(1, c)
  {
    if c > 0 { Pow2Even(c - 1); }
  }

  lemma HalvesInRange(n: nat, c: nat)
    requires 1 < n <= Pow2(c) && (c > 0 ==> Pow2(c - 1) <= n)
    ensures c > 0
    ensures 1 <= n - Half(n) <= Half(n) <= Pow2(c - 1)
    ensures c > 1 ==> Pow2(c - 2) <= n - Half(n)
  {
    assert Pow2(c) == 2 * Pow2(c - 1);
    assert c > 1 ==> Pow2(c - 1) == 2 * Pow2(c - 2);
  }

  lemma ClosedSplit(a: nat, b: nat, c: nat)
    requires c > 0
    ensures ClosedForm(a, c - 1) + ClosedForm(b, c - 1) + (a + b) - 1 == ClosedForm(a + b, c)
  {
    assert a * (c - 1) == a * c - a;
    assert b * (c - 1) == b * c - b;
    assert (a + b) * c == a * c + b * c;
  }

  lemma {:induction false} WorstClosed(n: nat, c: nat)
    requires n >= 1 && n <= Pow2(c) && (c > 0 ==> Pow2(c - 1) <= n)
    ensures Worst(n) == ClosedForm(n, c)
    decreases n
  {
    hide *;
    if n == 1 {
      ExponentOfOne(c);
    } else {
      HalvesInRange(n, c);
      WorstHalves(n);
      WorstClosed(Half(n), c - 1);
      WorstClosed(n - Half(n), c - 1);
      ClosedSplit(Half(n), n - Half(n), c);
    }
  }

  /** On n >= 1 elements `merge_sort` evaluates its test at most n * ceil(log2 n) - 2^ceil(log2 n) + 1
      times. */
  lemma ComparisonBound<T>(s: seq<T>, key: T -> int)
    requires s != []
    ensures Tests(s, key) <= |s| * CeilLog2(|s|) - Pow2(CeilLog2(|s|)) + 1
  {
    TestsWorst(s, key);
    CeilLog2Is(|s|);
    WorstClosed(|s|, CeilLog2(|s|));
  }

  // ---------------------------------------------------------------- sorted input

  function Id(x: int): int { x }

  /** The comparisons on input that is in order: a merge compares each element of the left half, the
      larger one for an odd number, and nothing after it. */
  function InOrder(n: nat): nat {
    if n <= 1 then 0 else InOrder((n + 1) / 2) + InOrder(n / 2) + (n + 1) / 2
  }

  /** On input in reverse: each element of the right half. */
  function InReverse(n: nat): nat {
    if n <= 1 then 0 else InReverse((n + 1) / 2) + InReverse(n / 2) + n / 2
  }

  predicate Descending(s: seq<int>) {
    forall i, j | 0 <= i < j < |s| :: s[i] > s[j]
  }

  function Reversed(s: seq<int>): (r: seq<int>)
    ensures |r| == |s| && forall i | 0 <= i < |s| :: r[i] == s[|s| - 1 - i]
  {
    seq(|s|, i requires 0 <= i < |s| => s[|s| - 1 - i])
  }

  lemma {:induction false} MergeInOrder(l: seq<int>, r: seq<int>)
    requires r != [] && forall i, j | 0 <= i < |l| && 0 <= j < |r| :: l[i] <= r[j]
    ensures Merge(l, r, Id) == l + r && MergeTests(l, r, Id) == |l|
  {
    if l != [] {
      MergeInOrder(l[1..], r);
      assert l + r == [l[0]] + (l[1..] + r);
    }
  }

  lemma {:induction false} MergeInReverse(l: seq<int>, r: seq<int>)
    requires l != [] && forall i, j | 0 <= i < |l| && 0 <= j < |r| :: l[i] > r[j]
    ensures Merge(l, r, Id) == r + l && MergeTests(l, r, Id) == |r|
  {
    if r != [] {
      MergeInReverse(l, r[1..]);
      assert r + l == [r[0]] + (r[1..] + l);
    }
  }

  /** The two halves by the numbers, and what they cost in either order. */
  lemma ByHalves(s: seq<int>) returns (l: seq<int>, r: seq<int>)
    requires |s| > 1
    ensures l == s[..(|s| + 1) / 2] && r == s[(|s| + 1) / 2..] && |l| < |s| && |r| < |s|
    ensures Sort(s, Id) == Merge(Sort(l, Id), Sort(r, Id), Id)
    ensures Tests(s, Id) == Tests(l, Id) + Tests(r, Id) + MergeTests(Sort(l, Id), Sort(r, Id), Id)
    ensures InOrder(|s|) == InOrder(|l|) + InOrder(|r|) + |l|
    ensures InReverse(|s|) == InReverse(|l|) + InReverse(|r|) + |r|
  {
    assert Half(|s|) == (|s| + 1) / 2;
    hide *;
    l, r := s[..(|s| + 1) / 2], s[(|s| + 1) / 2..];
    SortSplit(s, l, r, Id);
    assert |l| == (|s| + 1) / 2 && |r| == |s| / 2;
    CostByHalves(|s|);
  }

  lemma CostByHalves(n: nat)
    requires n > 1
    ensures InOrder(n) == InOrder((n + 1) / 2) + InOrder(n / 2) + (n + 1) / 2
    ensures InReverse(n) == InReverse((n + 1) / 2) + InReverse(n / 2) + n / 2
  {
  }

  lemma OneInput(s: seq<int>)
    requires |s| <= 1
    ensures Sort(s, Id) == s == Reversed(s) && Tests(s, Id) == 0 == InOrder(|s|) == InReverse(|s|)
  {
  }

  /** What `merge_sort` costs on input that is in order already. */
  lemma {:induction false} SortedInput(s: seq<int>)
    requires SortedBy(s, Id)
    ensures Sort(s, Id) == s && Tests(s, Id) == InOrder(|s|)
    decreases |s|
  {
    hide Sort, Tests, Merge, MergeTests, InOrder, InReverse;
    if |s| > 1 {
      var l, r := ByHalves(s);
      SortedInput(l);
      SortedInput(r);
      MergeInOrder(l, r);
    } else {
      OneInput(s);
    }
  }

  lemma DescendingParts(s: seq<int>, k: nat)
    requires Descending(s) && 0 < k < |s|
    ensures Descending(s[..k]) && Descending(s[k..])
    ensures Reversed(s) == Reversed(s[k..]) + Reversed(s[..k])
    ensures forall i, j | 0 <= i < k && 0 <= j < |s| - k :: Reversed(s[..k])[i] > Reversed(s[k..])[j]
  {
  }

  /** And on input in reverse. */
  lemma {:induction false} ReversedInput(s: seq<int>)
    requires Descending(s)
    ensures Sort(s, Id) == Reversed(s) && Tests(s, Id) == InReverse(|s|)
    decreases |s|
  {
    hide Sort, Tests, Merge, MergeTests, InOrder, InReverse, Reversed, Descending;
    if |s| > 1 {
      var l, r := ByHalves(s);
      DescendingParts(s, (|s| + 1) / 2);
      ReversedInput(l);
      ReversedInput(r);
      MergeInReverse(Reversed(l), Reversed(r));
    } else {
      OneInput(s);
    }
  }

  // ---------------------------------------------------------------- the bound is attained

  function Evens(s: seq<int>): (r: seq<int>)
    ensures |r| == Half(|s|)
  {
    if s == [] then [] else [s[0]] + Odds(s[1..])
  }

  function Odds(s: seq<int>): (r: seq<int>)
    ensures |r| == |s| - Half(|s|)
  {
    if s == [] then [] else Evens(s[1..])
  }

  predicate Ascending(s: seq<int>) {
    forall i, j | 0 <= i < j < |s| :: s[i] < s[j]
  }

  /** Merging the two interleaved halves of an ascending sequence restores it, and every comparison
      that can be made is made. */
  lemma {:induction false} Interleaved(s: seq<int>)
    requires Ascending(s)
    ensures Merge(Evens(s), Odds(s), Id) == s && Merge(Odds(s), Evens(s), Id) == s
    ensures s != [] ==> MergeTests(Evens(s), Odds(s), Id) == |s| - 1 == MergeTests(Odds(s), Evens(s), Id)
    decreases |s|
  {
    if |s| >= 2 {
      Interleaved(s[1..]);
      assert Odds(s)[0] == s[1];
      assert Evens(s)[1..] == Odds(s[1..]);
      assert s == [s[0]] + s[1..];
    } else if |s| == 1 {
      assert s[1..] == [];
    }
  }

  /** An ascending sequence of which every merge of its sort takes alternate elements. */
  function Adversary(s: seq<int>): (r: seq<int>)
    ensures |r| == |s|
    decreases |s|
  {
    if |s| <= 1 then s else Adversary(Evens(s)) + Adversary(Odds(s))
  }

  lemma AscendFrom(x: int, t: seq<int>)
    requires Ascending(t) && forall i | 0 <= i < |t| :: x < t[i]
    ensures Ascending([x] + t)
  {
  }

  lemma {:induction false} HalvesAscend(s: seq<int>)
    requires Ascending(s)
    ensures Ascending(Evens(s)) && Ascending(Odds(s))
    ensures forall x | x in Evens(s) || x in Odds(s) :: x in s
  {
    if s != [] {
      HalvesAscend(s[1..]);
      assert forall x | x in s[1..] :: s[0] < x;
      forall i | 0 <= i < |Odds(s[1..])| ensures s[0] < Odds(s[1..])[i] {
        assert Odds(s[1..])[i] in Odds(s[1..]);
      }
      AscendFrom(s[0], Odds(s[1..]));
    }
  }

  lemma {:induction false} AdversaryWorst(s: seq<int>)
    requires Ascending(s)
    ensures Sort(Adversary(s), Id) == s && Tests(Adversary(s), Id) == Worst(|s|)
    decreases |s|
  {
    if |s| > 1 {
      var l, r := Evens(s), Odds(s);
      HalvesAscend(s);
      AdversaryWorst(l);
      AdversaryWorst(r);
      var t := Adversary(s);
      assert t[..Half(|t|)] == Adversary(l) && t[Half(|t|)..] == Adversary(r);
      SortSplit(t, Adversary(l), Adversary(r), Id);
      Interleaved(s);
    }
  }

  /** For every n >= 1 some n integers make `merge_sort` reach the bound. */
  lemma BoundAttained(n: nat) returns (s: seq<int>)
    requires n >= 1
    ensures |s| == n && Tests(s, Id) == n * CeilLog2(n) - Pow2(CeilLog2(n)) + 1
  {
    hide Sort, Tests, Adversary, Worst, Pow2, CeilLog2;
    var up := seq(n, i => i);
    s := Adversary(up);
    AdversaryWorst(up);
    CeilLog2Is(n);
    WorstClosed(n, CeilLog2(n));
  }
}
