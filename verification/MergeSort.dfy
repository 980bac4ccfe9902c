/**
  Merge sort in place: a stable sort, and how many comparisons it makes. Elements are compared by an
  integer key; the source sorts plain integers, which are their own keys.
 */
module MergeSort {
  // ---------------------------------------------------------------- what the loops compute

  function Merge<T>(l: seq<T>, r: seq<T>, key: T -> int): (m: seq<T>)
    ensures |m| == |l| + |r|
  {
    if l == [] then r
    else if r == [] then l
    else if key(l[0]) <= key(r[0]) then [l[0]] + Merge(l[1..], r, key)
    else [r[0]] + Merge(l, r[1..], key)
  }

  /** How often the merging loop evaluates its test. */
  function MergeTests<T>(l: seq<T>, r: seq<T>, key: T -> int): nat {
    if l == [] || r == [] then 0
    else if key(l[0]) <= key(r[0]) then 1 + MergeTests(l[1..], r, key)
    else 1 + MergeTests(l, r[1..], key)
  }

  /** The size of the left half: the middle element belongs to it. */
  function Half(n: nat): (h: nat)
    ensures n > 1 ==> 0 < h < n
    ensures h <= n
  {
    (n + 1) / 2
  }

  function Sort<T>(s: seq<T>, key: T -> int): (t: seq<T>)
    ensures |t| == |s|
  {
    if |s| <= 1 then s
    else Merge(Sort(s[..Half(|s|)], key), Sort(s[Half(|s|)..], key), key)
  }

  function Tests<T>(s: seq<T>, key: T -> int): nat {
    if |s| <= 1 then 0
    else
      var l, r := s[..Half(|s|)], s[Half(|s|)..];
      Tests(l, key) + Tests(r, key) + MergeTests(Sort(l, key), Sort(r, key), key)
  }

  // ---------------------------------------------------------------- in place

  /** `s` with the segment that starts at `at` overwritten by `x`. */
  function Patch<T>(s: seq<T>, at: nat, x: seq<T>): (r: seq<T>)
    requires at + |x| <= |s|
    ensures |r| == |s|
  {
    if x == [] then s else Patch(s, at, x[..|x| - 1])[at + |x| - 1 := x[|x| - 1]]
  }

  lemma {:induction false} PatchAt<T>(s: seq<T>, at: nat, x: seq<T>, i: nat)
    requires at + |x| <= |s| && i < |s|
    ensures Patch(s, at, x)[i] == if at <= i < at + |x| then x[i - at] else s[i]
  {
    if x != [] { PatchAt(s, at, x[..|x| - 1], i); }
  }

  lemma PatchSlices<T>(s: seq<T>, at: nat, x: seq<T>, lo: nat, hi: nat)
    requires at + |x| <= |s| && lo <= hi <= |s|
    ensures Patch(s, at, x)[at..at + |x|] == x
    ensures hi <= at || at + |x| <= lo ==> Patch(s, at, x)[lo..hi] == s[lo..hi]
  {
    var p := Patch(s, at, x);
    forall i | 0 <= i < |s| ensures p[i] == if at <= i < at + |x| then x[i - at] else s[i] { PatchAt(s, at, x, i); }
  }

  /** A segment grows by one element. */
  lemma PatchPut<T>(s: seq<T>, at: nat, done: seq<T>, x: T)
    requires at + |done| < |s|
    ensures Patch(s, at, done)[at + |done| := x] == Patch(s, at, done + [x])
  {
    assert (done + [x])[..|done|] == done;
  }

  /** Two patches of the same segment: only the second is seen. */
  lemma PatchOver<T>(s: seq<T>, at: nat, x: seq<T>, y: seq<T>, m: seq<T>)
    requires at + |x| + |y| <= |s| && |m| == |x| + |y|
    ensures Patch(Patch(Patch(s, at, x), at + |x|, y), at, m) == Patch(s, at, m)
  {
    var s1 := Patch(s, at, x);
    var s2 := Patch(s1, at + |x|, y);
    forall i | 0 <= i < |s| ensures Patch(s2, at, m)[i] == Patch(s, at, m)[i] {
      PatchAt(s2, at, m, i);
      PatchAt(s1, at + |x|, y, i);
      PatchAt(s, at, x, i);
      PatchAt(s, at, m, i);
    }
  }

  /** One turn of the merging loop moves the next element of the merge to what is done. */
  lemma MergeTurn<T>(done: seq<T>, l: seq<T>, r: seq<T>, i: nat, j: nat, key: T -> int)
    requires i < |l| && j < |r|
    ensures key(l[i]) <= key(r[j]) ==>
              done + Merge(l[i..], r[j..], key) == done + [l[i]] + Merge(l[i + 1..], r[j..], key)
              && MergeTests(l[i..], r[j..], key) == 1 + MergeTests(l[i + 1..], r[j..], key)
    ensures key(l[i]) > key(r[j]) ==>
              done + Merge(l[i..], r[j..], key) == done + [r[j]] + Merge(l[i..], r[j + 1..], key)
              && MergeTests(l[i..], r[j..], key) == 1 + MergeTests(l[i..], r[j + 1..], key)
  {
    assert l[i..][1..] == l[i + 1..] && r[j..][1..] == r[j + 1..];
    Regroup(done, l[i], Merge(l[i + 1..], r[j..], key));
    Regroup(done, r[j], Merge(l[i..], r[j + 1..], key));
  }

  lemma Regroup<T>(a: seq<T>, x: T, b: seq<T>)
    ensures a + ([x] + b) == a + [x] + b
  {
  }

  /** When a run is used up, the other is what is left. */
  lemma MergeEnd<T>(done: seq<T>, l: seq<T>, r: seq<T>, i: nat, j: nat, key: T -> int)
    requires i <= |l| && j <= |r| && (i == |l| || j == |r|)
    ensures done + Merge(l[i..], r[j..], key) == done + (l[i..] + r[j..])
    ensures MergeTests(l[i..], r[j..], key) == 0
  {
  }

  lemma MergeStart<T>(l: seq<T>, r: seq<T>, key: T -> int)
    ensures [] + Merge(l[0..], r[0..], key) == Merge(l, r, key)
    ensures MergeTests(l[0..], r[0..], key) == MergeTests(l, r, key)
  {
    assert l[0..] == l && r[0..] == r;
  }

  /** The merging loop of `merge`; it ends with one run used up, and `done` merged so far. */
  method MergeLoop<T>(arr: array<T>, left: nat, l: seq<T>, r: seq<T>, key: T -> int)
    returns (i: nat, j: nat, ghost done: seq<T>, ghost tests: nat)
    requires left + |l| + |r| <= arr.Length && l != [] && r != []
    modifies arr
    ensures i <= |l| && j <= |r| && (i == |l| || j == |r|) && |done| == i + j
    ensures arr[..] == Patch(old(arr[..]), left, done)
    ensures done + (l[i..] + r[j..]) == Merge(l, r, key)
    ensures tests == MergeTests(l, r, key)
  {
    var k := left;
    i, j, tests, done := 0, 0, 0, [];
    ghost var whole, allTests := Merge(l, r, key), MergeTests(l, r, key);
    MergeStart(l, r, key);
    while i < |l| && j < |r|
      invariant i <= |l| && j <= |r| && k == left + i + j && |done| == i + j
      invariant arr[..] == Patch(old(arr[..]), left, done)
      invariant done + Merge(l[i..], r[j..], key) == whole
      invariant tests + MergeTests(l[i..], r[j..], key) == allTests
      decreases |l| - i + |r| - j
    {
      MergeTurn(done, l, r, i, j, key);
      tests := tests + 1;
      if key(l[i]) <= key(r[j]) {
        PatchPut(old(arr[..]), left, done, l[i]);
        arr[k] := l[i];
        done := done + [l[i]];
        i := i + 1;
      } else {
        PatchPut(old(arr[..]), left, done, r[j]);
        arr[k] := r[j];
        done := done + [r[j]];
        j := j + 1;
      }
      k := k + 1;
    }
    MergeEnd(done, l, r, i, j, key);
  }

  /** A copying loop of `merge`: what is left of a run moves behind what is done. */
  method CopyRest<T>(arr: array<T>, left: nat, k: nat, run: seq<T>, start: nat,
                     ghost before: seq<T>, ghost done: seq<T>)
    requires start <= |run| && k == left + |done| && k + (|run| - start) <= arr.Length == |before|
    requires arr[..] == Patch(before, left, done)
    modifies arr
    ensures arr[..] == Patch(before, left, done + run[start..])
  {
    assert done + run[start..start] == done;
    for i := start to |run|
      invariant arr[..] == Patch(before, left, done + run[start..i])
    {
      PatchPut(before, left, done + run[start..i], run[i]);
      arr[k + (i - start)] := run[i];
      assert done + run[start..i] + [run[i]] == done + run[start..i + 1];
    }
    assert run[start..|run|] == run[start..];
  }

  /** `merge`, with the number of times its comparison is evaluated. */
  method MergeRuns<T>(arr: array<T>, left: nat, middle: nat, right: nat, key: T -> int) returns (ghost tests: nat)
    requires left <= middle < right < arr.Length
    modifies arr
    ensures var a := old(arr[..]);
            var l, r := a[left..middle + 1], a[middle + 1..right + 1];
            arr[..] == Patch(a, left, Merge(l, r, key)) && tests == MergeTests(l, r, key)
  {
    hide Merge, MergeTests, Patch;
    var l, r := arr[..][left..middle + 1], arr[..][middle + 1..right + 1];
    var i, j;
    ghost var a, done := arr[..], [];
    i, j, done, tests := MergeLoop(arr, left, l, r, key);
    CopyRest(arr, left, left + i + j, l, i, a, done);
    CopyRest(arr, left, left + |l| + j, r, j, a, done + l[i..]);
    assert done + l[i..] + r[j..] == done + (l[i..] + r[j..]);
  }

  /** `merge_sort` on the segment from `left` to `right`: it is replaced by its stable sort, and
      nothing outside it changes. */
  method SortSegment<T>(arr: array<T>, left: int, right: int, key: T -> int) returns (ghost tests: nat)
    requires left < right ==> 0 <= left && right < arr.Length
    modifies arr
    ensures left >= right ==> arr[..] == old(arr[..]) && tests == 0
    ensures 0 <= left <= right < arr.Length ==>
              var a := old(arr[..]);
              arr[..] == Patch(a, left, Sort(a[left..right + 1], key)) && tests == Tests(a[left..right + 1], key)
    decreases right - left
  {
    hide Sort, Tests, Merge, MergeTests, Patch;
    tests := 0;
    if left < right {
      var middle := left + (right - left) / 2;
      SortHalves(arr[..], left, middle, right, key);
      var t1 := SortSegment(arr, left, middle, key);
      var t2 := SortSegment(arr, middle + 1, right, key);
      var t3 := MergeRuns(arr, left, middle, right, key);
      tests := t1 + t2 + t3;
    } else if 0 <= left == right < arr.Length {
      SortOne(arr[..], left, key);
    }
  }

  lemma SortSplit<T>(s: seq<T>, l: seq<T>, r: seq<T>, key: T -> int)
    requires |s| > 1 && l == s[..Half(|s|)] && r == s[Half(|s|)..]
    ensures Sort(s, key) == Merge(Sort(l, key), Sort(r, key), key)
    ensures Tests(s, key) == Tests(l, key) + Tests(r, key) + MergeTests(Sort(l, key), Sort(r, key), key)
  {
  }

  lemma Halves<T>(a: seq<T>, left: nat, middle: nat, right: nat)
    requires left < right < |a| && middle == left + (right - left) / 2
    ensures var s := a[left..right + 1];
            s[..Half(|s|)] == a[left..middle + 1] && s[Half(|s|)..] == a[middle + 1..right + 1]
  {
    var s := a[left..right + 1];
    assert Half(|s|) == middle + 1 - left;
    assert a[left..right + 1][middle + 1 - left..] == a[middle + 1..right + 1];
  }

  lemma PatchHalves<T>(a: seq<T>, left: nat, mid: nat, end: nat, x: seq<T>, y: seq<T>, m: seq<T>)
    requires left <= mid <= end <= |a| && |x| == mid - left && |y| == end - mid && |m| == end - left
    ensures var a1 := Patch(a, left, x);
            var a2 := Patch(a1, mid, y);
            && a1[mid..end] == a[mid..end] && a2[left..mid] == x && a2[mid..end] == y
            && Patch(a2, left, m) == Patch(a, left, m)
  {
    var a1 := Patch(a, left, x);
    PatchSlices(a, left, x, mid, end);
    PatchSlices(a1, mid, y, left, mid);
    PatchOver(a, left, x, y, m);
  }

  /** The two recursive calls and the merge, on the contents of the array. */
  lemma SortHalves<T>(a: seq<T>, left: nat, middle: nat, right: nat, key: T -> int)
    requires left < right < |a| && middle == left + (right - left) / 2
    ensures var s, l, r := a[left..right + 1], a[left..middle + 1], a[middle + 1..right + 1];
            var a1 := Patch(a, left, Sort(l, key));
            var a2 := Patch(a1, middle + 1, Sort(r, key));
            && a1[middle + 1..right + 1] == r
            && a2[left..middle + 1] == Sort(l, key) && a2[middle + 1..right + 1] == Sort(r, key)
            && Patch(a2, left, Merge(Sort(l, key), Sort(r, key), key)) == Patch(a, left, Sort(s, key))
            && Tests(l, key) + Tests(r, key) + MergeTests(Sort(l, key), Sort(r, key), key) == Tests(s, key)
  {
    hide Sort, Tests, Merge, MergeTests, Patch;
    var s, l, r := a[left..right + 1], a[left..middle + 1], a[middle + 1..right + 1];
    Halves(a, left, middle, right);
    SortSplit(s, l, r, key);
    PatchHalves(a, left, middle + 1, right + 1, Sort(l, key), Sort(r, key), Sort(s, key));
  }

  /** Sorting a segment of one element leaves everything in place, as the code does. */
  lemma SortOne<T>(a: seq<T>, i: nat, key: T -> int)
    requires i < |a|
    ensures Patch(a, i, Sort(a[i..i + 1], key)) == a && Tests(a[i..i + 1], key) == 0
  {
    var one := a[i..i + 1];
    forall k | 0 <= k < |a| ensures Patch(a, i, one)[k] == a[k] { PatchAt(a, i, one, k); }
  }
}
