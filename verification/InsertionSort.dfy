/** The three insertion sorts of pdqsort: guarded, unguarded (a sentinel sits before the range) and
    partial (gives up once more than eight moves were needed). */
module InsertionSort {
  import opened Ordering

  const PARTIAL_INSERTION_SORT_LIMIT := 8

  /** `s` with the element at `cur` taken out and put back at `sift`. */
  function Inserted<T>(s: seq<T>, sift: int, cur: int): seq<T>
    requires 0 <= sift <= cur < |s|
  {
    s[..sift] + [s[cur]] + s[sift..cur] + s[cur + 1..]
  }

  lemma MovedIsInserted<T>(s: seq<T>, t: seq<T>, sift: int, cur: int)
    requires 0 <= sift <= cur < |s| == |t| && t[sift] == s[cur]
    requires forall k :: 0 <= k < |s| && (k < sift || cur < k) ==> t[k] == s[k]
    requires forall k :: sift < k <= cur ==> t[k] == s[k - 1]
    ensures t == Inserted(s, sift, cur)
  {
  }

  lemma InsertedIsPerm<T>(s: seq<T>, sift: int, cur: int, lo: int)
    requires 0 <= lo <= sift <= cur < |s|
    ensures PermWithin(s, Inserted(s, sift, cur), lo, cur + 1)
  {
    var t := Inserted(s, sift, cur);
    SameElements(s[..sift], s[sift..cur], s[cur], s[cur + 1..]);
    assert s == s[..sift] + s[sift..cur] + [s[cur]] + s[cur + 1..];
    assert multiset(s) == multiset(t);
    hide Inserted;
    InsertedFrame(s, sift, cur);
  }

  lemma InsertedFrame<T>(s: seq<T>, sift: int, cur: int)
    requires 0 <= sift <= cur < |s|
    ensures |Inserted(s, sift, cur)| == |s|
    ensures forall k :: 0 <= k < |s| && !(sift <= k <= cur) ==> s[k] == Inserted(s, sift, cur)[k]
  {
  }

  lemma SameElements<T>(before: seq<T>, moved: seq<T>, x: T, after: seq<T>)
    ensures multiset(before + moved + [x] + after) == multiset(before + [x] + moved + after)
  {
    assert multiset(before + moved + [x]) == multiset(before) + multiset(moved) + multiset{x};
    assert multiset(before + [x] + moved) == multiset(before) + multiset{x} + multiset(moved);
  }

  /** Everything at or after the insertion point is greater than the inserted element and
      everything before it is not: the insertion point is the only one that keeps the sort stable. */
  ghost predicate IsInsertionPoint<T>(less: Comparator<T>, s: seq<T>, lo: int, sift: int, cur: int)
    requires 0 <= lo <= sift <= cur < |s|
  {
    && (forall j :: lo <= j < sift ==> !less(s[cur], s[j]))
    && (forall j :: sift <= j < cur ==> less(s[cur], s[j]))
  }

  lemma InsertedIsSorted<T(!new)>(less: Comparator<T>, s: seq<T>, lo: int, sift: int, cur: int)
    requires StrictWeakOrder(less)
    requires 0 <= lo <= sift <= cur < |s|
    requires SortedWithin(less, s, lo, cur)
    requires IsInsertionPoint(less, s, lo, sift, cur)
    ensures SortedWithin(less, Inserted(s, sift, cur), lo, cur + 1)
  {
    forall j | sift <= j < cur ensures !less(s[j], s[cur]) {
      Asymmetric(less, s[cur], s[j]);
    }
  }

  /** A sorted prefix has a downward-closed set of elements that are not greater than `x`, so the
      first one met from the right bounds all of them. */
  lemma StopIsInsertionPoint<T(!new)>(less: Comparator<T>, s: seq<T>, lo: int, sift: int, cur: int)
    requires StrictWeakOrder(less)
    requires 0 <= lo <= sift <= cur < |s|
    requires SortedWithin(less, s, lo, cur)
    requires lo < sift ==> !less(s[cur], s[sift - 1])
    requires forall j :: sift <= j < cur ==> less(s[cur], s[j])
    ensures IsInsertionPoint(less, s, lo, sift, cur)
  {
    forall j | lo <= j < sift ensures !less(s[cur], s[j]) {
      if j < sift - 1 {
        NotLessTransitive(less, s[j], s[sift - 1], s[cur]);
      }
    }
  }

  /** The body of the guarded loops: moves `a[cur]` down to its place in the sorted `[begin, cur)`. */
  method SiftGuarded<T(!new)>(a: array<T>, less: Comparator<T>, begin: int, cur: int) returns (sift: int)
    requires StrictWeakOrder(less)
    requires 0 <= begin < cur < a.Length
    requires SortedWithin(less, a[..], begin, cur)
    modifies a
    ensures begin <= sift <= cur
    ensures a[..] == Inserted(old(a[..]), sift, cur)
    ensures IsInsertionPoint(less, old(a[..]), begin, sift, cur)
  {
    hide StrictWeakOrder, SortedWithin, Inserted, IsInsertionPoint;
    ghost var s := a[..];
    sift := cur;
    var sift1 := cur - 1;
    if less(a[sift], a[sift1]) {
      var tmp := a[sift];
      var more := true;
      while more
        invariant begin <= sift <= cur
        invariant more ==> begin < sift && sift1 == sift - 1 && less(tmp, s[sift1])
        invariant !more ==> sift < cur && (begin < sift ==> !less(tmp, s[sift - 1]))
        invariant forall k :: 0 <= k < a.Length && (k <= sift || cur < k) ==> a[k] == s[k]
        invariant forall k :: sift < k <= cur ==> a[k] == s[k - 1]
        invariant forall k :: sift <= k < cur ==> less(tmp, s[k])
        decreases sift
      {
        a[sift] := a[sift1];
        sift := sift - 1;
        more := sift != begin;
        if more {
          sift1 := sift1 - 1;
          more := less(tmp, a[sift1]);
        }
      }
      a[sift] := tmp;
    }
    MovedIsInserted(s, a[..], sift, cur);
    StopIsInsertionPoint(less, s, begin, sift, cur);
  }

  /** Sorts `[begin, end)`. */
  method InsertionSort<T(!new)>(a: array<T>, less: Comparator<T>, begin: int, end: int)
    requires StrictWeakOrder(less)
    requires 0 <= begin <= end <= a.Length
    modifies a
    ensures PermWithin(old(a[..]), a[..], begin, end)
    ensures SortedWithin(less, a[..], begin, end)
  {
    if begin == end { return; }
    var cur := begin + 1;
    while cur != end
      invariant begin < cur <= end
      invariant PermWithin(old(a[..]), a[..], begin, end)
      invariant SortedWithin(less, a[..], begin, cur)
    {
      ghost var s := a[..];
      var sift := SiftGuarded(a, less, begin, cur);
      InsertedIsPerm(s, sift, cur, begin);
      InsertedIsSorted(less, s, begin, sift, cur);
      cur := cur + 1;
    }
  }

  /** The element before the range is not greater than anything in it. */
  ghost predicate Sentinel<T>(less: Comparator<T>, s: seq<T>, begin: int, end: int) {
    && 1 <= begin <= end <= |s|
    && forall k :: begin <= k < end ==> !less(s[k], s[begin - 1])
  }

  lemma SentinelPerm<T(!new)>(less: Comparator<T>, s: seq<T>, t: seq<T>, begin: int, end: int)
    requires Sentinel(less, s, begin, end) && PermWithin(s, t, begin, end)
    ensures Sentinel(less, t, begin, end)
  {
    PermAll(s, t, begin, end, x => !less(x, s[begin - 1]));
  }

  /** As `SiftGuarded` without the test against `begin`: the sentinel stops the scan. */
  method SiftUnguarded<T(!new)>(a: array<T>, less: Comparator<T>, begin: int, cur: int) returns (sift: int)
    requires StrictWeakOrder(less)
    requires 0 <= begin < cur < a.Length
    requires SortedWithin(less, a[..], begin, cur)
    requires Sentinel(less, a[..], begin, cur + 1)
    modifies a
    ensures begin <= sift <= cur
    ensures a[..] == Inserted(old(a[..]), sift, cur)
    ensures IsInsertionPoint(less, old(a[..]), begin, sift, cur)
  {
    ghost var s := a[..];
    assert !less(s[cur], s[begin - 1]);
    hide StrictWeakOrder, SortedWithin, Inserted, IsInsertionPoint, Sentinel;
    sift := cur;
    var sift1 := cur - 1;
    if less(a[sift], a[sift1]) {
      var tmp := a[sift];
      var more := true;
      while more
        invariant begin <= sift <= cur
        invariant more ==> begin < sift && sift1 == sift - 1 && less(tmp, s[sift1])
        invariant !more ==> sift < cur && !less(tmp, s[sift - 1])
        invariant forall k :: 0 <= k < a.Length && (k <= sift || cur < k) ==> a[k] == s[k]
        invariant forall k :: sift < k <= cur ==> a[k] == s[k - 1]
        invariant forall k :: sift <= k < cur ==> less(tmp, s[k])
        decreases sift
      {
        a[sift] := a[sift1];
        sift := sift - 1;
        sift1 := sift1 - 1;
        more := less(tmp, a[sift1]);
      }
      a[sift] := tmp;
    }
    MovedIsInserted(s, a[..], sift, cur);
    StopIsInsertionPoint(less, s, begin, sift, cur);
  }

  /** Sorts `[begin, end)`, every comparison in bounds although no scan tests for `begin`. */
  method UnguardedInsertionSort<T(!new)>(a: array<T>, less: Comparator<T>, begin: int, end: int)
    requires StrictWeakOrder(less)
    requires 0 <= begin <= end <= a.Length
    requires Sentinel(less, a[..], begin, end)
    modifies a
    ensures PermWithin(old(a[..]), a[..], begin, end)
    ensures SortedWithin(less, a[..], begin, end)
  {
    if begin == end { return; }
    var cur := begin + 1;
    while cur != end
      invariant begin < cur <= end
      invariant PermWithin(old(a[..]), a[..], begin, end)
      invariant SortedWithin(less, a[..], begin, cur)
    {
      ghost var s := a[..];
      SentinelPerm(less, old(a[..]), s, begin, end);
      var sift := SiftUnguarded(a, less, begin, cur);
      InsertedIsPerm(s, sift, cur, begin);
      InsertedIsSorted(less, s, begin, sift, cur);
      cur := cur + 1;
    }
  }

  /** How many elements of `u` are greater than `x`. */
  ghost function CountGreater<T>(less: Comparator<T>, u: seq<T>, x: T): nat {
    if u == [] then 0
    else CountGreater(less, u[..|u| - 1], x) + (if less(x, u[|u| - 1]) then 1 else 0)
  }

  /** The number of pairs of `u` that stand in the wrong order. */
  ghost function Inversions<T>(less: Comparator<T>, u: seq<T>): nat {
    if u == [] then 0
    else Inversions(less, u[..|u| - 1]) + CountGreater(less, u[..|u| - 1], u[|u| - 1])
  }

  lemma {:induction false} CountGreaterConcat<T>(less: Comparator<T>, u: seq<T>, v: seq<T>, x: T)
    ensures CountGreater(less, u + v, x) == CountGreater(less, u, x) + CountGreater(less, v, x)
  {
    if v == [] {
      assert u + v == u;
    } else {
      assert (u + v)[..|u + v| - 1] == u + v[..|v| - 1];
      CountGreaterConcat(less, u, v[..|v| - 1], x);
    }
  }

  lemma {:induction false} CountGreaterPerm<T>(less: Comparator<T>, u: seq<T>, v: seq<T>, x: T)
    requires multiset(u) == multiset(v)
    ensures CountGreater(less, u, x) == CountGreater(less, v, x)
    decreases |u|
  {
    if u == [] {
      assert |v| == |multiset(v)|;
    } else {
      var y := u[|u| - 1];
      assert u == u[..|u| - 1] + [y];
      assert y in multiset(v);
      var k :| 0 <= k < |v| && v[k] == y;
      assert v == v[..k] + [y] + v[k + 1..];
      var w := v[..k] + v[k + 1..];
      assert multiset(u[..|u| - 1]) == multiset(u) - multiset{y} == multiset(v) - multiset{y} == multiset(w);
      CountGreaterPerm(less, u[..|u| - 1], w, x);
      CountGreaterConcat(less, v[..k], v[k + 1..], x);
      CountGreaterConcat(less, v[..k] + [y], v[k + 1..], x);
      CountGreaterConcat(less, v[..k], [y], x);
      CountGreaterConcat(less, u[..|u| - 1], [y], x);
    }
  }

  lemma {:induction false} CountGreaterSplit<T>(less: Comparator<T>, u: seq<T>, k: int, x: T)
    requires 0 <= k <= |u|
    requires forall j :: 0 <= j < k ==> !less(x, u[j])
    requires forall j :: k <= j < |u| ==> less(x, u[j])
    ensures CountGreater(less, u, x) == |u| - k
  {
    if u != [] {
      CountGreaterSplit(less, u[..|u| - 1], if k == |u| then k - 1 else k, x);
    }
  }

  lemma {:induction false} InversionsMonotone<T>(less: Comparator<T>, u: seq<T>, k: int)
    requires 0 <= k <= |u|
    ensures Inversions(less, u[..k]) <= Inversions(less, u)
    decreases |u|
  {
    if k < |u| {
      assert u[..|u| - 1][..k] == u[..k];
      InversionsMonotone(less, u[..|u| - 1], k);
    } else {
      assert u[..k] == u;
    }
  }

  /** The moves of one insertion are the inversions the inserted element takes part in. */
  lemma SiftCountsInversions<T(!new)>(less: Comparator<T>, s0: seq<T>, s: seq<T>, lo: int, sift: int, cur: int)
    requires 0 <= lo <= sift <= cur < |s| == |s0|
    requires PermWithin(s0, s, lo, cur)
    requires IsInsertionPoint(less, s, lo, sift, cur)
    ensures Inversions(less, s0[lo..cur + 1]) == Inversions(less, s0[lo..cur]) + (cur - sift)
  {
    var u := s0[lo..cur + 1];
    assert u[..|u| - 1] == s0[lo..cur] && u[|u| - 1] == s0[cur] == s[cur];
    PermSlices(s0, s, lo, cur);
    CountGreaterPerm(less, s0[lo..cur], s[lo..cur], s[cur]);
    CountGreaterSplit(less, s[lo..cur], sift - lo, s[cur]);
  }

  /** One step of the loop below, on the values: the range grows by one and stays sorted. */
  lemma SiftStep<T(!new)>(less: Comparator<T>, s0: seq<T>, s: seq<T>, lo: int, sift: int, cur: int)
    requires StrictWeakOrder(less)
    requires 0 <= lo <= sift <= cur < |s|
    requires PermWithin(s0, s, lo, cur)
    requires SortedWithin(less, s, lo, cur)
    requires IsInsertionPoint(less, s, lo, sift, cur)
    ensures PermWithin(s0, Inserted(s, sift, cur), lo, cur + 1)
    ensures SortedWithin(less, Inserted(s, sift, cur), lo, cur + 1)
    ensures Inversions(less, s0[lo..cur + 1]) == Inversions(less, s0[lo..cur]) + (cur - sift)
  {
    InsertedIsPerm(s, sift, cur, lo);
    InsertedIsSorted(less, s, lo, sift, cur);
    SiftCountsInversions(less, s0, s, lo, sift, cur);
  }

  lemma InversionsPrefix<T>(less: Comparator<T>, s: seq<T>, lo: int, mid: int, hi: int)
    requires 0 <= lo <= mid <= hi <= |s|
    ensures Inversions(less, s[lo..mid]) <= Inversions(less, s[lo..hi])
  {
    assert s[lo..hi][..mid - lo] == s[lo..mid];
    InversionsMonotone(less, s[lo..hi], mid - lo);
  }

  /** Succeeds, leaving the range sorted, exactly when at most eight pairs were out of order. */
  method PartialInsertionSort<T(!new)>(a: array<T>, less: Comparator<T>, begin: int, end: int) returns (done: bool)
    requires StrictWeakOrder(less)
    requires 0 <= begin <= end <= a.Length
    modifies a
    ensures PermWithin(old(a[..]), a[..], begin, end)
    ensures done ==> SortedWithin(less, a[..], begin, end)
    ensures done <==> Inversions(less, old(a[begin..end])) <= PARTIAL_INSERTION_SORT_LIMIT
  {
    if begin == end { return true; }
    var limit := 0;
    var cur := begin + 1;
    ghost var s0 := a[..];
    assert s0[begin..end] == a[begin..end] && s0[begin..cur] == [s0[begin]];
    while cur != end
      invariant begin < cur <= end
      invariant PermWithin(s0, a[..], begin, cur)
      invariant SortedWithin(less, a[..], begin, cur)
      invariant limit == Inversions(less, s0[begin..cur])
      invariant limit <= PARTIAL_INSERTION_SORT_LIMIT
    {
      ghost var s := a[..];
      var sift := SiftGuarded(a, less, begin, cur);
      SiftStep(less, s0, s, begin, sift, cur);
      limit := limit + (cur - sift);
      if limit > PARTIAL_INSERTION_SORT_LIMIT {
        InversionsPrefix(less, s0, begin, cur + 1, end);
        return false;
      }
      cur := cur + 1;
    }
    return true;
  }
}
