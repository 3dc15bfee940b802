/** The choice of the pivot: the median of three elements, or of nine in longer ranges. */
module PdqPivot {
  import opened Ordering
  import opened Partition

  const INSERTION_SORT_THRESHOLD := 24
  const NINTHER_THRESHOLD := 128

  // ---------------------------------------------------------------- on sequences

  ghost function Ordered2<T>(less: Comparator<T>, s: seq<T>, i: int, j: int): (t: seq<T>)
    requires 0 <= i < |s| && 0 <= j < |s|
    ensures |t| == |s|
  {
    if less(s[j], s[i]) then Swapped(s, i, j) else s
  }

  ghost function Ordered3<T>(less: Comparator<T>, s: seq<T>, i: int, j: int, k: int): (t: seq<T>)
    requires 0 <= i < |s| && 0 <= j < |s| && 0 <= k < |s|
    ensures |t| == |s|
  {
    Ordered2(less, Ordered2(less, Ordered2(less, s, i, j), j, k), i, j)
  }

  ghost function Triples<T>(less: Comparator<T>, s: seq<T>, begin: int, mid: int, end: int): (t: seq<T>)
    requires 0 <= begin && begin + 5 < mid && mid + 5 < end <= |s|
    ensures |t| == |s|
  {
    var s1 := Ordered3(less, s, begin, mid, end - 1);
    var s2 := Ordered3(less, s1, begin + 1, mid - 1, end - 2);
    var s3 := Ordered3(less, s2, begin + 2, mid + 1, end - 3);
    Ordered3(less, s3, mid - 1, mid, mid + 1)
  }

  /** The range with its pivot in front. */
  ghost function Chosen<T>(less: Comparator<T>, s: seq<T>, begin: int, end: int): (t: seq<T>)
    requires 0 <= begin && end <= |s| && end - begin >= INSERTION_SORT_THRESHOLD
    ensures |t| == |s|
  {
    var mid := begin + (end - begin) / 2;
    if end - begin > NINTHER_THRESHOLD then Swapped(Triples(less, s, begin, mid, end), begin, mid)
    else Ordered3(less, s, mid, begin, end - 1)
  }

  /** Everything the order says about three values. */
  lemma AllLaws<T(!new)>(less: Comparator<T>, x: T, y: T, z: T)
    requires StrictWeakOrder(less)
    ensures less(x, y) ==> !less(y, x)
    ensures less(x, z) ==> !less(z, x)
    ensures less(y, z) ==> !less(z, y)
    ensures !less(y, x) && !less(z, y) ==> !less(z, x)
    ensures !less(z, x) && !less(y, z) ==> !less(y, x)
    ensures !less(x, y) && !less(z, x) ==> !less(z, y)
    ensures !less(z, y) && !less(x, z) ==> !less(x, y)
    ensures !less(x, z) && !less(y, x) ==> !less(y, z)
    ensures !less(y, z) && !less(x, y) ==> !less(x, z)
  {
    assert LawAt(less, x, y, x) && LawAt(less, x, z, x) && LawAt(less, y, z, y);
    assert LawAt(less, x, y, z) && LawAt(less, x, z, y) && LawAt(less, y, x, z);
    assert LawAt(less, y, z, x) && LawAt(less, z, x, y) && LawAt(less, z, y, x);
  }

  // ---------------------------------------------------------------- in place

  method Sort2<T(!new)>(a: array<T>, less: Comparator<T>, i: int, j: int, ghost lo: int, ghost hi: int)
    requires StrictWeakOrder(less)
    requires 0 <= lo <= hi <= a.Length && lo <= i < hi && lo <= j < hi
    modifies a
    ensures PermWithin(old(a[..]), a[..], lo, hi)
    ensures if less(old(a[j]), old(a[i])) then a[i] == old(a[j]) && a[j] == old(a[i]) else a[i] == old(a[i]) && a[j] == old(a[j])
    ensures forall k :: 0 <= k < a.Length && k != i && k != j ==> a[k] == old(a[k])
    ensures a[..] == Ordered2(less, old(a[..]), i, j)
  {
    PermReflexive(a[..], lo, hi);
    if less(a[j], a[i]) {
      Swap(a, i, j, lo, hi);
    }
  }

  /** Sorts three elements. */
  method Sort3<T(!new)>(a: array<T>, less: Comparator<T>, i: int, j: int, k: int, ghost lo: int, ghost hi: int)
    requires StrictWeakOrder(less)
    requires 0 <= lo <= hi <= a.Length && lo <= i < hi && lo <= j < hi && lo <= k < hi
    requires i != j && j != k && i != k
    modifies a
    ensures PermWithin(old(a[..]), a[..], lo, hi)
    ensures !less(a[j], a[i]) && !less(a[k], a[j])
    ensures a[..] == Ordered3(less, old(a[..]), i, j, k)
  {
    hide StrictWeakOrder, PermWithin, Swapped, Ordered2;
    ghost var x, y, z := a[i], a[j], a[k];
    AllLaws(less, x, y, z);
    ghost var s0 := a[..];
    Sort2(a, less, i, j, lo, hi);
    ghost var s1 := a[..];
    Sort2(a, less, j, k, lo, hi);
    ghost var s2 := a[..];
    PermTransitive(s0, s1, s2, lo, hi);
    Sort2(a, less, i, j, lo, hi);
    PermTransitive(s0, s2, a[..], lo, hi);
  }

  /** Sorts three triples of the range and then their medians. */
  method SortTriples<T(!new)>(a: array<T>, less: Comparator<T>, begin: int, mid: int, end: int)
    requires StrictWeakOrder(less)
    requires 0 <= begin && begin + 5 < mid && mid + 5 < end <= a.Length
    modifies a
    ensures PermWithin(old(a[..]), a[..], begin, end)
    ensures !less(a[mid], a[mid - 1]) && !less(a[mid + 1], a[mid])
    ensures a[..] == Triples(less, old(a[..]), begin, mid, end)
  {
    hide StrictWeakOrder, PermWithin, Ordered3;
    ghost var s0 := a[..];
    Sort3(a, less, begin, mid, end - 1, begin, end);
    ghost var s1 := a[..];
    Sort3(a, less, begin + 1, mid - 1, end - 2, begin, end);
    ghost var s2 := a[..];
    PermTransitive(s0, s1, s2, begin, end);
    Sort3(a, less, begin + 2, mid + 1, end - 3, begin, end);
    ghost var s3 := a[..];
    PermTransitive(s0, s2, s3, begin, end);
    Sort3(a, less, mid - 1, mid, mid + 1, begin, end);
    PermTransitive(s0, s3, a[..], begin, end);
  }

  /** Median of three, or of nine, to the front. Both sides of the pivot keep a witness that stops
      the unguarded scans. */
  method ChoosePivot<T(!new)>(a: array<T>, less: Comparator<T>, begin: int, end: int)
    requires StrictWeakOrder(less)
    requires 0 <= begin <= end <= a.Length && end - begin >= INSERTION_SORT_THRESHOLD
    modifies a
    ensures PermWithin(old(a[..]), a[..], begin, end)
    ensures HasNotLess(less, a[..], begin, end)
    ensures HasNotGreater(less, a[..], begin, end)
    ensures a[..] == Chosen(less, old(a[..]), begin, end)
  {
    hide StrictWeakOrder, PermWithin, Swapped, HasNotLess, HasNotGreater, Triples, Ordered3;
    var size := end - begin;
    var s2 := size / 2;
    ghost var s0 := a[..];
    if size > NINTHER_THRESHOLD {
      SortTriples(a, less, begin, begin + s2, end);
      ghost var s1 := a[..];
      Swap(a, begin, begin + s2, begin, end);
      PermTransitive(s0, s1, a[..], begin, end);
      PivotWitnesses(less, a[..], begin, end, begin + s2 + 1, begin + s2 - 1);
    } else {
      Sort3(a, less, begin + s2, begin, end - 1, begin, end);
      PivotWitnesses(less, a[..], begin, end, end - 1, begin + s2);
    }
  }

  lemma PivotWitnesses<T>(less: Comparator<T>, s: seq<T>, begin: int, end: int, above: int, below: int)
    requires 0 <= begin < end <= |s| && begin < above < end && begin < below < end
    requires !less(s[above], s[begin]) && !less(s[begin], s[below])
    ensures HasNotLess(less, s, begin, end) && HasNotGreater(less, s, begin, end)
  {
  }

  // ---------------------------------------------------------------- the pivot is a median

  /** `v` is one of the three, with one that is not greater and one that is not less. */
  ghost predicate IsMedian<T>(less: Comparator<T>, v: T, x: T, y: T, z: T) {
    || (v == x && ((!less(v, y) && !less(z, v)) || (!less(v, z) && !less(y, v))))
    || (v == y && ((!less(v, x) && !less(z, v)) || (!less(v, z) && !less(x, v))))
    || (v == z && ((!less(v, x) && !less(y, v)) || (!less(v, y) && !less(x, v))))
  }

  lemma MedianInOrder<T(!new)>(less: Comparator<T>, s: seq<T>, i: int, j: int, k: int)
    requires StrictWeakOrder(less)
    requires 0 <= i < |s| && 0 <= j < |s| && 0 <= k < |s| && i != j && j != k && i != k
    ensures IsMedian(less, Ordered3(less, s, i, j, k)[j], s[i], s[j], s[k])
    ensures forall n :: 0 <= n < |s| && n != i && n != j && n != k ==> Ordered3(less, s, i, j, k)[n] == s[n]
  {
    hide StrictWeakOrder;
    AllLaws(less, s[i], s[j], s[k]);
  }

  /** Any two medians of the same elements are equivalent. */
  lemma MedianUnique<T(!new)>(less: Comparator<T>, v: T, w: T, x: T, y: T, z: T)
    requires StrictWeakOrder(less) && IsMedian(less, v, x, y, z) && IsMedian(less, w, x, y, z)
    ensures !less(v, w) && !less(w, v)
  {
    AllLaws(less, x, y, z);
    assert LawAt(less, x, x, x) && LawAt(less, y, y, y) && LawAt(less, z, z, z);
    hide StrictWeakOrder;
  }

  /** In a range of up to 128 elements the pivot is the median of the first, the middle and the last element. */
  lemma PivotOfThree<T(!new)>(less: Comparator<T>, s: seq<T>, begin: int, end: int)
    requires StrictWeakOrder(less) && 0 <= begin && end <= |s| && 24 <= end - begin <= 128
    ensures IsMedian(less, Chosen(less, s, begin, end)[begin], s[begin + (end - begin) / 2], s[begin], s[end - 1])
  {
    hide StrictWeakOrder, IsMedian, Ordered3;
    MedianInOrder(less, s, begin + (end - begin) / 2, begin, end - 1);
  }

  /** In a longer one it is the median of the medians of three triples: the ends and the middle, and their neighbours. */
  lemma PivotOfNine<T(!new)>(less: Comparator<T>, s: seq<T>, begin: int, mid: int, end: int) returns (u: T, v: T, w: T)
    requires StrictWeakOrder(less) && 0 <= begin && end <= |s| && end - begin > 128 && mid == begin + (end - begin) / 2
    ensures IsMedian(less, v, s[begin], s[mid], s[end - 1])
    ensures IsMedian(less, u, s[begin + 1], s[mid - 1], s[end - 2])
    ensures IsMedian(less, w, s[begin + 2], s[mid + 1], s[end - 3])
    ensures IsMedian(less, Chosen(less, s, begin, end)[begin], u, v, w)
  {
    hide StrictWeakOrder, IsMedian, Ordered3;
    var s1 := Ordered3(less, s, begin, mid, end - 1);
    MedianInOrder(less, s, begin, mid, end - 1);
    var s2 := Ordered3(less, s1, begin + 1, mid - 1, end - 2);
    MedianInOrder(less, s1, begin + 1, mid - 1, end - 2);
    var s3 := Ordered3(less, s2, begin + 2, mid + 1, end - 3);
    MedianInOrder(less, s2, begin + 2, mid + 1, end - 3);
    MedianInOrder(less, s3, mid - 1, mid, mid + 1);
    u, v, w := s3[mid - 1], s3[mid], s3[mid + 1];
  }
}
