/** The plain partition steps of pdqsort. */
module Partition {
  import opened Ordering

  /** `s[p]` is the pivot, everything in front of it is less and everything after it is not. */
  ghost predicate PartitionedRight<T>(less: Comparator<T>, s: seq<T>, begin: int, p: int, end: int) {
    && 0 <= begin <= p < end <= |s|
    && (forall k :: begin <= k < p ==> less(s[k], s[p]))
    && (forall k :: p < k < end ==> !less(s[k], s[p]))
  }

  /** `s[p]` is the pivot, everything in front of it is not greater and everything after it is. */
  ghost predicate PartitionedLeft<T>(less: Comparator<T>, s: seq<T>, begin: int, p: int, end: int) {
    && 0 <= begin <= p < end <= |s|
    && (forall k :: begin <= k < p ==> !less(s[p], s[k]))
    && (forall k :: p < k < end ==> less(s[p], s[k]))
  }

  /** Behind the pivot `s[begin]` no element that is not less than it precedes one that is. */
  ghost predicate AlreadyRight<T>(less: Comparator<T>, s: seq<T>, begin: int, end: int)
    requires 0 <= begin < end <= |s|
  {
    forall i, j :: begin < i < j < end && less(s[j], s[begin]) ==> less(s[i], s[begin])
  }

  /** What the median of three leaves behind: something not less than the pivot ... */
  ghost predicate HasNotLess<T>(less: Comparator<T>, s: seq<T>, begin: int, end: int)
    requires 0 <= begin < end <= |s|
  {
    exists k :: begin < k < end && !less(s[k], s[begin])
  }

  /** ... and something not greater. */
  ghost predicate HasNotGreater<T>(less: Comparator<T>, s: seq<T>, begin: int, end: int)
    requires 0 <= begin < end <= |s|
  {
    exists k :: begin < k < end && !less(s[begin], s[k])
  }

  /** The state between swaps: around the pivot `s[begin]`, everything before `first` is known to be
      less, everything after `last` not to be, and `first`, `last` are the next pair to swap. */
  ghost predicate Closing<T>(less: Comparator<T>, s: seq<T>, begin: int, first: int, last: int, end: int) {
    && 0 <= begin < first < end <= |s| && first - 1 <= last < end
    && (forall k :: begin < k < first ==> less(s[k], s[begin]))
    && (forall k :: last < k < end ==> !less(s[k], s[begin]))
    && !less(s[first], s[begin])
    && (first < last ==> less(s[last], s[begin]))
  }

  /** The two scans that open both right partitions. `a[first]` is the first element that does not
      belong on the left; `a[last]` the last one that does, unless the two have met. */
  method OpeningScans<T>(a: array<T>, less: Comparator<T>, begin: int, end: int) returns (first: int, last: int)
    requires 0 <= begin < end <= a.Length
    requires HasNotLess(less, a[..], begin, end)
    ensures Closing(less, a[..], begin, first, last, end)
    ensures first >= last <==> AlreadyRight(less, a[..], begin, end)
  {
    var pivot := a[begin];
    ghost var w :| begin < w < end && !less(a[..][w], pivot);
    first, last := begin, end;

    first := first + 1;
    while less(a[first], pivot)
      invariant begin < first <= w
      invariant forall k :: begin < k < first ==> less(a[k], pivot)
      decreases end - first
    {
      first := first + 1;
    }

    var scanning := true;
    if first - 1 == begin {
      while scanning && first < last
        invariant first <= last <= end
        invariant !scanning ==> last < end && less(a[last], pivot)
        invariant forall k :: last <= k < end && (scanning || last < k) ==> !less(a[k], pivot)
        decreases last, scanning
      {
        last := last - 1;
        scanning := !less(a[last], pivot);
      }
    } else {
      while scanning
        invariant first - 1 <= last <= end
        invariant !scanning ==> last < end && less(a[last], pivot)
        invariant forall k :: last <= k < end && (scanning || last < k) ==> !less(a[k], pivot)
        invariant scanning ==> first <= last
        decreases last, scanning
      {
        last := last - 1;
        scanning := !less(a[last], pivot);
      }
    }
    if first < last {
      assert begin < first < last < end && less(a[..][last], pivot) && !less(a[..][first], pivot);
    }
  }

  /** Puts the saved pivot at `pos` and what was there into the slot the pivot came from. */
  method PlacePivot<T>(a: array<T>, begin: int, pos: int, pivot: T, ghost end: int)
    requires 0 <= begin <= pos < end <= a.Length
    requires a[begin] == pivot
    modifies a
    ensures a[..] == Swapped(old(a[..]), begin, pos)
    ensures a[pos] == pivot && a[begin] == old(a[pos])
    ensures forall k :: 0 <= k < a.Length && k != begin && k != pos ==> a[k] == old(a[k])
    ensures PermWithin(old(a[..]), a[..], begin, end)
  {
    SwappedIsPerm(a[..], begin, pos, begin, end);
    a[begin] := a[pos];
    a[pos] := pivot;
  }

  /** Swaps the pair and scans for the next one; the pair just swapped stops the unguarded scans. */
  method AdvanceRight<T>(a: array<T>, less: Comparator<T>, begin: int, l: int, r: int, ghost end: int)
    returns (first: int, last: int)
    requires Closing(less, a[..], begin, l, r, end) && l < r
    modifies a
    ensures Closing(less, a[..], begin, first, last, end) && last < r
    ensures PermWithin(old(a[..]), a[..], begin, end)
    ensures a[begin] == old(a[begin])
  {
    Swap(a, l, r, begin, end);
    hide Swapped, PermWithin;
    first := l + 1;
    while less(a[first], a[begin])
      invariant l < first <= r
      invariant forall k :: begin < k < first ==> less(a[k], a[begin])
      decreases r - first
    {
      first := first + 1;
    }
    last := r - 1;
    while !less(a[last], a[begin])
      invariant first - 1 <= last < r
      invariant forall k :: last < k < end ==> !less(a[k], a[begin])
      decreases last
    {
      last := last - 1;
    }
  }

  lemma ClosingDone<T>(less: Comparator<T>, s: seq<T>, begin: int, first: int, last: int, end: int)
    requires Closing(less, s, begin, first, last, end) && first >= last
    ensures PartitionedRight(less, Swapped(s, begin, first - 1), begin, first - 1, end)
  {
  }

  /** Partitions `[begin, end)` around `a[begin]`, equal elements to the right. */
  method PartitionRight<T>(a: array<T>, less: Comparator<T>, begin: int, end: int)
    returns (pivotPos: int, already: bool)
    requires 0 <= begin < end <= a.Length
    requires HasNotLess(less, a[..], begin, end)
    modifies a
    ensures PermWithin(old(a[..]), a[..], begin, end)
    ensures PartitionedRight(less, a[..], begin, pivotPos, end)
    ensures a[pivotPos] == old(a[begin])
    ensures already <==> AlreadyRight(less, old(a[..]), begin, end)
    ensures already ==> a[..] == Swapped(old(a[..]), begin, pivotPos)
  {
    hide Swapped, PermWithin;
    ghost var s0 := a[..];
    PermReflexive(s0, begin, end);
    var pivot := a[begin];
    var first, last := OpeningScans(a, less, begin, end);
    already := first >= last;

    while first < last
      invariant Closing(less, a[..], begin, first, last, end)
      invariant PermWithin(s0, a[..], begin, end)
      invariant a[begin] == pivot
      invariant already ==> a[..] == s0 && first >= last
      decreases last
    {
      ghost var s := a[..];
      first, last := AdvanceRight(a, less, begin, first, last, end);
      PermTransitive(s0, s, a[..], begin, end);
    }

    pivotPos := first - 1;
    ghost var s := a[..];
    ClosingDone(less, s, begin, first, last, end);
    PlacePivot(a, begin, pivotPos, pivot, end);
    PermTransitive(s0, s, a[..], begin, end);
  }

  /** The mirror image of `Closing`, for equal elements going left. */
  ghost predicate ClosingLeft<T>(less: Comparator<T>, s: seq<T>, begin: int, first: int, last: int, end: int) {
    && 0 <= begin < last < end <= |s| && begin < first <= last + 1
    && (forall k :: begin < k < first ==> !less(s[begin], s[k]))
    && (forall k :: last < k < end ==> less(s[begin], s[k]))
    && !less(s[begin], s[last])
    && (first < last ==> less(s[begin], s[first]))
  }

  /** The opening scans of the left partition. They never reach the slot the pivot was taken from. */
  method OpeningScansLeft<T>(a: array<T>, less: Comparator<T>, begin: int, end: int) returns (first: int, last: int)
    requires 0 <= begin < end <= a.Length
    requires HasNotGreater(less, a[..], begin, end)
    ensures ClosingLeft(less, a[..], begin, first, last, end)
  {
    var pivot := a[begin];
    first, last := begin, end;
    ghost var w :| begin < w < end && !less(pivot, a[..][w]);

    last := last - 1;
    while less(pivot, a[last])
      invariant w <= last < end
      invariant forall k :: last < k < end ==> less(pivot, a[k])
      decreases last
    {
      last := last - 1;
    }

    var scanning := true;
    if last + 1 == end {
      while scanning && first < last
        invariant begin <= first <= last
        invariant !scanning ==> begin < first && less(pivot, a[first])
        invariant forall k :: begin < k <= first && (scanning || k < first) ==> !less(pivot, a[k])
        decreases last - first, scanning
      {
        first := first + 1;
        scanning := !less(pivot, a[first]);
      }
    } else {
      while scanning
        invariant begin <= first <= last + 1
        invariant !scanning ==> begin < first && less(pivot, a[first])
        invariant forall k :: begin < k <= first && (scanning || k < first) ==> !less(pivot, a[k])
        invariant scanning ==> first <= last
        decreases last + 1 - first, scanning
      {
        first := first + 1;
        scanning := !less(pivot, a[first]);
      }
    }
  }

  method AdvanceLeft<T>(a: array<T>, less: Comparator<T>, begin: int, l: int, r: int, ghost end: int)
    returns (first: int, last: int)
    requires ClosingLeft(less, a[..], begin, l, r, end) && l < r
    modifies a
    ensures ClosingLeft(less, a[..], begin, first, last, end) && last < r
    ensures PermWithin(old(a[..]), a[..], begin, end)
    ensures a[begin] == old(a[begin])
  {
    Swap(a, l, r, begin, end);
    hide Swapped, PermWithin;
    last := r - 1;
    while less(a[begin], a[last])
      invariant l <= last < r
      invariant forall k :: last < k < end ==> less(a[begin], a[k])
      decreases last
    {
      last := last - 1;
    }
    first := l + 1;
    while !less(a[begin], a[first])
      invariant l < first <= last + 1
      invariant forall k :: begin < k < first ==> !less(a[begin], a[k])
      decreases r - first
    {
      first := first + 1;
    }
  }

  lemma ClosingLeftDone<T>(less: Comparator<T>, s: seq<T>, begin: int, first: int, last: int, end: int)
    requires ClosingLeft(less, s, begin, first, last, end) && first >= last
    ensures PartitionedLeft(less, Swapped(s, begin, last), begin, last, end)
  {
  }

  /** Partitions `[begin, end)` around `a[begin]`, equal elements to the left. */
  method PartitionLeft<T>(a: array<T>, less: Comparator<T>, begin: int, end: int) returns (pivotPos: int)
    requires 0 <= begin < end <= a.Length
    requires HasNotGreater(less, a[..], begin, end)
    modifies a
    ensures PermWithin(old(a[..]), a[..], begin, end)
    ensures PartitionedLeft(less, a[..], begin, pivotPos, end)
    ensures a[pivotPos] == old(a[begin])
  {
    hide Swapped, PermWithin;
    ghost var s0 := a[..];
    PermReflexive(s0, begin, end);
    var pivot := a[begin];
    var first, last := OpeningScansLeft(a, less, begin, end);

    while first < last
      invariant ClosingLeft(less, a[..], begin, first, last, end)
      invariant PermWithin(s0, a[..], begin, end)
      invariant a[begin] == pivot
      decreases last
    {
      ghost var s := a[..];
      first, last := AdvanceLeft(a, less, begin, first, last, end);
      PermTransitive(s0, s, a[..], begin, end);
    }

    pivotPos := last;
    ghost var s := a[..];
    ClosingLeftDone(less, s, begin, first, last, end);
    PlacePivot(a, begin, pivotPos, pivot, end);
    PermTransitive(s0, s, a[..], begin, end);
  }
}
