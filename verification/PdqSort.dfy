/** Pattern-defeating quicksort: the sorting loop, the loop that may give up, and their entry points. */
module PdqSort {
  import opened Arith
  import opened PdqWork
  import opened Ordering
  import opened InsertionSort
  import opened HeapSort
  import opened Partition
  import opened BlockPartition
  import opened PdqPattern
  import opened PdqPivot

  const TRY_SORT_ITERATIONS := 3
  const NUM_TO_TRY := 16
  const SIZE_T_MODULUS := 0x1_0000_0000_0000_0000

  // ---------------------------------------------------------------- pattern breaking

  /** One more exchange in a range that already is a rearrangement of `s0`. */
  method SwapKeeping<T>(a: array<T>, i: int, j: int, ghost s0: seq<T>, ghost lo: int, ghost hi: int)
    requires 0 <= lo <= i < hi <= a.Length && lo <= j < hi
    requires PermWithin(s0, a[..], lo, hi)
    modifies a
    ensures PermWithin(s0, a[..], lo, hi)
  {
    ghost var s := a[..];
    Swap(a, i, j, lo, hi);
    PermTransitive(s0, s, a[..], lo, hi);
  }

  method BreakLeft<T>(a: array<T>, begin: int, pivotPos: int)
    requires 0 <= begin <= pivotPos <= a.Length
    modifies a
    ensures PermWithin(old(a[..]), a[..], begin, pivotPos)
  {
    hide PermWithin;
    ghost var s0 := a[..];
    PermReflexive(s0, begin, pivotPos);
    var lSize := pivotPos - begin;
    if lSize >= INSERTION_SORT_THRESHOLD {
      SwapKeeping(a, begin, begin + lSize / 4, s0, begin, pivotPos);
      SwapKeeping(a, pivotPos - 1, pivotPos - lSize / 4, s0, begin, pivotPos);
      if lSize > NINTHER_THRESHOLD {
        SwapKeeping(a, begin + 1, begin + (lSize / 4 + 1), s0, begin, pivotPos);
        SwapKeeping(a, begin + 2, begin + (lSize / 4 + 2), s0, begin, pivotPos);
        SwapKeeping(a, pivotPos - 2, pivotPos - (lSize / 4 + 1), s0, begin, pivotPos);
        SwapKeeping(a, pivotPos - 3, pivotPos - (lSize / 4 + 2), s0, begin, pivotPos);
      }
    }
  }

  method BreakRight<T>(a: array<T>, pivotPos: int, end: int)
    requires 0 <= pivotPos < end <= a.Length
    modifies a
    ensures PermWithin(old(a[..]), a[..], pivotPos + 1, end)
  {
    hide PermWithin;
    ghost var s0 := a[..];
    PermReflexive(s0, pivotPos + 1, end);
    var rSize := end - (pivotPos + 1);
    if rSize >= INSERTION_SORT_THRESHOLD {
      SwapKeeping(a, pivotPos + 1, pivotPos + (1 + rSize / 4), s0, pivotPos + 1, end);
      SwapKeeping(a, end - 1, end - rSize / 4, s0, pivotPos + 1, end);
      if rSize > NINTHER_THRESHOLD {
        SwapKeeping(a, pivotPos + 2, pivotPos + (2 + rSize / 4), s0, pivotPos + 1, end);
        SwapKeeping(a, pivotPos + 3, pivotPos + (3 + rSize / 4), s0, pivotPos + 1, end);
        SwapKeeping(a, end - 2, end - (1 + rSize / 4), s0, pivotPos + 1, end);
        SwapKeeping(a, end - 3, end - (2 + rSize / 4), s0, pivotPos + 1, end);
      }
    }
  }

  lemma PartitionedPermLeft<T>(less: Comparator<T>, s: seq<T>, t: seq<T>, begin: int, p: int, end: int)
    requires PartitionedRight(less, s, begin, p, end) && PermWithin(s, t, begin, p)
    ensures PartitionedRight(less, t, begin, p, end) && PermWithin(s, t, begin, end) && t[p] == s[p]
  {
    PermAll(s, t, begin, p, x => less(x, s[p]));
  }

  lemma PartitionedPermRight<T>(less: Comparator<T>, s: seq<T>, t: seq<T>, begin: int, p: int, end: int)
    requires PartitionedRight(less, s, begin, p, end) && PermWithin(s, t, p + 1, end)
    ensures PartitionedRight(less, t, begin, p, end) && PermWithin(s, t, begin, end) && t[p] == s[p]
  {
    PermAll(s, t, p + 1, end, x => !less(x, s[p]));
  }

  /** The swaps that break up patterns stay on their side of the pivot. */
  method BreakPatterns<T>(a: array<T>, ghost less: Comparator<T>, begin: int, pivotPos: int, end: int)
    requires PartitionedRight(less, a[..], begin, pivotPos, end)
    modifies a
    ensures PermWithin(old(a[..]), a[..], begin, end)
    ensures PartitionedRight(less, a[..], begin, pivotPos, end)
    ensures a[pivotPos] == old(a[pivotPos])
  {
    ghost var s0 := a[..];
    BreakLeft(a, begin, pivotPos);
    ghost var s1 := a[..];
    PartitionedPermLeft(less, s0, s1, begin, pivotPos, end);
    BreakRight(a, pivotPos, end);
    PartitionedPermRight(less, s1, a[..], begin, pivotPos, end);
  }

  // ---------------------------------------------------------------- the state of a sorting loop

  /** Everything in `[lo, mid)` is in its final place with respect to `[lo, hi)`. */
  ghost predicate HeadInPlace<T>(less: Comparator<T>, s: seq<T>, lo: int, mid: int, hi: int) {
    && 0 <= lo <= mid <= hi <= |s|
    && forall i, j :: lo <= i < mid && i < j < hi ==> !less(s[j], s[i])
  }

  /** What holds each time round the loop on `[lo, hi)`, with `[begin, hi)` still to be sorted. */
  ghost predicate LoopState<T>(less: Comparator<T>, s0: seq<T>, s: seq<T>, lo: int, begin: int, hi: int, leftmost: bool) {
    && HeadInPlace(less, s, lo, begin, hi)
    && PermWithin(s0, s, lo, hi)
    && (!leftmost ==> Sentinel(less, s, begin, hi))
  }

  lemma LoopStateStart<T>(less: Comparator<T>, s: seq<T>, lo: int, hi: int, leftmost: bool)
    requires 0 <= lo <= hi <= |s| && (!leftmost ==> Sentinel(less, s, lo, hi))
    ensures LoopState(less, s, s, lo, lo, hi, leftmost)
  {
  }

  /** Rearranging what is still to be sorted keeps the state. */
  lemma LoopStatePerm<T(!new)>(less: Comparator<T>, s0: seq<T>, s: seq<T>, t: seq<T>, lo: int, begin: int, hi: int, leftmost: bool)
    requires LoopState(less, s0, s, lo, begin, hi, leftmost) && PermWithin(s, t, begin, hi)
    ensures LoopState(less, s0, t, lo, begin, hi, leftmost)
  {
    PermWiden(s, t, begin, hi, lo, hi);
    PermTransitive(s0, s, t, lo, hi);
    if !leftmost {
      SentinelPerm(less, s, t, begin, hi);
    }
    forall i, j | lo <= i < begin && i < j < hi ensures !less(t[j], t[i]) {
      if begin <= j {
        PermAll(s, t, begin, hi, x => !less(x, s[i]));
      }
    }
  }

  /** Once the rest is sorted, everything is. */
  lemma LoopStateSorted<T(!new)>(less: Comparator<T>, s0: seq<T>, s: seq<T>, t: seq<T>, lo: int, begin: int, hi: int, leftmost: bool)
    requires LoopState(less, s0, s, lo, begin, hi, leftmost) && PermWithin(s, t, begin, hi)
    requires SortedWithin(less, t, begin, hi)
    ensures PermWithin(s0, t, lo, hi) && SortedWithin(less, t, lo, hi)
  {
    LoopStatePerm(less, s0, s, t, lo, begin, hi, leftmost);
  }

  /** A pivot equal to the sentinel: after the left partition the front is one class of equal elements. */
  lemma LoopStateLeft<T(!new)>(less: Comparator<T>, s0: seq<T>, s: seq<T>, lo: int, begin: int, p: int, hi: int)
    requires StrictWeakOrder(less)
    requires LoopState(less, s0, s, lo, begin, hi, false)
    requires PartitionedLeft(less, s, begin, p, hi)
    requires !less(s[begin - 1], s[p])
    ensures LoopState(less, s0, s, lo, p + 1, hi, false)
  {
    forall k | p < k < hi ensures !less(s[k], s[p]) {
      Asymmetric(less, s[p], s[k]);
    }
    forall i, j | lo <= i < p + 1 && i < j < hi ensures !less(s[j], s[i]) {
      if begin <= i {
        if i < p {
          NotLessTransitive(less, s[i], s[p], s[begin - 1]);
        }
        NotLessTransitive(less, s[i], s[begin - 1], s[j]);
      }
    }
  }

  /** The left part of a right partition has been sorted: the pivot is in place and guards the rest. */
  lemma LoopStateRight<T(!new)>(less: Comparator<T>, s0: seq<T>, s: seq<T>, t: seq<T>, lo: int, begin: int, p: int, hi: int, leftmost: bool)
    requires StrictWeakOrder(less)
    requires LoopState(less, s0, s, lo, begin, hi, leftmost)
    requires PartitionedRight(less, s, begin, p, hi)
    requires PermWithin(s, t, begin, p) && SortedWithin(less, t, begin, p)
    ensures LoopState(less, s0, t, lo, p + 1, hi, false)
  {
    PartitionedPermLeft(less, s, t, begin, p, hi);
    LoopStatePerm(less, s0, s, t, lo, begin, hi, leftmost);
    forall i, j | lo <= i < p + 1 && i < j < hi ensures !less(t[j], t[i]) {
      if begin <= i < p <= j {
        Asymmetric(less, t[i], t[p]);
        if p < j {
          NotLessTransitive(less, t[i], t[p], t[j]);
        }
      }
    }
  }

  lemma PartitionedSorted<T(!new)>(less: Comparator<T>, s: seq<T>, begin: int, p: int, end: int)
    requires StrictWeakOrder(less)
    requires PartitionedRight(less, s, begin, p, end)
    requires SortedWithin(less, s, begin, p) && SortedWithin(less, s, p + 1, end)
    ensures SortedWithin(less, s, begin, end)
  {
    forall i, j | begin <= i < j < end ensures !less(s[j], s[i]) {
      if i < p <= j {
        Asymmetric(less, s[i], s[p]);
        if p < j {
          NotLessTransitive(less, s[i], s[p], s[j]);
        }
      }
    }
  }

  lemma LoopStateFacts<T>(less: Comparator<T>, s0: seq<T>, s: seq<T>, lo: int, begin: int, hi: int, leftmost: bool)
    requires LoopState(less, s0, s, lo, begin, hi, leftmost)
    ensures PermWithin(s0, s, lo, hi)
    ensures !leftmost ==> 1 <= begin && Sentinel(less, s, begin, hi)
  {
  }

  /** The left part inherits the sentinel. */
  lemma LoopStateRecurse<T>(less: Comparator<T>, s0: seq<T>, s: seq<T>, lo: int, begin: int, p: int, hi: int, leftmost: bool)
    requires LoopState(less, s0, s, lo, begin, hi, leftmost) && begin <= p <= hi
    ensures !leftmost ==> Sentinel(less, s, begin, p)
  {
  }

  lemma SortedUnchanged<T>(less: Comparator<T>, s: seq<T>, t: seq<T>, lo: int, hi: int, lo': int, hi': int)
    requires PermWithin(s, t, lo', hi') && 0 <= lo <= hi <= lo' && SortedWithin(less, s, lo, hi)
    ensures SortedWithin(less, t, lo, hi)
  {
  }

  lemma PartitionedBounds<T>(less: Comparator<T>, s: seq<T>, begin: int, p: int, end: int)
    requires PartitionedRight(less, s, begin, p, end)
    ensures 0 <= begin <= p < end <= |s|
  {
  }

  lemma PartitionLeftFacts<T>(less: Comparator<T>, s: seq<T>, t: seq<T>, begin: int, p: int, end: int)
    requires PartitionedLeft(less, t, begin, p, end) && PermWithin(s, t, begin, end) && 1 <= begin
    ensures 0 <= begin <= p < end <= |t| && t[begin - 1] == s[begin - 1]
  {
  }

  // ---------------------------------------------------------------- steps shared by both loops

  /** A short rest is sorted by insertion, unguarded where the sentinel allows it. */
  method FinishSmall<T(!new)>(a: array<T>, less: Comparator<T>, ghost s0: seq<T>, ghost lo: int, begin: int, end: int, leftmost: bool)
    requires StrictWeakOrder(less)
    requires 0 <= begin <= end <= a.Length
    requires LoopState(less, s0, a[..], lo, begin, end, leftmost)
    modifies a
    ensures PermWithin(s0, a[..], lo, end) && SortedWithin(less, a[..], lo, end)
  {
    hide LoopState, PermWithin, SortedWithin, Sentinel, StrictWeakOrder;
    ghost var s := a[..];
    LoopStateFacts(less, s0, s, lo, begin, end, leftmost);
    if leftmost {
      InsertionSort.InsertionSort(a, less, begin, end);
    } else {
      UnguardedInsertionSort(a, less, begin, end);
    }
    LoopStateSorted(less, s0, s, a[..], lo, begin, end, leftmost);
  }

  /** The fallback that bounds the running time. */
  method FinishHeap<T(!new)>(a: array<T>, less: Comparator<T>, ghost s0: seq<T>, ghost lo: int, begin: int, end: int, ghost leftmost: bool)
    requires StrictWeakOrder(less)
    requires 0 <= begin <= end <= a.Length
    requires LoopState(less, s0, a[..], lo, begin, end, leftmost)
    modifies a
    ensures PermWithin(s0, a[..], lo, end) && SortedWithin(less, a[..], lo, end)
  {
    ghost var s := a[..];
    MakeHeap(a, less, begin, end);
    ghost var t := a[..];
    SortHeap(a, less, begin, end);
    PermTransitive(s, t, a[..], begin, end);
    LoopStateSorted(less, s0, s, a[..], lo, begin, end, leftmost);
  }

  /** Elements equal to the sentinel are gathered in front and skipped. */
  method SkipEqual<T(!new)>(a: array<T>, less: Comparator<T>, ghost s0: seq<T>, ghost lo: int, begin: int, end: int) returns (next: int)
    requires StrictWeakOrder(less)
    requires 1 <= begin < end <= a.Length
    requires LoopState(less, s0, a[..], lo, begin, end, false)
    requires HasNotGreater(less, a[..], begin, end)
    requires !less(a[begin - 1], a[begin])
    modifies a
    ensures begin < next <= end
    ensures LoopState(less, s0, a[..], lo, next, end, false)
    ensures Above(less, a[..], next, end)
  {
    hide LoopState, PermWithin, Sentinel, PartitionedLeft, HasNotGreater, StrictWeakOrder, Above;
    ghost var s := a[..];
    var p := PartitionLeft(a, less, begin, end);
    LoopStatePerm(less, s0, s, a[..], lo, begin, end, false);
    PartitionLeftFacts(less, s, a[..], begin, p, end);
    LoopStateLeft(less, s0, a[..], lo, begin, p, end);
    AboveAfterLeft(less, a[..], begin, p, end);
    next := p + 1;
  }

  /** The element before the range is smaller than every element of it. */
  ghost predicate Above<T>(less: Comparator<T>, s: seq<T>, begin: int, end: int) {
    1 <= begin <= end <= |s| && forall j :: begin <= j < end ==> less(s[begin - 1], s[j])
  }

  lemma AboveAfterLeft<T>(less: Comparator<T>, s: seq<T>, begin: int, p: int, end: int)
    requires PartitionedLeft(less, s, begin, p, end)
    ensures Above(less, s, p + 1, end)
  {
  }

  lemma AbovePerm<T>(less: Comparator<T>, s: seq<T>, t: seq<T>, begin: int, end: int)
    requires Above(less, s, begin, end) && PermWithin(s, t, begin, end)
    ensures Above(less, t, begin, end) && t[begin - 1] == s[begin - 1]
    ensures begin < end ==> less(t[begin - 1], t[begin])
  {
    PermAll(s, t, begin, end, x => less(s[begin - 1], x));
  }

  /** Chooses the pivot of what is still to be sorted. */
  method PivotStep<T(!new)>(a: array<T>, less: Comparator<T>, ghost s0: seq<T>, ghost lo: int, begin: int, end: int,
                            ghost leftmost: bool, ghost strict: bool)
    requires StrictWeakOrder(less)
    requires 0 <= begin <= end <= a.Length && end - begin >= INSERTION_SORT_THRESHOLD
    requires LoopState(less, s0, a[..], lo, begin, end, leftmost) && (strict ==> Above(less, a[..], begin, end))
    modifies a
    ensures LoopState(less, s0, a[..], lo, begin, end, leftmost) && (!leftmost ==> 1 <= begin)
    ensures strict ==> 1 <= begin && less(a[begin - 1], a[begin])
    ensures HasNotLess(less, a[..], begin, end) && HasNotGreater(less, a[..], begin, end)
    ensures a[..] == Chosen(less, old(a[..]), begin, end) && PermWithin(old(a[..]), a[..], begin, end)
  {
    hide LoopState, PermWithin, Sentinel, HasNotLess, HasNotGreater, StrictWeakOrder, Above, Chosen;
    ghost var s := a[..];
    ChoosePivot(a, less, begin, end);
    if strict {
      AbovePerm(less, s, a[..], begin, end);
    }
    LoopStatePerm(less, s0, s, a[..], lo, begin, end, leftmost);
    LoopStateFacts(less, s0, a[..], lo, begin, end, leftmost);
  }

  method PartitionStep<T(!new)>(a: array<T>, less: Comparator<T>, ghost s0: seq<T>, ghost lo: int, begin: int, end: int,
                                ghost leftmost: bool, branchless: bool)
    returns (pivotPos: int, already: bool)
    requires 0 <= begin < end <= a.Length
    requires LoopState(less, s0, a[..], lo, begin, end, leftmost)
    requires HasNotLess(less, a[..], begin, end)
    modifies a
    ensures begin <= pivotPos < end
    ensures LoopState(less, s0, a[..], lo, begin, end, leftmost)
    ensures PartitionedRight(less, a[..], begin, pivotPos, end)
    ensures already <==> AlreadyRight(less, old(a[..]), begin, end)
    ensures already ==> a[..] == Swapped(old(a[..]), begin, pivotPos)
    ensures PermWithin(old(a[..]), a[..], begin, end) && a[pivotPos] == old(a[begin])
  {
    hide LoopState, PermWithin, HasNotLess, AlreadyRight, Swapped;
    ghost var s := a[..];
    if branchless {
      pivotPos, already := PartitionRightBranchless(a, less, begin, end);
    } else {
      pivotPos, already := PartitionRight(a, less, begin, end);
    }
    LoopStatePerm(less, s0, s, a[..], lo, begin, end, leftmost);
  }

  method BreakStep<T(!new)>(a: array<T>, ghost less: Comparator<T>, ghost s0: seq<T>, ghost lo: int, begin: int, pivotPos: int, end: int,
                            ghost leftmost: bool)
    requires LoopState(less, s0, a[..], lo, begin, end, leftmost)
    requires PartitionedRight(less, a[..], begin, pivotPos, end)
    modifies a
    ensures LoopState(less, s0, a[..], lo, begin, end, leftmost)
    ensures PartitionedRight(less, a[..], begin, pivotPos, end)
  {
    hide LoopState, PermWithin, PartitionedRight;
    ghost var s := a[..];
    BreakPatterns(a, less, begin, pivotPos, end);
    LoopStatePerm(less, s0, s, a[..], lo, begin, end, leftmost);
  }

  lemma PermKeepsRest<T>(s: seq<T>, t: seq<T>, begin: int, p: int, end: int)
    requires PermWithin(s, t, begin, p) && p < end <= |s|
    ensures s[p + 1..end] == t[p + 1..end]
  {
  }

  /** A balanced, already partitioned range may be nearly sorted: try a bounded insertion sort. */
  method TryFinish<T(!new)>(a: array<T>, less: Comparator<T>, ghost s0: seq<T>, ghost lo: int, begin: int, pivotPos: int, end: int,
                            ghost leftmost: bool)
    returns (done: bool)
    requires StrictWeakOrder(less)
    requires LoopState(less, s0, a[..], lo, begin, end, leftmost)
    requires PartitionedRight(less, a[..], begin, pivotPos, end)
    modifies a
    ensures LoopState(less, s0, a[..], lo, begin, end, leftmost)
    ensures PartitionedRight(less, a[..], begin, pivotPos, end)
    ensures done ==> PermWithin(s0, a[..], lo, end) && SortedWithin(less, a[..], lo, end)
    ensures done <==> NearlySorted(less, old(a[..]), begin, pivotPos) && NearlySorted(less, old(a[..]), pivotPos + 1, end)
    ensures PermWithin(old(a[..]), a[..], begin, end)
  {
    hide LoopState, PermWithin, SortedWithin, PartitionedRight, StrictWeakOrder, Inversions;
    ghost var s1 := a[..];
    PartitionedBounds(less, s1, begin, pivotPos, end);
    done := PartialInsertionSort(a, less, begin, pivotPos);
    ghost var s2 := a[..];
    PartitionedPermLeft(less, s1, s2, begin, pivotPos, end);
    LoopStatePerm(less, s0, s1, s2, lo, begin, end, leftmost);
    PermKeepsRest(s1, s2, begin, pivotPos, end);
    if done {
      done := PartialInsertionSort(a, less, pivotPos + 1, end);
      PartitionedPermRight(less, s2, a[..], begin, pivotPos, end);
      PermTransitive(s1, s2, a[..], begin, end);
      LoopStatePerm(less, s0, s2, a[..], lo, begin, end, leftmost);
      if done {
        SortedUnchanged(less, s2, a[..], begin, pivotPos, pivotPos + 1, end);
        PartitionedSorted(less, a[..], begin, pivotPos, end);
        LoopStateSorted(less, s0, s2, a[..], lo, begin, end, leftmost);
      }
    }
  }

  // ---------------------------------------------------------------- pdqsort_loop

  /** Sorts `[begin0, end)`. Where the range is not the leftmost one, the element before it bounds it
      from below; that is what every unguarded scan relies on.
      `work` is the total length of the ranges that are partitioned, `heaped` of those that are heapsorted. */
  method PdqsortLoop<T(!new)>(a: array<T>, less: Comparator<T>, begin0: int, end: int, badAllowed0: int,
                              leftmost0: bool, branchless: bool)
    returns (ghost work: nat, ghost heaped: nat)
    requires StrictWeakOrder(less)
    requires 0 <= begin0 <= end <= a.Length
    requires !leftmost0 ==> Sentinel(less, a[..], begin0, end)
    modifies a
    ensures PermWithin(old(a[..]), a[..], begin0, end)
    ensures SortedWithin(less, a[..], begin0, end)
    ensures badAllowed0 >= 1 ==> work <= Budget(end - begin0, badAllowed0, false)
    ensures end - begin0 < INSERTION_SORT_THRESHOLD ==> work == 0
    ensures heaped <= end - begin0
    decreases end - begin0
  {
    hide LoopState, PermWithin, SortedWithin, Sentinel, PartitionedLeft, PartitionedRight, HasNotLess, HasNotGreater,
         StrictWeakOrder, AlreadyRight, Above, Budget, Swapped, NearlySorted, Chosen;
    var begin, badAllowed, leftmost := begin0, badAllowed0, leftmost0;
    ghost var s0 := a[..];
    ghost var strict := false;
    work, heaped := 0, 0;
    LoopStateStart(less, s0, begin0, end, leftmost);
    while true
      invariant 0 <= begin0 <= begin <= end <= a.Length
      invariant LoopState(less, s0, a[..], begin0, begin, end, leftmost)
      invariant strict ==> Above(less, a[..], begin, end)
      invariant badAllowed0 >= 1 ==> badAllowed >= 1
      invariant badAllowed0 >= 1 ==> work + Budget(end - begin, badAllowed, strict) <= Budget(end - begin0, badAllowed0, false)
      invariant end - begin0 < INSERTION_SORT_THRESHOLD ==> work == 0
      invariant heaped <= begin - begin0
      decreases end - begin
    {
      var size := end - begin;
      if size < INSERTION_SORT_THRESHOLD {
        FinishSmall(a, less, s0, begin0, begin, end, leftmost);
        return;
      }

      PivotStep(a, less, s0, begin0, begin, end, leftmost, strict);
      work := work + size;
      if !leftmost && !less(a[begin - 1], a[begin]) {
        begin := SkipEqual(a, less, s0, begin0, begin, end);
        if badAllowed0 >= 1 {
          SkipBudget(size, badAllowed, end - begin);
        }
        strict := true;
        continue;
      }

      var pivotPos, already := PartitionStep(a, less, s0, begin0, begin, end, leftmost, branchless);
      var lSize, rSize := pivotPos - begin, end - (pivotPos + 1);
      ghost var bad := badAllowed;
      if badAllowed0 >= 1 {
        LastPass(size, bad, strict);
      }
      if lSize < size / 8 || rSize < size / 8 {
        badAllowed := badAllowed - 1;
        if badAllowed == 0 {
          heaped := heaped + size;
          FinishHeap(a, less, s0, begin0, begin, end, leftmost);
          return;
        }
        BreakStep(a, less, s0, begin0, begin, pivotPos, end, leftmost);
      } else if already {
        var done := TryFinish(a, less, s0, begin0, begin, pivotPos, end, leftmost);
        if done {
          return;
        }
      }

      ghost var s2 := a[..];
      LoopStateRecurse(less, s0, s2, begin0, begin, pivotPos, end, leftmost);
      ghost var leftWork, leftHeaped := PdqsortLoop(a, less, begin, pivotPos, badAllowed, leftmost, branchless);
      LoopStateRight(less, s0, s2, a[..], begin0, begin, pivotPos, end, leftmost);
      if badAllowed0 >= 1 {
        SplitBudget(size, bad, lSize, rSize, badAllowed, strict);
      }
      work, heaped := work + leftWork, heaped + leftHeaped;
      begin := pivotPos + 1;
      leftmost, strict := false, false;
    }
  }

  // ---------------------------------------------------------------- pdqsort_try_sort_loop

  /** `--x` on a `size_t`. */
  function DecrementSize(x: nat): nat {
    if x == 0 then SIZE_T_MODULUS - 1 else x - 1
  }

  /** The loop that gives up on ranges without a pattern. It always leaves a rearrangement, reports
      success only on a sorted range, and once `forceSort` is set it cannot give up. `badAllowed` is a
      natural number: its decrement is proved never to underflow. */
  method TrySortLoop<T(!new)>(a: array<T>, less: Comparator<T>, begin0: int, end: int, badAllowed0: nat,
                              iterationsAllowed0: nat, forceSort0: bool, leftmost0: bool, branchless: bool)
    returns (sorted: bool, ghost splits: seq<Split<T>>)
    requires StrictWeakOrder(less)
    requires 0 <= begin0 <= end <= a.Length
    requires !leftmost0 ==> Sentinel(less, a[..], begin0, end)
    requires end - begin0 >= INSERTION_SORT_THRESHOLD ==> badAllowed0 > 0
    modifies a
    ensures PermWithin(old(a[..]), a[..], begin0, end)
    ensures sorted ==> SortedWithin(less, a[..], begin0, end)
    ensures forceSort0 ==> sorted
    ensures leftmost0 && !forceSort0 ==> Verdict(less, old(a[..]), begin0, end, iterationsAllowed0, splits, sorted)
    decreases end - begin0
  {
    hide LoopState, PermWithin, SortedWithin, Sentinel, PartitionedLeft, PartitionedRight, HasNotLess, HasNotGreater,
         StrictWeakOrder, AlreadyRight, Swapped, NearlySorted, Chosen, Verdict, Finishes, GoesOn, SplitsOff;
    var begin, badAllowed, iterationsAllowed := begin0, badAllowed0, iterationsAllowed0;
    var forceSort, leftmost := forceSort0, leftmost0;
    ghost var s0, unforced := a[..], leftmost0 && !forceSort0;
    splits := [];
    LoopStateStart(less, s0, begin0, end, leftmost);
    while true
      invariant 0 <= begin0 <= begin <= end <= a.Length
      invariant LoopState(less, s0, a[..], begin0, begin, end, leftmost)
      invariant end - begin >= INSERTION_SORT_THRESHOLD ==> badAllowed > 0
      invariant forceSort0 ==> forceSort
      invariant unforced && !forceSort ==>
        begin == begin0 && leftmost && iterationsAllowed == iterationsAllowed0 && a[..] == s0 && splits == []
      invariant unforced && forceSort ==> Verdict(less, s0, begin0, end, iterationsAllowed0, splits, true)
      decreases end - begin
    {
      LoopStateFacts(less, s0, a[..], begin0, begin, end, leftmost);
      NoPassVerdict(less, a[..], begin, end, iterationsAllowed);
      if !forceSort && iterationsAllowed == 0 {
        return false, splits;
      }
      var size := end - begin;
      if size < INSERTION_SORT_THRESHOLD {
        FinishSmall(a, less, s0, begin0, begin, end, leftmost);
        return true, splits;
      }

      PivotStep(a, less, s0, begin0, begin, end, leftmost, false);
      ghost var chosen := a[..];
      if !leftmost && !less(a[begin - 1], a[begin]) {
        begin := SkipEqual(a, less, s0, begin0, begin, end);
        continue;
      }

      var pivotPos, already := PartitionStep(a, less, s0, begin0, begin, end, leftmost, branchless);
      var lSize, rSize := pivotPos - begin, end - (pivotPos + 1);
      ghost var after := a[..];
      ghost var f := Split(after, after, pivotPos);
      if unforced && !forceSort {
        SplitMade(less, s0, chosen, begin, end, f);
        PassVerdict(less, s0, begin, end, iterationsAllowed, f);
      }
      if lSize < size / 8 || rSize < size / 8 {
        if !forceSort {
          LoopStateFacts(less, s0, a[..], begin0, begin, end, leftmost);
          return false, [f];
        }
        badAllowed := badAllowed - 1;
        if badAllowed == 0 {
          FinishHeap(a, less, s0, begin0, begin, end, leftmost);
          return true, splits;
        }
        BreakStep(a, less, s0, begin0, begin, pivotPos, end, leftmost);
      } else if already {
        var done := TryFinish(a, less, s0, begin0, begin, pivotPos, end, leftmost);
        if unforced && !forceSort {
          FinishMeans(less, s0, chosen, begin, end, f);
        }
        if done {
          return true, if forceSort then splits else [f];
        }
      }

      ghost var s2 := a[..];
      ghost var rest;
      var leftSorted;
      LoopStateRecurse(less, s0, s2, begin0, begin, pivotPos, end, leftmost);
      leftSorted, rest := TrySortLoop(a, less, begin, pivotPos, badAllowed, DecrementSize(iterationsAllowed),
                                      forceSort, leftmost, branchless);
      if unforced && !forceSort {
        PermReflexive(after, begin, end);
        NextSplit(less, s0, chosen, after, s2, begin, end, pivotPos, iterationsAllowed, rest, leftSorted);
        splits := [Split(after, s2, pivotPos)] + rest;
      }
      if leftSorted {
        forceSort := true;
      } else {
        LoopStateGiveUp(less, s0, s2, a[..], begin0, begin, pivotPos, end, leftmost);
        return false, splits;
      }
      LoopStateRight(less, s0, s2, a[..], begin0, begin, pivotPos, end, leftmost);
      iterationsAllowed := DecrementSize(iterationsAllowed);
      begin := pivotPos + 1;
      leftmost := false;
    }
  }

  lemma SplitMade<T(!new)>(less: Comparator<T>, s: seq<T>, chosen: seq<T>, begin: int, end: int, f: Split<T>)
    requires 0 <= begin && end <= |s| && end - begin >= INSERTION_SORT_THRESHOLD && chosen == Chosen(less, s, begin, end)
    requires PermWithin(s, chosen, begin, end) && PermWithin(chosen, f.after, begin, end)
    requires PartitionedRight(less, f.after, begin, f.pos, end) && f.after[f.pos] == chosen[begin]
    requires AlreadyRight(less, chosen, begin, end) ==> f.after == Swapped(chosen, begin, f.pos)
    ensures SplitsOff(less, s, begin, end, f)
  {
    hide Chosen;
  }

  lemma FinishMeans<T(!new)>(less: Comparator<T>, s: seq<T>, chosen: seq<T>, begin: int, end: int, f: Split<T>)
    requires 0 <= begin && end <= |s| && end - begin >= INSERTION_SORT_THRESHOLD && chosen == Chosen(less, s, begin, end)
    ensures Finishes(less, s, begin, end, f) <==>
      AlreadyRight(less, chosen, begin, end) && NearlySorted(less, f.after, begin, f.pos) && NearlySorted(less, f.after, f.pos + 1, end)
  {
    hide Chosen, AlreadyRight, NearlySorted;
  }

  lemma NextSplit<T(!new)>(less: Comparator<T>, s: seq<T>, chosen: seq<T>, after: seq<T>, next: seq<T>, begin: int, end: int, p: int,
                           passes: nat, rest: seq<Split<T>>, sorted: bool)
    requires 0 <= begin && end <= |s| && end - begin >= INSERTION_SORT_THRESHOLD && chosen == Chosen(less, s, begin, end) && passes > 0
    requires SplitsOff(less, s, begin, end, Split(after, after, p)) && !Lopsided(begin, p, end)
    requires PermWithin(after, next, begin, end) && PartitionedRight(less, next, begin, p, end)
    requires if AlreadyRight(less, chosen, begin, end)
             then !NearlySorted(less, after, begin, p) || !NearlySorted(less, after, p + 1, end) else next == after
    requires Verdict(less, next, begin, p, passes - 1, rest, sorted)
    ensures Verdict(less, s, begin, end, passes, [Split(after, next, p)] + rest, sorted)
  {
    hide Chosen, AlreadyRight, NearlySorted, Verdict, PermWithin, PartitionedRight, Swapped, Lopsided;
    LeftVerdict(less, s, begin, end, passes, Split(after, next, p), rest, sorted);
  }

  lemma LoopStateGiveUp<T>(less: Comparator<T>, s0: seq<T>, s: seq<T>, t: seq<T>, lo: int, begin: int, p: int, hi: int, leftmost: bool)
    requires LoopState(less, s0, s, lo, begin, hi, leftmost) && PermWithin(s, t, begin, p) && p <= hi
    ensures PermWithin(s0, t, lo, hi)
  {
  }

  // ---------------------------------------------------------------- entry points

  /** floor(log2(n)). */
  method Log2(n: nat) returns (log: nat)
    requires n > 0
    ensures Pow2(log) <= n < Pow2(log + 1)
  {
    log := 0;
    var m := n;
    while m / 2 != 0
      invariant m > 0
      invariant m * Pow2(log) <= n < (m + 1) * Pow2(log)
    {
      HalvingStep(n, m, Pow2(log));
      m := m / 2;
      log := log + 1;
    }
  }

  lemma HalvingStep(n: int, m: int, p: int)
    requires p > 0 && m > 0 && m * p <= n < (m + 1) * p
    ensures (m / 2) * (2 * p) <= n < (m / 2 + 1) * (2 * p)
  {
    var h := m / 2;
    assert 2 * h <= m <= 2 * h + 1;
    assert (2 * h) * p <= m * p;
    assert (m + 1) * p <= (2 * h + 2) * p;
  }

  lemma EnoughBadPartitions(n: nat, log: nat)
    requires n >= INSERTION_SORT_THRESHOLD && n < Pow2(log + 1)
    ensures log > 0
  {
  }

  /** Sorts `[begin, end)` for every strict weak order. The ranges it partitions add up to no more than 14 times the
      length times its binary logarithm; those it heapsorts to no more than the length. */
  method Pdqsort<T(!new)>(a: array<T>, less: Comparator<T>, begin: int, end: int, branchless: bool)
    returns (ghost work: nat, ghost heaped: nat)
    requires StrictWeakOrder(less)
    requires 0 <= begin <= end <= a.Length
    modifies a
    ensures PermWithin(old(a[..]), a[..], begin, end)
    ensures SortedWithin(less, a[..], begin, end)
    ensures forall log: nat :: end - begin < Pow2(log + 1) ==> work <= (end - begin) * (14 * log)
    ensures heaped <= end - begin
  {
    hide PermWithin, SortedWithin, StrictWeakOrder, Budget;
    work, heaped := 0, 0;
    if begin == end {
      NothingToSort(a[..], less, begin);
      return;
    }
    var badAllowed := Log2(end - begin);
    work, heaped := PdqsortLoop(a, less, begin, end, badAllowed, true, branchless);
    if end - begin >= INSERTION_SORT_THRESHOLD {
      EnoughBadPartitions(end - begin, badAllowed);
      forall log: nat | end - begin < Pow2(log + 1)
        ensures work <= (end - begin) * (14 * log)
      {
        WorkBound(end - begin, badAllowed, log);
      }
    }
  }

  lemma NothingToSort<T>(s: seq<T>, less: Comparator<T>, begin: int)
    requires 0 <= begin <= |s|
    ensures PermWithin(s, s, begin, begin) && SortedWithin(less, s, begin, begin)
  {
  }

  /** The order of the elements turns at sample `i` of the range: up and then not up, or the other way round. */
  ghost predicate Turn<T(!new)>(less: Comparator<T>, s: seq<T>, begin: int, size: int, i: int)
    requires 0 <= begin <= begin + size <= |s| && size > NUM_TO_TRY * 10 && 1 <= i < NUM_TO_TRY
  {
    var offset := size / NUM_TO_TRY;
    SampleInRange(size, offset, i);
    less(s[begin + offset * (i - 1)], s[begin + offset * i]) != less(s[begin + offset * i], s[begin + (offset * (i + 1) - 1)])
  }

  /** How many of the samples before `i` are turns. */
  ghost function Turns<T(!new)>(less: Comparator<T>, s: seq<T>, begin: int, size: int, i: int): nat
    requires 0 <= begin <= begin + size <= |s| && size > NUM_TO_TRY * 10 && 1 <= i <= NUM_TO_TRY
    decreases i
  {
    if i == 1 then 0 else Turns(less, s, begin, size, i - 1) + (if Turn(less, s, begin, size, i - 1) then 1 else 0)
  }

  lemma NoTurns<T(!new)>(less: Comparator<T>, s: seq<T>, begin: int, size: int)
    requires 0 <= begin <= begin + size <= |s| && size > NUM_TO_TRY * 10
    ensures Turns(less, s, begin, size, 1) == 0
  {
  }

  lemma TurnsStep<T(!new)>(less: Comparator<T>, s: seq<T>, begin: int, size: int, i: int)
    requires 0 <= begin <= begin + size <= |s| && size > NUM_TO_TRY * 10 && 1 <= i < NUM_TO_TRY
    ensures Turns(less, s, begin, size, i + 1) == Turns(less, s, begin, size, i) + (if Turn(less, s, begin, size, i) then 1 else 0)
  {
  }

  lemma {:induction false} TurnsMonotone<T(!new)>(less: Comparator<T>, s: seq<T>, begin: int, size: int, i: int, j: int)
    requires 0 <= begin <= begin + size <= |s| && size > NUM_TO_TRY * 10 && 1 <= i <= j <= NUM_TO_TRY
    ensures Turns(less, s, begin, size, i) <= Turns(less, s, begin, size, j)
    decreases j
  {
    if i < j {
      TurnsMonotone(less, s, begin, size, i, j - 1);
    }
  }

  /** A long range of which more than three samples are turns. */
  ghost predicate TooManyTurns<T(!new)>(less: Comparator<T>, s: seq<T>, begin: int, end: int)
    requires 0 <= begin <= end <= |s|
  {
    end - begin > NUM_TO_TRY * 10 && Turns(less, s, begin, end - begin, NUM_TO_TRY) > TRY_SORT_ITERATIONS
  }

  /** 176 elements that are zero but for ones at `p` and every 22 places further on, four in all. */
  function FourPeaks(p: nat): seq<int> {
    seq(176, k => if k == p || k == p + 22 || k == p + 44 || k == p + 66 then 1 else 0)
  }

  lemma PeakTurn(p: nat, i: int)
    requires 11 <= p < 22 && 1 <= i < NUM_TO_TRY
    ensures |FourPeaks(p)| == 176
    ensures Turn((x: int, y: int) => x < y, FourPeaks(p), 0, 176, i) <==> (p == 11 || p == 21) && (i == 1 || i == 3 || i == 5 || i == 7)
  {
    SampleInRange(176, 11, i);
  }

  lemma {:induction false} PeakTurns(p: nat, i: int)
    requires 11 <= p < 22 && 1 <= i <= NUM_TO_TRY
    ensures |FourPeaks(p)| == 176
    ensures Turns((x: int, y: int) => x < y, FourPeaks(p), 0, 176, i) == if p != 11 && p != 21 then 0 else if i > 7 then 4 else i / 2
    decreases i
  {
    hide Turn, Turns;
    if i == 1 {
      NoTurns((x: int, y: int) => x < y, FourPeaks(p), 0, 176);
    } else {
      hide FourPeaks;
      PeakTurns(p, i - 1);
      PeakTurn(p, i - 1);
      TurnsStep((x: int, y: int) => x < y, FourPeaks(p), 0, 176, i - 1);
    }
  }

  /** The sampling sees a peak at the start and at the end of its eleventh elements, and nowhere in between. */
  lemma SampledPlaces(p: nat)
    requires 11 <= p < 22
    ensures |FourPeaks(p)| == 176 && (TooManyTurns((x: int, y: int) => x < y, FourPeaks(p), 0, 176) <==> p == 11 || p == 21)
  {
    hide Turns, FourPeaks;
    PeakTurns(p, NUM_TO_TRY);
  }

  lemma {:induction false} AscendingTurns<T(!new)>(less: Comparator<T>, s: seq<T>, begin: int, size: int, i: int)
    requires 0 <= begin <= begin + size <= |s| && size > NUM_TO_TRY * 10 && 1 <= i <= NUM_TO_TRY
    requires Ascending(less, s, begin, begin + size)
    ensures Turns(less, s, begin, size, i) == 0
    decreases i
  {
    if i == 1 {
      NoTurns(less, s, begin, size);
    } else {
      hide Turns;
      AscendingTurns(less, s, begin, size, i - 1);
      TurnsStep(less, s, begin, size, i - 1);
      SampleInRange(size, size / NUM_TO_TRY, i - 1);
      SamplesApart(size, size / NUM_TO_TRY, i - 1);
    }
  }

  lemma SamplesApart(size: int, offset: int, i: int)
    requires size > NUM_TO_TRY * 10 && offset == size / NUM_TO_TRY
    ensures offset * i < offset * (i + 1) - 1
  {
    assert offset * (i + 1) == offset * i + offset;
  }

  lemma AscendingNotRefused<T(!new)>(less: Comparator<T>, s: seq<T>, begin: int, end: int)
    requires Ascending(less, s, begin, end)
    ensures !TooManyTurns(less, s, begin, end)
  {
    hide Turns;
    if end - begin > NUM_TO_TRY * 10 {
      AscendingTurns(less, s, begin, end - begin, NUM_TO_TRY);
    }
  }

  /** Samples fifteen places; refuses a range with too many turns untouched, and tries to sort any other. */
  method TrySortImpl<T(!new)>(a: array<T>, less: Comparator<T>, begin: int, end: int, badAllowed: nat, branchless: bool)
    returns (sorted: bool, ghost splits: seq<Split<T>>)
    requires StrictWeakOrder(less)
    requires 0 <= begin <= end <= a.Length
    requires end - begin >= INSERTION_SORT_THRESHOLD ==> badAllowed > 0
    modifies a
    ensures PermWithin(old(a[..]), a[..], begin, end)
    ensures sorted ==> SortedWithin(less, a[..], begin, end)
    ensures TooManyTurns(less, old(a[..]), begin, end) ==> !sorted && a[..] == old(a[..])
    ensures !TooManyTurns(less, old(a[..]), begin, end) ==> Verdict(less, old(a[..]), begin, end, TRY_SORT_ITERATIONS, splits, sorted)
  {
    hide TooManyTurns, StrictWeakOrder, PermWithin, SortedWithin, Verdict;
    var refused := SampleRefuses(a, less, begin, end);
    if refused {
      PermReflexive(a[..], begin, end);
      return false, [];
    }
    sorted, splits := TrySortLoop(a, less, begin, end, badAllowed, TRY_SORT_ITERATIONS, false, true, branchless);
  }

  method IsTurn<T(!new)>(a: array<T>, less: Comparator<T>, begin: int, size: int, i: int) returns (turn: bool)
    requires 0 <= begin <= begin + size <= a.Length && size > NUM_TO_TRY * 10 && 1 <= i < NUM_TO_TRY
    ensures turn <==> Turn(less, a[..], begin, size, i)
  {
    var offset := size / NUM_TO_TRY;
    var prev, curr, next := offset * (i - 1), offset * i, offset * (i + 1) - 1;
    SampleInRange(size, offset, i);
    var prevLess := less(a[begin + prev], a[begin + curr]);
    var currLess := less(a[begin + curr], a[begin + next]);
    turn := !((prevLess && currLess) || (!prevLess && !currLess));
  }

  method SampleRefuses<T(!new)>(a: array<T>, less: Comparator<T>, begin: int, end: int) returns (refused: bool)
    requires 0 <= begin <= end <= a.Length
    ensures refused <==> TooManyTurns(less, a[..], begin, end)
  {
    hide Turn, Turns;
    var size := end - begin;
    if size > NUM_TO_TRY * 10 {
      var outOfOrder := 0;
      var i := 1;
      NoTurns(less, a[..], begin, size);
      while i < NUM_TO_TRY
        invariant 1 <= i <= NUM_TO_TRY
        invariant outOfOrder == Turns(less, a[..], begin, size, i) <= TRY_SORT_ITERATIONS
      {
        var turn := IsTurn(a, less, begin, size, i);
        TurnsStep(less, a[..], begin, size, i);
        if turn {
          outOfOrder := outOfOrder + 1;
          if outOfOrder > TRY_SORT_ITERATIONS {
            TurnsMonotone(less, a[..], begin, size, i + 1, NUM_TO_TRY);
            return true;
          }
        }
        i := i + 1;
      }
    }
    return false;
  }

  lemma SampleInRange(size: int, offset: int, i: int)
    requires size > NUM_TO_TRY * 10 && offset == size / NUM_TO_TRY && 1 <= i < NUM_TO_TRY
    ensures 0 <= offset * (i - 1) < offset * i <= offset * (i + 1) - 1 < size
  {
    assert offset * (i + 1) == offset * i + offset && offset * (i - 1) == offset * i - offset;
    assert offset * (i + 1) <= offset * 16;
  }

  /** Either sorts `[begin, end)` and says so, or leaves a rearrangement of it. The answer is that of at most three
      passes over the range and the left sides of its splits, each split around its median; see `VerdictExactly`. */
  method PdqsortTrySort<T(!new)>(a: array<T>, less: Comparator<T>, begin: int, end: int, branchless: bool)
    returns (sorted: bool, ghost splits: seq<Split<T>>)
    requires StrictWeakOrder(less)
    requires 0 <= begin <= end <= a.Length
    modifies a
    ensures PermWithin(old(a[..]), a[..], begin, end)
    ensures sorted ==> SortedWithin(less, a[..], begin, end)
    ensures TooManyTurns(less, old(a[..]), begin, end) ==> !sorted && a[..] == old(a[..])
    ensures !TooManyTurns(less, old(a[..]), begin, end) ==> Verdict(less, old(a[..]), begin, end, 3, splits, sorted)
  {
    hide TooManyTurns, StrictWeakOrder, PermWithin, SortedWithin, Verdict;
    NothingToTry(a[..], less, begin, end);
    NoPassVerdict(less, a[..], begin, end, 3);
    if begin == end { return true, []; }
    var badAllowed := Log2(end - begin);
    if end - begin >= INSERTION_SORT_THRESHOLD {
      EnoughBadPartitions(end - begin, badAllowed);
    }
    sorted, splits := TrySortImpl(a, less, begin, end, badAllowed, branchless);
  }

  lemma NothingToTry<T(!new)>(s: seq<T>, less: Comparator<T>, begin: int, end: int)
    requires 0 <= begin <= end <= |s|
    ensures begin == end ==> PermWithin(s, s, begin, end) && SortedWithin(less, s, begin, end) && !TooManyTurns(less, s, begin, end)
  {
  }

  /** What that means for the answer: fewer than 24 elements are always sorted; from 24 to 27 exactly when the median of
      the first, the middle and the last element leaves an eighth on either side; a strictly increasing range is never
      refused; a longer one that its pivot splits worse always is, and so are 24 or more equal elements, although
      they are sorted. */
  method TrySortAnswer<T(!new)>(a: array<T>, less: Comparator<T>, begin: int, end: int, branchless: bool, ghost median: T)
    returns (sorted: bool)
    requires StrictWeakOrder(less)
    requires 0 <= begin <= end <= a.Length
    modifies a
    ensures sorted ==> SortedWithin(less, a[..], begin, end) && PermWithin(old(a[..]), a[..], begin, end)
    ensures end - begin < 24 ==> sorted
    ensures 24 <= end - begin <= 27 && IsMedian(less, median, old(a[begin + (end - begin) / 2]), old(a[begin]), old(a[end - 1])) ==>
      (sorted <==> Balanced(less, old(a[begin..end]), median))
    ensures end - begin >= 24 && !Balanced(less, old(a[begin..end]), Chosen(less, old(a[..]), begin, end)[begin]) ==> !sorted
    ensures Ascending(less, old(a[..]), begin, end) ==> sorted
    ensures end - begin >= 24 && AllEqual(less, old(a[..]), begin, end) ==> SortedWithin(less, old(a[..]), begin, end) && !sorted
  {
    ghost var s, splits := a[..], [];
    assert a[begin..end] == s[begin..end];
    NotManyTurns(less, s, begin, end);
    hide TooManyTurns, Ascending, AllEqual, StrictWeakOrder, PermWithin, SortedWithin, Verdict, IsMedian, Balanced, Chosen;
    sorted, splits := PdqsortTrySort(a, less, begin, end, branchless);
    if AllEqual(less, s, begin, end) {
      AllEqualSorted(less, s, begin, end);
    }
    if Ascending(less, s, begin, end) {
      AscendingNotRefused(less, s, begin, end);
    }
    if !TooManyTurns(less, s, begin, end) {
      Answers(less, s, begin, end, splits, sorted, median);
    }
  }

  lemma NotManyTurns<T(!new)>(less: Comparator<T>, s: seq<T>, begin: int, end: int)
    requires 0 <= begin <= end <= |s|
    ensures end - begin <= 160 ==> !TooManyTurns(less, s, begin, end)
  {
  }

  lemma Answers<T(!new)>(less: Comparator<T>, s: seq<T>, begin: int, end: int, splits: seq<Split<T>>, sorted: bool, median: T)
    requires StrictWeakOrder(less) && 0 <= begin <= end <= |s| && Verdict(less, s, begin, end, 3, splits, sorted)
    ensures end - begin < 24 ==> sorted
    ensures 24 <= end - begin <= 27 && IsMedian(less, median, s[begin + (end - begin) / 2], s[begin], s[end - 1]) ==>
      (sorted <==> Balanced(less, s[begin..end], median))
    ensures end - begin >= 24 && !Balanced(less, s[begin..end], Chosen(less, s, begin, end)[begin]) ==> !sorted
    ensures Ascending(less, s, begin, end) ==> sorted
    ensures end - begin >= 24 && AllEqual(less, s, begin, end) ==> !sorted
  {
    hide Ascending, AllEqual, StrictWeakOrder, Verdict, IsMedian, Balanced, Chosen;
    if end - begin < 24 {
      ShortAccepted(less, s, begin, end, 3, splits, sorted);
    } else {
      if !Balanced(less, s[begin..end], Chosen(less, s, begin, end)[begin]) {
        UnbalancedRefused(less, s, begin, end, 3, splits, sorted);
      }
      if AllEqual(less, s, begin, end) {
        AllEqualRefused(less, s, begin, end, 3, splits, sorted);
      }
      if end - begin <= 27 && IsMedian(less, median, s[begin + (end - begin) / 2], s[begin], s[end - 1]) {
        MediumExactly(less, s, begin, end, 3, splits, sorted, median);
      }
    }
    if Ascending(less, s, begin, end) {
      AscendingAccepted(less, s, begin, end, 3, splits, sorted);
    }
  }
}
