/** When the loop that may give up does give up, and what it makes of a strictly increasing range and of one of equal
    elements. */
module PdqPattern {
  import opened Ordering
  import opened InsertionSort
  import opened Partition
  import opened PdqPivot

  ghost predicate Ascending<T>(less: Comparator<T>, s: seq<T>, lo: int, hi: int) {
    && 0 <= lo <= hi <= |s|
    && forall i, j :: lo <= i < j < hi ==> less(s[i], s[j])
  }

  /** No element of the range is less than another. */
  ghost predicate AllEqual<T>(less: Comparator<T>, s: seq<T>, lo: int, hi: int) {
    && 0 <= lo <= hi <= |s|
    && forall i, j :: lo <= i < hi && lo <= j < hi ==> !less(s[i], s[j])
  }

  lemma AscendingPair<T(!new)>(less: Comparator<T>, s: seq<T>, lo: int, hi: int, i: int, j: int)
    requires StrictWeakOrder(less) && Ascending(less, s, lo, hi) && lo <= i < j < hi
    ensures less(s[i], s[j]) && !less(s[j], s[i])
  {
    Asymmetric(less, s[i], s[j]);
  }

  lemma AllEqualSorted<T>(less: Comparator<T>, s: seq<T>, lo: int, hi: int)
    requires AllEqual(less, s, lo, hi)
    ensures SortedWithin(less, s, lo, hi)
  {
  }

  lemma AllEqualPerm<T(!new)>(less: Comparator<T>, s: seq<T>, t: seq<T>, lo: int, hi: int)
    requires AllEqual(less, s, lo, hi) && PermWithin(s, t, lo, hi)
    ensures AllEqual(less, t, lo, hi)
  {
    forall i, j | lo <= i < hi && lo <= j < hi
      ensures !less(t[i], t[j])
    {
      PermAll(s, t, lo, hi, x => forall k :: lo <= k < hi ==> !less(x, s[k]));
      PermAll(s, t, lo, hi, y => !less(t[i], y));
    }
  }

  /** Equal elements all go to the right of the pivot. */
  lemma AllEqualSplit<T>(less: Comparator<T>, s: seq<T>, begin: int, p: int, end: int)
    requires AllEqual(less, s, begin, end) && PartitionedRight(less, s, begin, p, end)
    ensures p == begin
  {
    if begin < p {
      FrontIsLess(less, s, begin, p, end, begin);
    }
  }

  lemma BackIsNotLess<T>(less: Comparator<T>, s: seq<T>, begin: int, p: int, end: int, k: int)
    requires PartitionedRight(less, s, begin, p, end) && p < k < end
    ensures !less(s[k], s[p])
  {
  }

  lemma FrontIsLess<T>(less: Comparator<T>, s: seq<T>, begin: int, p: int, end: int, k: int)
    requires PartitionedRight(less, s, begin, p, end) && begin <= k < p
    ensures less(s[k], s[p])
  {
  }

  /** With the middle element in front as the pivot, an increasing range is already partitioned. */
  lemma AscendingAlready<T(!new)>(less: Comparator<T>, s: seq<T>, begin: int, m: int, end: int)
    requires StrictWeakOrder(less) && Ascending(less, s, begin, end) && begin < m < end
    ensures AlreadyRight(less, Swapped(s, begin, m), begin, end)
  {
    var t := Swapped(s, begin, m);
    forall i, j | begin < i < j < end && less(t[j], t[begin])
      ensures less(t[i], t[begin])
    {
      if j > m {
        AscendingPair(less, s, begin, end, m, j);
      }
    }
  }

  /** Placing the pivot restores it. */
  lemma AscendingPlaced<T(!new)>(less: Comparator<T>, s: seq<T>, u: seq<T>, begin: int, m: int, p: int, end: int)
    requires StrictWeakOrder(less) && Ascending(less, s, begin, end) && begin < m < end && begin <= p < end
    requires u == Swapped(Swapped(s, begin, m), begin, p) && PartitionedRight(less, u, begin, p, end)
    ensures p == m && u == s
  {
    if p < m {
      AscendingPair(less, s, begin, end, begin, m);
      BackIsNotLess(less, u, begin, p, end, m);
    } else if m < p {
      AscendingPair(less, s, begin, end, m, p);
      FrontIsLess(less, u, begin, p, end, begin);
    }
  }

  lemma {:induction false} AscendingInversions<T(!new)>(less: Comparator<T>, s: seq<T>, lo: int, hi: int)
    requires StrictWeakOrder(less) && Ascending(less, s, lo, hi)
    ensures Inversions(less, s[lo..hi]) == 0
    decreases hi - lo
  {
    var u := s[lo..hi];
    if lo < hi {
      assert u[..|u| - 1] == s[lo..hi - 1];
      AscendingInversions(less, s, lo, hi - 1);
      forall j | 0 <= j < |u| - 1
        ensures !less(u[|u| - 1], u[j])
      {
        AscendingPair(less, s, lo, hi, lo + j, hi - 1);
      }
      CountGreaterSplit(less, u[..|u| - 1], |u| - 1, u[|u| - 1]);
    }
  }

  lemma AscendingWithin<T>(less: Comparator<T>, s: seq<T>, t: seq<T>, lo: int, hi: int, lo': int, hi': int)
    requires Ascending(less, s, lo, hi) && lo <= lo' <= hi' <= hi <= |t| && s[lo'..hi'] == t[lo'..hi']
    ensures Ascending(less, t, lo', hi')
  {
    forall i, j | lo' <= i < j < hi'
      ensures less(t[i], t[j])
    {
      assert t[i] == t[lo'..hi'][i - lo'] == s[i] && t[j] == t[lo'..hi'][j - lo'] == s[j];
    }
  }

  lemma AscendingChosen<T(!new)>(less: Comparator<T>, s: seq<T>, begin: int, end: int)
    requires StrictWeakOrder(less) && Ascending(less, s, begin, end) && 0 <= begin && end <= |s|
    requires end - begin >= INSERTION_SORT_THRESHOLD
    ensures Chosen(less, s, begin, end) == Swapped(s, begin, begin + (end - begin) / 2)
  {
    hide StrictWeakOrder, Swapped, Ordered3, Triples, Ascending;
    var mid := begin + (end - begin) / 2;
    AscendingTriples(less, s, begin, mid, end);
    AscendingExchanged(less, s, begin, end, begin, mid, end - 1);
  }

  lemma AscendingTriples<T(!new)>(less: Comparator<T>, s: seq<T>, begin: int, mid: int, end: int)
    requires StrictWeakOrder(less) && Ascending(less, s, begin, end) && 0 <= begin && begin + 5 < mid && mid + 5 < end <= |s|
    ensures Triples(less, s, begin, mid, end) == s
  {
    hide StrictWeakOrder, Ordered3, Ascending;
    AscendingOrdered(less, s, begin, end, begin, mid, end - 1);
    AscendingOrdered(less, s, begin, end, begin + 1, mid - 1, end - 2);
    AscendingOrdered(less, s, begin, end, begin + 2, mid + 1, end - 3);
    AscendingOrdered(less, s, begin, end, mid - 1, mid, mid + 1);
  }

  lemma AscendingOrdered<T(!new)>(less: Comparator<T>, s: seq<T>, begin: int, end: int, i: int, j: int, k: int)
    requires StrictWeakOrder(less) && Ascending(less, s, begin, end) && 0 <= begin <= i < j < k < end <= |s|
    ensures Ordered3(less, s, i, j, k) == s
  {
    AscendingPair(less, s, begin, end, i, j);
    AscendingPair(less, s, begin, end, j, k);
  }

  lemma AscendingExchanged<T(!new)>(less: Comparator<T>, s: seq<T>, begin: int, end: int, i: int, j: int, k: int)
    requires StrictWeakOrder(less) && Ascending(less, s, begin, end) && 0 <= begin <= i < j < k < end <= |s|
    ensures Ordered3(less, s, j, i, k) == Swapped(s, i, j)
  {
    AscendingPair(less, s, begin, end, i, j);
    AscendingPair(less, s, begin, end, j, k);
    assert Swapped(s, j, i) == Swapped(s, i, j);
  }

  /** At most eight pairs are out of order. */
  ghost predicate NearlySorted<T>(less: Comparator<T>, s: seq<T>, lo: int, hi: int) {
    0 <= lo <= hi <= |s| && Inversions(less, s[lo..hi]) <= 8
  }

  // ---------------------------------------------------------------- how many elements are smaller

  function Flipped<T>(less: Comparator<T>): Comparator<T> {
    (x, y) => less(y, x)
  }

  /** How many elements of `u` are less than `x`. */
  ghost function CountLess<T>(less: Comparator<T>, u: seq<T>, x: T): nat {
    CountGreater(Flipped(less), u, x)
  }

  lemma {:induction false} CountFront<T>(less: Comparator<T>, u: seq<T>, k: int, x: T)
    requires 0 <= k <= |u|
    requires forall j :: 0 <= j < k ==> less(u[j], x)
    requires forall j :: k <= j < |u| ==> !less(u[j], x)
    ensures CountLess(less, u, x) == k
  {
    if u != [] {
      CountFront(less, u[..|u| - 1], if k == |u| then k - 1 else k, x);
    }
  }

  lemma {:induction false} CountEquivalent<T(!new)>(less: Comparator<T>, u: seq<T>, x: T, y: T)
    requires StrictWeakOrder(less) && !less(x, y) && !less(y, x)
    ensures CountLess(less, u, x) == CountLess(less, u, y)
  {
    if u != [] {
      CountEquivalent(less, u[..|u| - 1], x, y);
      var z := u[|u| - 1];
      assert LawAt(less, z, x, y) && LawAt(less, z, y, x);
    }
  }

  /** A partition puts the pivot behind exactly the elements that are less. */
  lemma SplitCount<T(!new)>(less: Comparator<T>, s: seq<T>, t: seq<T>, begin: int, p: int, end: int)
    requires StrictWeakOrder(less) && PermWithin(s, t, begin, end) && PartitionedRight(less, t, begin, p, end)
    ensures CountLess(less, s[begin..end], t[p]) == p - begin
  {
    var u, v := s[begin..end], t[begin..end];
    PermSlices(s, t, begin, end);
    CountGreaterPerm(Flipped(less), u, v, t[p]);
    assert LawAt(less, t[p], t[p], t[p]);
    hide StrictWeakOrder, CountLess;
    CountFront(less, v, p - begin, t[p]);
    CountLessIs(less, u, t[p]);
    CountLessIs(less, v, t[p]);
  }

  lemma CountLessIs<T>(less: Comparator<T>, u: seq<T>, x: T)
    ensures CountLess(less, u, x) == CountGreater(Flipped(less), u, x)
  {
  }

  // ---------------------------------------------------------------- the passes of the loop that may give up

  /** One pass that gave neither a short range nor an answer before its partition: the range afterwards, the range the
      next pass starts from, and where the pivot went. */
  datatype Split<T> = Split(after: seq<T>, next: seq<T>, pos: int)

  /** Worse than one eighth on one side. */
  predicate Lopsided(begin: int, pos: int, end: int) {
    pos - begin < (end - begin) / 8 || end - (pos + 1) < (end - begin) / 8
  }

  /** `f` partitions the range around the chosen pivot. */
  ghost predicate SplitsOff<T(!new)>(less: Comparator<T>, s: seq<T>, begin: int, end: int, f: Split<T>)
    requires 0 <= begin && end <= |s| && end - begin >= INSERTION_SORT_THRESHOLD
  {
    var t := Chosen(less, s, begin, end);
    && PermWithin(s, t, begin, end) && PermWithin(t, f.after, begin, end)
    && PartitionedRight(less, f.after, begin, f.pos, end) && f.after[f.pos] == t[begin]
    && (AlreadyRight(less, t, begin, end) ==> f.after == Swapped(t, begin, f.pos))
  }

  /** Nothing had to be moved, and both sides are sorted but for eight inversions at most. */
  ghost predicate Finishes<T(!new)>(less: Comparator<T>, s: seq<T>, begin: int, end: int, f: Split<T>)
    requires 0 <= begin && end <= |s| && end - begin >= INSERTION_SORT_THRESHOLD
  {
    && AlreadyRight(less, Chosen(less, s, begin, end), begin, end)
    && NearlySorted(less, f.after, begin, f.pos) && NearlySorted(less, f.after, f.pos + 1, end)
  }

  /** What is left of the range when the left side is taken up. */
  ghost predicate GoesOn<T(!new)>(less: Comparator<T>, s: seq<T>, begin: int, end: int, f: Split<T>)
    requires 0 <= begin && end <= |s| && end - begin >= INSERTION_SORT_THRESHOLD
  {
    && PermWithin(f.after, f.next, begin, end) && PartitionedRight(less, f.next, begin, f.pos, end)
    && (!AlreadyRight(less, Chosen(less, s, begin, end), begin, end) ==> f.next == f.after)
  }

  /** The verdict on a range, from the passes over it and over the left sides of its splits: with no passes allowed
      the answer is no, a short range is sorted, a lopsided split is refused, a finished one accepted, and otherwise
      the left side decides. */
  ghost predicate Verdict<T(!new)>(less: Comparator<T>, s: seq<T>, begin: int, end: int, passes: nat, splits: seq<Split<T>>, sorted: bool)
    decreases passes
  {
    && 0 <= begin <= end <= |s|
    && if passes == 0 then splits == [] && !sorted
       else if end - begin < INSERTION_SORT_THRESHOLD then splits == [] && sorted
       else
         && splits != [] && SplitsOff(less, s, begin, end, splits[0])
         && (if Lopsided(begin, splits[0].pos, end) then |splits| == 1 && !sorted
             else if Finishes(less, s, begin, end, splits[0]) then |splits| == 1 && sorted
             else
               && GoesOn(less, s, begin, end, splits[0])
               && Verdict(less, splits[0].next, begin, splits[0].pos, passes - 1, splits[1..], sorted))
  }

  lemma NoPassVerdict<T(!new)>(less: Comparator<T>, s: seq<T>, begin: int, end: int, passes: nat)
    requires 0 <= begin <= end <= |s|
    ensures passes == 0 ==> Verdict(less, s, begin, end, passes, [], false)
    ensures passes > 0 && end - begin < INSERTION_SORT_THRESHOLD ==> Verdict(less, s, begin, end, passes, [], true)
  {
  }

  /** The verdict of a pass that partitions: at once, or by the left side. */
  lemma PassVerdict<T(!new)>(less: Comparator<T>, s: seq<T>, begin: int, end: int, passes: nat, f: Split<T>)
    requires 0 <= begin && end <= |s| && end - begin >= INSERTION_SORT_THRESHOLD && passes > 0
    requires SplitsOff(less, s, begin, end, f)
    ensures Lopsided(begin, f.pos, end) ==> Verdict(less, s, begin, end, passes, [f], false)
    ensures !Lopsided(begin, f.pos, end) && Finishes(less, s, begin, end, f) ==> Verdict(less, s, begin, end, passes, [f], true)
  {
    hide SplitsOff, Lopsided, Finishes, GoesOn;
  }

  lemma LeftVerdict<T(!new)>(less: Comparator<T>, s: seq<T>, begin: int, end: int, passes: nat, f: Split<T>, rest: seq<Split<T>>, sorted: bool)
    requires 0 <= begin && end <= |s| && end - begin >= INSERTION_SORT_THRESHOLD && passes > 0
    requires SplitsOff(less, s, begin, end, f) && !Lopsided(begin, f.pos, end) && !Finishes(less, s, begin, end, f)
    requires GoesOn(less, s, begin, end, f) && Verdict(less, f.next, begin, f.pos, passes - 1, rest, sorted)
    ensures Verdict(less, s, begin, end, passes, [f] + rest, sorted)
  {
    hide SplitsOff, Lopsided, Finishes, GoesOn;
    assert ([f] + rest)[1..] == rest;
  }

  /** Where the range of pass `i` ends. */
  function RangeEnd<T>(splits: seq<Split<T>>, end: int, i: nat): int
    requires i <= |splits|
  {
    if i == 0 then end else splits[i - 1].pos
  }

  function RangeOf<T>(splits: seq<Split<T>>, s: seq<T>, i: nat): seq<T>
    requires i <= |splits|
  {
    if i == 0 then s else splits[i - 1].next
  }

  ghost predicate LastIsLopsided<T>(begin: int, end: int, splits: seq<Split<T>>) {
    splits != [] && Lopsided(begin, splits[|splits| - 1].pos, RangeEnd(splits, end, |splits| - 1))
  }

  /** The last pass found its range partitioned and both sides nearly sorted. */
  ghost predicate LastFinishes<T(!new)>(less: Comparator<T>, s: seq<T>, begin: int, end: int, splits: seq<Split<T>>) {
    splits != [] && var last := |splits| - 1;
    && RangeEnd(splits, end, last) <= |RangeOf(splits, s, last)| && 0 <= begin
    && RangeEnd(splits, end, last) - begin >= INSERTION_SORT_THRESHOLD
    && Finishes(less, RangeOf(splits, s, last), begin, RangeEnd(splits, end, last), splits[last])
  }

  /** The answer is no if and only if the last split was lopsided, or all passes allowed were used up without one that
      finished; every split before the last was balanced. */
  lemma {:induction false} VerdictExactly<T(!new)>(less: Comparator<T>, s: seq<T>, begin: int, end: int, passes: nat, splits: seq<Split<T>>, sorted: bool)
    requires Verdict(less, s, begin, end, passes, splits, sorted)
    ensures |splits| <= passes
    ensures forall i :: 0 <= i < |splits| - 1 ==> !Lopsided(begin, splits[i].pos, RangeEnd(splits, end, i))
    ensures !sorted <==> LastIsLopsided(begin, end, splits) || (|splits| == passes && !LastFinishes(less, s, begin, end, splits))
    decreases passes
  {
    hide SplitsOff, Lopsided, GoesOn, Finishes;
    if passes > 0 && end - begin >= INSERTION_SORT_THRESHOLD {
      var f := splits[0];
      if !Lopsided(begin, f.pos, end) && !Finishes(less, s, begin, end, f) {
        var rest := splits[1..];
        VerdictExactly(less, f.next, begin, f.pos, passes - 1, rest, sorted);
        forall i | 0 <= i < |splits| - 1
          ensures !Lopsided(begin, splits[i].pos, RangeEnd(splits, end, i))
        {
          if i > 0 {
            assert RangeEnd(splits, end, i) == RangeEnd(rest, f.pos, i - 1) && rest[i - 1] == splits[i];
          }
        }
        LastOfRest(less, s, begin, end, splits);
      }
    }
  }

  lemma LastOfRest<T(!new)>(less: Comparator<T>, s: seq<T>, begin: int, end: int, splits: seq<Split<T>>)
    requires splits != []
    ensures var f, rest := splits[0], splits[1..];
      rest != [] ==>
        (LastIsLopsided(begin, end, splits) <==> LastIsLopsided(begin, f.pos, rest))
        && (LastFinishes(less, s, begin, end, splits) <==> LastFinishes(less, f.next, begin, f.pos, rest))
  {
    hide Lopsided, Finishes;
  }

  /** A short range is always sorted. */
  lemma ShortAccepted<T(!new)>(less: Comparator<T>, s: seq<T>, begin: int, end: int, passes: nat, splits: seq<Split<T>>, sorted: bool)
    requires Verdict(less, s, begin, end, passes, splits, sorted) && passes > 0 && end - begin < INSERTION_SORT_THRESHOLD
    ensures sorted
  {
  }

  ghost predicate Balanced<T>(less: Comparator<T>, u: seq<T>, pivot: T) {
    CountLess(less, u, pivot) >= |u| / 8 && |u| - 1 - CountLess(less, u, pivot) >= |u| / 8
  }

  lemma SplitBalance<T(!new)>(less: Comparator<T>, s: seq<T>, begin: int, end: int, f: Split<T>)
    requires StrictWeakOrder(less) && 0 <= begin && end <= |s| && end - begin >= INSERTION_SORT_THRESHOLD
    requires SplitsOff(less, s, begin, end, f)
    ensures !Lopsided(begin, f.pos, end) <==> Balanced(less, s[begin..end], Chosen(less, s, begin, end)[begin])
  {
    hide StrictWeakOrder, PermWithin, PartitionedRight, AlreadyRight, Chosen, Swapped, CountLess;
    PermTransitive(s, Chosen(less, s, begin, end), f.after, begin, end);
    SplitCount(less, s, f.after, begin, f.pos, end);
  }

  /** Any range from 24 elements on is refused if its own pivot splits it worse than one eighth. */
  lemma UnbalancedRefused<T(!new)>(less: Comparator<T>, s: seq<T>, begin: int, end: int, passes: nat, splits: seq<Split<T>>, sorted: bool)
    requires StrictWeakOrder(less) && Verdict(less, s, begin, end, passes, splits, sorted)
    requires end - begin >= INSERTION_SORT_THRESHOLD && !Balanced(less, s[begin..end], Chosen(less, s, begin, end)[begin])
    ensures !sorted
  {
    hide StrictWeakOrder, SplitsOff, Lopsided, GoesOn, Finishes, Balanced, Chosen;
    if passes > 0 {
      SplitBalance(less, s, begin, end, splits[0]);
    }
  }

  /** From 24 to 27 elements the answer is yes if and only if the median of the first, the middle and the last element
      leaves an eighth on either side. */
  lemma MediumExactly<T(!new)>(less: Comparator<T>, s: seq<T>, begin: int, end: int, passes: nat, splits: seq<Split<T>>, sorted: bool, median: T)
    requires StrictWeakOrder(less) && Verdict(less, s, begin, end, passes, splits, sorted)
    requires passes >= 2 && 24 <= end - begin <= 27
    requires IsMedian(less, median, s[begin + (end - begin) / 2], s[begin], s[end - 1])
    ensures sorted <==> Balanced(less, s[begin..end], median)
  {
    hide StrictWeakOrder, SplitsOff, GoesOn, Finishes, Chosen, IsMedian, CountLess;
    var f, pivot := splits[0], Chosen(less, s, begin, end)[begin];
    SplitBalance(less, s, begin, end, f);
    PivotOfThree(less, s, begin, end);
    MedianUnique(less, pivot, median, s[begin + (end - begin) / 2], s[begin], s[end - 1]);
    CountEquivalent(less, s[begin..end], pivot, median);
    if !Lopsided(begin, f.pos, end) && !Finishes(less, s, begin, end, f) {
      ShortAccepted(less, f.next, begin, f.pos, passes - 1, splits[1..], sorted);
    }
  }

  /** The first pass over an increasing range finds it partitioned in the middle and both sides sorted. */
  lemma AscendingPass<T(!new)>(less: Comparator<T>, s: seq<T>, u: seq<T>, begin: int, p: int, end: int)
    requires StrictWeakOrder(less) && Ascending(less, s, begin, end) && end - begin >= INSERTION_SORT_THRESHOLD
    requires PartitionedRight(less, u, begin, p, end) && |u| == |s|
    requires u == Swapped(Swapped(s, begin, begin + (end - begin) / 2), begin, p)
    ensures p == begin + (end - begin) / 2
    ensures NearlySorted(less, u, begin, p) && NearlySorted(less, u, p + 1, end)
  {
    AscendingPlaced(less, s, u, begin, begin + (end - begin) / 2, p, end);
    hide Swapped, PartitionedRight, Inversions;
    AscendingWithin(less, s, s, begin, end, begin, p);
    AscendingWithin(less, s, s, begin, end, p + 1, end);
    AscendingInversions(less, s, begin, p);
    AscendingInversions(less, s, p + 1, end);
  }

  /** A strictly increasing range is never refused. */
  lemma AscendingAccepted<T(!new)>(less: Comparator<T>, s: seq<T>, begin: int, end: int, passes: nat, splits: seq<Split<T>>, sorted: bool)
    requires StrictWeakOrder(less) && Verdict(less, s, begin, end, passes, splits, sorted) && passes > 0
    requires Ascending(less, s, begin, end)
    ensures sorted
  {
    hide StrictWeakOrder, PartitionedRight, AlreadyRight, Chosen, Swapped, Ascending, NearlySorted, GoesOn;
    if end - begin >= INSERTION_SORT_THRESHOLD {
      AscendingChosen(less, s, begin, end);
      AscendingMiddle(less, s, begin, end);
      AscendingPass(less, s, splits[0].after, begin, splits[0].pos, end);
    }
  }

  lemma AscendingMiddle<T(!new)>(less: Comparator<T>, s: seq<T>, begin: int, end: int)
    requires StrictWeakOrder(less) && Ascending(less, s, begin, end) && end - begin >= INSERTION_SORT_THRESHOLD
    ensures AlreadyRight(less, Swapped(s, begin, begin + (end - begin) / 2), begin, end)
  {
    AscendingAlready(less, s, begin, begin + (end - begin) / 2, end);
  }

  /** A range of at least 24 equal elements always is. */
  lemma AllEqualRefused<T(!new)>(less: Comparator<T>, s: seq<T>, begin: int, end: int, passes: nat, splits: seq<Split<T>>, sorted: bool)
    requires Verdict(less, s, begin, end, passes, splits, sorted) && end - begin >= INSERTION_SORT_THRESHOLD
    requires AllEqual(less, s, begin, end)
    ensures !sorted
  {
    hide PermWithin, PartitionedRight, AlreadyRight, Chosen, Swapped, AllEqual, NearlySorted, GoesOn;
    if passes > 0 {
      var f := splits[0];
      PermTransitive(s, Chosen(less, s, begin, end), f.after, begin, end);
      AllEqualPerm(less, s, f.after, begin, end);
      AllEqualSplit(less, f.after, begin, f.pos, end);
    }
  }
}
