/** A heapsort standing for the `std::make_heap` / `std::sort_heap` pair pdqsort falls back to. */
module HeapSort {
  import opened Ordering

  function Parent(c: int): int
    requires c > 0
  {
    (c - 1) / 2
  }

  /** Heap order of `[lo, hi)` at every parent from `from` on, except at `hole`. Positions are relative to `lo`. */
  ghost predicate HeapExcept<T>(less: Comparator<T>, s: seq<T>, lo: int, hi: int, from: int, hole: int)
    requires 0 <= lo <= hi <= |s|
  {
    forall c :: 0 < c < hi - lo && from <= Parent(c) && Parent(c) != hole ==> !less(s[lo + Parent(c)], s[lo + c])
  }

  ghost predicate Heap<T>(less: Comparator<T>, s: seq<T>, lo: int, hi: int, from: int)
    requires 0 <= lo <= hi <= |s|
  {
    HeapExcept(less, s, lo, hi, from, -1)
  }

  /** The children of `hole` are also not greater than the parent of `hole`. */
  ghost predicate Bridged<T>(less: Comparator<T>, s: seq<T>, lo: int, hi: int, from: int, hole: int)
    requires 0 <= lo <= hi <= |s|
  {
    forall c :: 0 < c < hi - lo && Parent(c) == hole && 0 < hole && from <= Parent(hole)
      ==> !less(s[lo + Parent(hole)], s[lo + c])
  }

  /** One exchange with the largest child moves the hole down a level. */
  lemma SiftStep<T(!new)>(less: Comparator<T>, s: seq<T>, lo: int, hi: int, from: int, hole: int, child: int)
    requires StrictWeakOrder(less)
    requires 0 <= lo <= hi <= |s|
    requires 0 <= from <= hole < child < hi - lo && Parent(child) == hole
    requires HeapExcept(less, s, lo, hi, from, hole) && Bridged(less, s, lo, hi, from, hole)
    requires less(s[lo + hole], s[lo + child])
    requires forall c :: 0 < c < hi - lo && Parent(c) == hole ==> !less(s[lo + child], s[lo + c])
    ensures var t := Swapped(s, lo + hole, lo + child);
            HeapExcept(less, t, lo, hi, from, child) && Bridged(less, t, lo, hi, from, child)
  {
    var t := Swapped(s, lo + hole, lo + child);
    Asymmetric(less, s[lo + hole], s[lo + child]);
    forall c | 0 < c < hi - lo && from <= Parent(c) && Parent(c) != child
      ensures !less(t[lo + Parent(c)], t[lo + c])
    {
    }
  }

  lemma HoleOpened<T>(less: Comparator<T>, s: seq<T>, lo: int, hi: int, from: int)
    requires 0 <= lo <= hi <= |s| && 0 <= from
    requires Heap(less, s, lo, hi, from + 1)
    ensures HeapExcept(less, s, lo, hi, from, from) && Bridged(less, s, lo, hi, from, from)
  {
  }

  lemma HoleClosed<T>(less: Comparator<T>, s: seq<T>, lo: int, hi: int, from: int, hole: int)
    requires 0 <= lo <= hi <= |s|
    requires HeapExcept(less, s, lo, hi, from, hole)
    requires forall c :: 0 < c < hi - lo && Parent(c) == hole ==> !less(s[lo + hole], s[lo + c])
    ensures Heap(less, s, lo, hi, from)
  {
  }

  method LargestChild<T(!new)>(a: array<T>, less: Comparator<T>, lo: int, hi: int, hole: int) returns (child: int)
    requires StrictWeakOrder(less)
    requires 0 <= lo <= hi <= a.Length && 0 <= hole && 2 * hole + 1 < hi - lo
    ensures hole < child < hi - lo && Parent(child) == hole
    ensures forall c :: 0 < c < hi - lo && Parent(c) == hole ==> !less(a[lo + child], a[lo + c])
  {
    child := 2 * hole + 1;
    if child + 1 < hi - lo && less(a[lo + child], a[lo + child + 1]) {
      child := child + 1;
    }
    assert forall c :: 0 < c && Parent(c) == hole ==> c == 2 * hole + 1 || c == 2 * hole + 2;
    assert LawAt(less, a[lo + child], a[lo + 2 * hole + 1], a[lo + child]);
  }

  lemma HoleAtRest<T(!new)>(less: Comparator<T>, s: seq<T>, lo: int, hi: int, from: int, hole: int, child: int)
    requires StrictWeakOrder(less)
    requires 0 <= lo <= hi <= |s| && 0 <= hole < child < hi - lo
    requires HeapExcept(less, s, lo, hi, from, hole)
    requires !less(s[lo + hole], s[lo + child])
    requires forall c :: 0 < c < hi - lo && Parent(c) == hole ==> !less(s[lo + child], s[lo + c])
    ensures Heap(less, s, lo, hi, from)
  {
    forall c | 0 < c < hi - lo && Parent(c) == hole ensures !less(s[lo + hole], s[lo + c]) {
      NotLessTransitive(less, s[lo + c], s[lo + child], s[lo + hole]);
    }
    HoleClosed(less, s, lo, hi, from, hole);
  }

  method SiftDown<T(!new)>(a: array<T>, less: Comparator<T>, lo: int, hi: int, from: int)
    requires StrictWeakOrder(less)
    requires 0 <= lo <= hi <= a.Length && 0 <= from < hi - lo
    requires Heap(less, a[..], lo, hi, from + 1)
    modifies a
    ensures PermWithin(old(a[..]), a[..], lo, hi)
    ensures Heap(less, a[..], lo, hi, from)
  {
    hide PermWithin, Swapped, Heap, HeapExcept, Bridged, StrictWeakOrder;
    var hole := from;
    ghost var s0 := a[..];
    PermReflexive(s0, lo, hi);
    HoleOpened(less, s0, lo, hi, from);
    while 2 * hole + 1 < hi - lo
      invariant from <= hole < hi - lo
      invariant PermWithin(s0, a[..], lo, hi)
      invariant HeapExcept(less, a[..], lo, hi, from, hole)
      invariant Bridged(less, a[..], lo, hi, from, hole)
      decreases hi - hole
    {
      var child := LargestChild(a, less, lo, hi, hole);
      ghost var s := a[..];
      if !less(a[lo + hole], a[lo + child]) {
        HoleAtRest(less, s, lo, hi, from, hole, child);
        return;
      }
      SiftStep(less, s, lo, hi, from, hole, child);
      Swap(a, lo + hole, lo + child, lo, hi);
      PermTransitive(s0, s, a[..], lo, hi);
      hole := child;
    }
    HoleClosed(less, a[..], lo, hi, from, hole);
  }

  lemma {:induction false} RootIsMax<T(!new)>(less: Comparator<T>, s: seq<T>, lo: int, hi: int, c: int)
    requires StrictWeakOrder(less)
    requires 0 <= lo <= hi <= |s| && 0 <= c < hi - lo
    requires Heap(less, s, lo, hi, 0)
    ensures !less(s[lo], s[lo + c])
    decreases c
  {
    if c == 0 {
      assert LawAt(less, s[lo], s[lo], s[lo]);
    } else {
      RootIsMax(less, s, lo, hi, Parent(c));
      NotLessTransitive(less, s[lo + c], s[lo + Parent(c)], s[lo]);
    }
  }

  method MakeHeap<T(!new)>(a: array<T>, less: Comparator<T>, lo: int, hi: int)
    requires StrictWeakOrder(less)
    requires 0 <= lo <= hi <= a.Length
    modifies a
    ensures PermWithin(old(a[..]), a[..], lo, hi)
    ensures Heap(less, a[..], lo, hi, 0)
  {
    var i := hi - lo;
    while i > 0
      invariant 0 <= i <= hi - lo
      invariant PermWithin(old(a[..]), a[..], lo, hi)
      invariant Heap(less, a[..], lo, hi, i)
    {
      i := i - 1;
      SiftDown(a, less, lo, hi, i);
    }
  }

  /** `[end, hi)` is sorted and not less than anything in `[lo, end)`. */
  ghost predicate TailInPlace<T>(less: Comparator<T>, s: seq<T>, lo: int, end: int, hi: int)
    requires 0 <= lo <= end <= hi <= |s|
  {
    forall i, j :: lo <= i < j && end <= j < hi ==> !less(s[j], s[i])
  }

  lemma TailInPlacePerm<T>(less: Comparator<T>, s: seq<T>, t: seq<T>, lo: int, end: int, hi: int)
    requires 0 <= lo <= end <= hi <= |s|
    requires TailInPlace(less, s, lo, end, hi) && PermWithin(s, t, lo, end)
    ensures TailInPlace(less, t, lo, end, hi)
  {
    forall i, j | lo <= i < j && end <= j < hi ensures !less(t[j], t[i]) {
      if i < end {
        PermAll(s, t, lo, end, x => !less(s[j], x));
      }
    }
  }

  lemma PopStep<T(!new)>(less: Comparator<T>, s: seq<T>, lo: int, end: int, hi: int)
    requires StrictWeakOrder(less)
    requires 0 <= lo < end <= hi <= |s|
    requires Heap(less, s, lo, end, 0) && TailInPlace(less, s, lo, end, hi)
    ensures var t := Swapped(s, lo, end - 1);
            Heap(less, t, lo, end - 1, 1) && TailInPlace(less, t, lo, end - 1, hi)
  {
    forall k | lo <= k < end ensures !less(s[lo], s[k]) {
      RootIsMax(less, s, lo, end, k - lo);
    }
  }

  method SortHeap<T(!new)>(a: array<T>, less: Comparator<T>, lo: int, hi: int)
    requires StrictWeakOrder(less)
    requires 0 <= lo <= hi <= a.Length
    requires Heap(less, a[..], lo, hi, 0)
    modifies a
    ensures PermWithin(old(a[..]), a[..], lo, hi)
    ensures SortedWithin(less, a[..], lo, hi)
  {
    var end := hi;
    ghost var s0 := a[..];
    PermReflexive(s0, lo, hi);
    hide PermWithin, Swapped, HeapExcept;
    while end - lo > 1
      invariant lo <= end <= hi
      invariant PermWithin(s0, a[..], lo, hi)
      invariant Heap(less, a[..], lo, end, 0)
      invariant TailInPlace(less, a[..], lo, end, hi)
    {
      ghost var s := a[..];
      PopStep(less, s, lo, end, hi);
      end := end - 1;
      Swap(a, lo, end, lo, hi);
      ghost var t := a[..];
      PermTransitive(s0, s, t, lo, hi);
      SiftDown(a, less, lo, end, 0);
      PermWiden(t, a[..], lo, end, lo, hi);
      PermTransitive(s0, t, a[..], lo, hi);
      TailInPlacePerm(less, t, a[..], lo, end, hi);
    }
  }
}
