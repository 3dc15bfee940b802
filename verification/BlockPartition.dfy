/** The branchless partition of pdqsort: misplaced elements are first collected as offsets in two
    small buffers, then exchanged in bulk. */
module BlockPartition {
  import opened Ordering
  import opened Partition

  const BLOCK_SIZE: nat := 64

  ghost predicate Increasing(offs: seq<int>) {
    forall i, j :: 0 <= i < j < |offs| ==> offs[i] < offs[j]
  }

  /** `offs` lists, in order, exactly the misplaced elements of the block of `size` elements at `first`. */
  ghost predicate LeftBlock<T>(less: Comparator<T>, s: seq<T>, pivot: T, first: int, size: int, offs: seq<int>) {
    && 0 <= first && first + size <= |s|
    && Increasing(offs)
    && (forall i :: 0 <= i < |offs| ==> 0 <= offs[i] < size)
    && (forall j :: first <= j < first + size ==> (j - first in offs <==> !less(s[j], pivot)))
  }

  /** The mirror image: offsets count back from `last`, starting at one. */
  ghost predicate RightBlock<T>(less: Comparator<T>, s: seq<T>, pivot: T, last: int, size: int, offs: seq<int>) {
    && 0 <= last - size && last <= |s|
    && Increasing(offs)
    && (forall i :: 0 <= i < |offs| ==> 0 < offs[i] <= size)
    && (forall j :: last - size <= j < last ==> (last - j in offs <==> less(s[j], pivot)))
  }

  /** Everything before `first` is less than the pivot `s[begin]`; nothing from `last` on is. */
  ghost predicate Sides<T>(less: Comparator<T>, s: seq<T>, begin: int, first: int, last: int, end: int) {
    && 0 <= begin < first <= end <= |s| && first - 1 <= last <= end
    && (forall k :: begin < k < first ==> less(s[k], s[begin]))
    && (forall k :: first <= k && last <= k < end ==> !less(s[k], s[begin]))
  }

  lemma EmptyBlocks<T>(less: Comparator<T>, s: seq<T>, pivot: T, first: int, last: int)
    ensures 0 <= first <= |s| ==> LeftBlock(less, s, pivot, first, 0, [])
    ensures 0 <= last <= |s| ==> RightBlock(less, s, pivot, last, 0, []) && RightBlock(less, s, pivot, last, -1, [])
  {
  }

  lemma LeftBlockNext<T>(less: Comparator<T>, s: seq<T>, pivot: T, first: int, i: int, offs: seq<int>)
    requires LeftBlock(less, s, pivot, first, i, offs) && 0 <= i && first + i < |s|
    ensures LeftBlock(less, s, pivot, first, i + 1, if !less(s[first + i], pivot) then offs + [i] else offs)
  {
  }

  lemma RightBlockNext<T>(less: Comparator<T>, s: seq<T>, pivot: T, last: int, i: int, offs: seq<int>)
    requires RightBlock(less, s, pivot, last, i, offs) && 0 <= i < last
    ensures RightBlock(less, s, pivot, last, i + 1, if less(s[last - i - 1], pivot) then offs + [i + 1] else offs)
  {
  }

  /** Fills the left buffer. The write is unconditional; only the count depends on the comparison. */
  method FillLeft<T>(a: array<T>, less: Comparator<T>, pivot: T, first: int, size: int, offsets: array<int>)
    returns (num: int)
    requires 0 <= first <= first + size <= a.Length && size <= BLOCK_SIZE == offsets.Length
    requires a as object != offsets as object
    modifies offsets
    ensures 0 <= num <= size
    ensures LeftBlock(less, a[..], pivot, first, size, offsets[..num])
  {
    hide LeftBlock;
    num := 0;
    var i := 0;
    EmptyBlocks(less, a[..], pivot, first, first);
    while i < size
      invariant 0 <= num <= i <= size
      invariant LeftBlock(less, a[..], pivot, first, i, offsets[..num])
    {
      ghost var before := offsets[..num];
      LeftBlockNext(less, a[..], pivot, first, i, before);
      offsets[num] := i;
      assert offsets[..num] == before && offsets[..num + 1] == before + [i];
      num := num + (if !less(a[first + i], pivot) then 1 else 0);
      i := i + 1;
    }
  }

  method FillRight<T>(a: array<T>, less: Comparator<T>, pivot: T, last: int, size: int, offsets: array<int>)
    returns (num: int)
    requires 0 <= last <= a.Length && 0 <= last - size <= a.Length && -1 <= size <= BLOCK_SIZE == offsets.Length
    requires a as object != offsets as object
    modifies offsets
    ensures 0 <= num && (num <= size || num == 0)
    ensures RightBlock(less, a[..], pivot, last, size, offsets[..num])
  {
    hide RightBlock;
    num := 0;
    var i := 0;
    EmptyBlocks(less, a[..], pivot, last, last);
    while i < size
      invariant 0 <= num <= i && (i <= size || i == 0)
      invariant RightBlock(less, a[..], pivot, last, i, offsets[..num])
    {
      ghost var before := offsets[..num];
      RightBlockNext(less, a[..], pivot, last, i, before);
      i := i + 1;
      offsets[num] := i;
      assert offsets[..num] == before && offsets[..num + 1] == before + [i];
      num := num + (if less(a[last - i], pivot) then 1 else 0);
    }
  }

  ghost predicate Distinct(p: seq<int>) {
    forall i, j :: 0 <= i < j < |p| ==> p[i] != p[j]
  }

  /** Positions `p` hold elements that belong right, positions `q` as many that belong left. */
  ghost predicate Misplaced<T>(less: Comparator<T>, s: seq<T>, pivot: T, p: seq<int>, q: seq<int>) {
    && |p| == |q| && Distinct(p) && Distinct(q)
    && (forall i :: 0 <= i < |p| ==> 0 <= p[i] < |s| && !less(s[p[i]], pivot))
    && (forall i :: 0 <= i < |q| ==> 0 <= q[i] < |s| && less(s[q[i]], pivot))
  }

  /** What exchanging the first `n` pairs achieves, whatever the order in which elements travel. */
  ghost predicate Exchanged<T>(less: Comparator<T>, s: seq<T>, t: seq<T>, pivot: T, p: seq<int>, q: seq<int>, n: int)
    requires Misplaced(less, s, pivot, p, q) && 0 <= n <= |p|
  {
    && |s| == |t|
    && (forall i :: 0 <= i < n ==> less(t[p[i]], pivot))
    && (forall i :: 0 <= i < n ==> !less(t[q[i]], pivot))
    && (forall i :: n <= i < |p| ==> t[p[i]] == s[p[i]])
    && (forall i :: n <= i < |q| ==> t[q[i]] == s[q[i]])
    && (forall k :: 0 <= k < |s| && k !in p && k !in q ==> t[k] == s[k])
  }

  /** Pair `n` is exchanged; the right end of the pair before may receive another element of its side. */
  lemma ExchangeStep<T>(less: Comparator<T>, s: seq<T>, t: seq<T>, pivot: T, p: seq<int>, q: seq<int>, n: int, u: seq<T>)
    requires Misplaced(less, s, pivot, p, q) && 0 <= n < |p|
    requires Exchanged(less, s, t, pivot, p, q, n)
    requires |u| == |t|
    requires less(u[p[n]], pivot) && !less(u[q[n]], pivot)
    requires 0 < n ==> !less(u[q[n - 1]], pivot)
    requires forall k :: 0 <= k < |t| && k != p[n] && k != q[n] && (0 < n ==> k != q[n - 1]) ==> u[k] == t[k]
    ensures Exchanged(less, s, u, pivot, p, q, n + 1)
  {
    LeftAndRightApart(less, s, pivot, p, q);
  }

  lemma LeftAndRightApart<T>(less: Comparator<T>, s: seq<T>, pivot: T, p: seq<int>, q: seq<int>)
    requires Misplaced(less, s, pivot, p, q)
    ensures forall i, j :: 0 <= i < |p| && 0 <= j < |q| ==> p[i] != q[j]
  {
  }

  ghost function LeftPositions(first: int, l: seq<int>): (p: seq<int>)
    ensures |p| == |l| && forall i :: 0 <= i < |l| ==> p[i] == first + l[i]
  {
    seq(|l|, i requires 0 <= i < |l| => first + l[i])
  }

  ghost function RightPositions(last: int, r: seq<int>): (q: seq<int>)
    ensures |q| == |r| && forall i :: 0 <= i < |r| ==> q[i] == last - r[i]
  {
    seq(|r|, i requires 0 <= i < |r| => last - r[i])
  }

  /** The pairs exchanged one by one. */
  method SwapPairs<T>(a: array<T>, ghost less: Comparator<T>, ghost pivot: T, first: int, last: int,
                      l: seq<int>, r: seq<int>, ghost p: seq<int>, ghost q: seq<int>, ghost lo: int, ghost hi: int)
    requires 0 <= lo <= hi <= a.Length
    requires p == LeftPositions(first, l) && q == RightPositions(last, r)
    requires Misplaced(less, a[..], pivot, p, q)
    requires forall i :: 0 <= i < |p| ==> lo <= p[i] < hi && lo <= q[i] < hi
    modifies a
    ensures Exchanged(less, old(a[..]), a[..], pivot, p, q, |p|)
    ensures PermWithin(old(a[..]), a[..], lo, hi)
  {
    hide PermWithin, Swapped;
    ghost var s := a[..];
    PermReflexive(s, lo, hi);
    LeftAndRightApart(less, s, pivot, p, q);
    var i := 0;
    while i < |l|
      invariant 0 <= i <= |l|
      invariant Exchanged(less, s, a[..], pivot, p, q, i)
      invariant PermWithin(s, a[..], lo, hi)
    {
      ghost var t := a[..];
      Swap(a, first + l[i], last - r[i], lo, hi);
      PermTransitive(s, t, a[..], lo, hi);
      ExchangeStep(less, s, t, pivot, p, q, i, a[..]);
      i := i + 1;
    }
  }

  /** Three elements moved round: what stood at `p` goes to `hole`, at `q` to `p`, at `hole` to `q`. */
  function Rotated<T>(t: seq<T>, hole: int, p: int, q: int): seq<T>
    requires 0 <= hole < |t| && 0 <= p < |t| && 0 <= q < |t|
  {
    t[hole := t[p]][p := t[q]][q := t[hole]]
  }

  lemma RotatedIsPerm<T>(t: seq<T>, hole: int, p: int, q: int, lo: int, hi: int)
    requires 0 <= lo <= hi <= |t|
    requires lo <= hole < hi && lo <= p < hi && lo <= q < hi && hole != p && p != q && hole != q
    ensures PermWithin(t, Rotated(t, hole, p, q), lo, hi)
  {
    SwappedIsPerm(t, hole, p, lo, hi);
    SwappedIsPerm(Swapped(t, hole, p), p, q, lo, hi);
    assert Rotated(t, hole, p, q) == Swapped(Swapped(t, hole, p), p, q);
  }

  lemma RotateStep<T>(less: Comparator<T>, s: seq<T>, t: seq<T>, pivot: T, p: seq<int>, q: seq<int>, n: int, lo: int, hi: int)
    requires Misplaced(less, s, pivot, p, q) && 0 < n < |p|
    requires Exchanged(less, s, t, pivot, p, q, n) && PermWithin(s, t, lo, hi)
    requires forall i :: 0 <= i < |p| ==> lo <= p[i] < hi && lo <= q[i] < hi
    ensures q[n - 1] != p[n] && p[n] != q[n] && q[n - 1] != q[n]
    ensures Exchanged(less, s, Rotated(t, q[n - 1], p[n], q[n]), pivot, p, q, n + 1)
    ensures PermWithin(s, Rotated(t, q[n - 1], p[n], q[n]), lo, hi)
  {
    LeftAndRightApart(less, s, pivot, p, q);
    ExchangeStep(less, s, t, pivot, p, q, n, Rotated(t, q[n - 1], p[n], q[n]));
    hide PermWithin;
    RotatedIsPerm(t, q[n - 1], p[n], q[n], lo, hi);
    PermTransitive(s, t, Rotated(t, q[n - 1], p[n], q[n]), lo, hi);
  }

  lemma CycleStart<T>(less: Comparator<T>, s: seq<T>, pivot: T, p: seq<int>, q: seq<int>, lo: int, hi: int)
    requires 0 <= lo <= hi <= |s|
    requires Misplaced(less, s, pivot, p, q) && |p| > 0
    requires lo <= p[0] < hi && lo <= q[0] < hi
    ensures Exchanged(less, s, Swapped(s, p[0], q[0]), pivot, p, q, 1)
    ensures PermWithin(s, Swapped(s, p[0], q[0]), lo, hi)
  {
    LeftAndRightApart(less, s, pivot, p, q);
    ExchangeStep(less, s, s, pivot, p, q, 0, Swapped(s, p[0], q[0]));
    SwappedIsPerm(s, p[0], q[0], lo, hi);
  }

  /** Takes the first element out, leaving the hole at `q`. */
  method CycleOpen<T>(a: array<T>, p: int, q: int) returns (tmp: T)
    requires 0 <= p < a.Length && 0 <= q < a.Length
    modifies a
    ensures a[..][q := tmp] == Swapped(old(a[..]), p, q)
  {
    tmp := a[p];
    a[p] := a[q];
  }

  /** The two assignments of a step: with its hole filled by `tmp`, the array has been rotated. */
  method CycleMove<T>(a: array<T>, hole: int, p: int, q: int, ghost tmp: T, ghost t: seq<T>)
    requires 0 <= hole < a.Length && 0 <= p < a.Length && 0 <= q < a.Length
    requires hole != p && p != q && hole != q
    requires t == a[..][hole := tmp]
    modifies a
    ensures a[..][q := tmp] == Rotated(t, hole, p, q)
  {
    a[hole] := a[p];
    a[p] := a[q];
  }

  /** The pairs exchanged along a single cycle, which moves each element only once. */
  method SwapCycle<T>(a: array<T>, ghost less: Comparator<T>, ghost pivot: T, first: int, last: int,
                      l: seq<int>, r: seq<int>, ghost p: seq<int>, ghost q: seq<int>, ghost lo: int, ghost hi: int)
    requires 0 <= lo <= hi <= a.Length && |l| == |r| > 0
    requires p == LeftPositions(first, l) && q == RightPositions(last, r)
    requires Misplaced(less, a[..], pivot, p, q)
    requires forall i :: 0 <= i < |p| ==> lo <= p[i] < hi && lo <= q[i] < hi
    modifies a
    ensures Exchanged(less, old(a[..]), a[..], pivot, p, q, |p|)
    ensures PermWithin(old(a[..]), a[..], lo, hi)
  {
    hide *;
    ghost var s := a[..];
    CycleStart(less, s, pivot, p, q, lo, hi);
    var pr := last - r[0];
    var tmp := CycleOpen(a, first + l[0], pr);
    ghost var t := Swapped(s, p[0], q[0]);
    var i := 1;
    while i < |l|
      invariant 1 <= i <= |l|
      invariant pr == q[i - 1]
      invariant t == a[..][pr := tmp]
      invariant Exchanged(less, s, t, pivot, p, q, i)
      invariant PermWithin(s, t, lo, hi)
    {
      RotateStep(less, s, t, pivot, p, q, i, lo, hi);
      var next := last - r[i];
      CycleMove(a, pr, first + l[i], next, tmp, t);
      t := Rotated(t, pr, p[i], q[i]);
      pr := next;
      i := i + 1;
    }
    a[pr] := tmp;
    assert a[..] == t;
  }

  method SwapOffsets<T>(a: array<T>, ghost less: Comparator<T>, ghost pivot: T, first: int, last: int,
                        l: seq<int>, r: seq<int>, useSwaps: bool, ghost lo: int, ghost hi: int)
    requires 0 <= lo <= hi <= a.Length
    requires Misplaced(less, a[..], pivot, LeftPositions(first, l), RightPositions(last, r))
    requires forall i :: 0 <= i < |l| ==> lo <= first + l[i] < hi
    requires forall i :: 0 <= i < |r| ==> lo <= last - r[i] < hi
    modifies a
    ensures Exchanged(less, old(a[..]), a[..], pivot, LeftPositions(first, l), RightPositions(last, r), |l|)
    ensures PermWithin(old(a[..]), a[..], lo, hi)
  {
    if useSwaps {
      SwapPairs(a, less, pivot, first, last, l, r, LeftPositions(first, l), RightPositions(last, r), lo, hi);
    } else if |l| > 0 {
      SwapCycle(a, less, pivot, first, last, l, r, LeftPositions(first, l), RightPositions(last, r), lo, hi);
    }
  }

  /** The first `n` offsets of each buffer are pairs to exchange. */
  lemma PairsMisplaced<T>(less: Comparator<T>, s: seq<T>, pivot: T, first: int, lSize: int, last: int, rSize: int,
                          l: seq<int>, r: seq<int>, n: int)
    requires LeftBlock(less, s, pivot, first, lSize, l) && RightBlock(less, s, pivot, last, rSize, r)
    requires first + lSize <= last - rSize
    requires 0 <= n <= |l| && n <= |r|
    ensures Misplaced(less, s, pivot, LeftPositions(first, l[..n]), RightPositions(last, r[..n]))
  {
    forall i | 0 <= i < n ensures !less(s[first + l[i]], pivot) {
      var j := first + l[i];
      assert j - first == l[i];
      assert j - first in l;
    }
    forall i | 0 <= i < n ensures less(s[last - r[i]], pivot) {
      var j := last - r[i];
      assert last - j == r[i];
      assert last - j in r;
    }
  }

  /** After the exchange the left buffer still lists exactly what is misplaced, without the first `n`. */
  lemma LeftBlockAfter<T>(less: Comparator<T>, s: seq<T>, t: seq<T>, pivot: T, first: int, size: int, last: int,
                          l: seq<int>, r: seq<int>, n: int)
    requires LeftBlock(less, s, pivot, first, size, l)
    requires 0 <= n <= |l| && |r| == n
    requires forall i :: 0 <= i < n ==> first + size <= last - r[i]
    requires Misplaced(less, s, pivot, LeftPositions(first, l[..n]), RightPositions(last, r))
    requires Exchanged(less, s, t, pivot, LeftPositions(first, l[..n]), RightPositions(last, r), n)
    ensures LeftBlock(less, t, pivot, first, size, l[n..])
  {
    var p, q := LeftPositions(first, l[..n]), RightPositions(last, r);
    forall j | first <= j < first + size ensures (j - first in l[n..] <==> !less(t[j], pivot)) {
      assert j !in q;
      if j in p {
        var i :| 0 <= i < n && p[i] == j;
        assert l[i] == j - first;
      } else {
        forall i | 0 <= i < n ensures l[i] != j - first {
          assert p[i] != j;
        }
        assert l == l[..n] + l[n..];
      }
    }
  }

  lemma RightBlockAfter<T>(less: Comparator<T>, s: seq<T>, t: seq<T>, pivot: T, first: int, last: int, size: int,
                           l: seq<int>, r: seq<int>, n: int)
    requires RightBlock(less, s, pivot, last, size, r)
    requires 0 <= n <= |r| && |l| == n
    requires forall i :: 0 <= i < n ==> first + l[i] < last - size
    requires Misplaced(less, s, pivot, LeftPositions(first, l), RightPositions(last, r[..n]))
    requires Exchanged(less, s, t, pivot, LeftPositions(first, l), RightPositions(last, r[..n]), n)
    ensures RightBlock(less, t, pivot, last, size, r[n..])
  {
    var p, q := LeftPositions(first, l), RightPositions(last, r[..n]);
    forall j | last - size <= j < last ensures (last - j in r[n..] <==> less(t[j], pivot)) {
      assert j !in p;
      if j in q {
        var i :| 0 <= i < n && q[i] == j;
        assert r[i] == last - j;
      } else {
        forall i | 0 <= i < n ensures r[i] != last - j {
          assert q[i] != j;
        }
        assert r == r[..n] + r[n..];
      }
    }
  }

  /** An exhausted left block moves `first` past it. */
  lemma LeftBlockDone<T>(less: Comparator<T>, s: seq<T>, begin: int, first: int, size: int, last: int, end: int)
    requires Sides(less, s, begin, first, last, end)
    requires LeftBlock(less, s, s[begin], first, size, []) && 0 <= size && first + size <= last + 1 && first + size <= end
    ensures Sides(less, s, begin, first + size, last, end)
  {
  }

  lemma RightBlockDone<T>(less: Comparator<T>, s: seq<T>, begin: int, first: int, last: int, size: int, end: int)
    requires Sides(less, s, begin, first, last, end)
    requires RightBlock(less, s, s[begin], last, size, []) && -1 <= size && first <= last - size <= end
    ensures Sides(less, s, begin, first, last - size, end)
  {
  }

  lemma SidesAfter<T>(less: Comparator<T>, s: seq<T>, t: seq<T>, begin: int, first: int, last: int, end: int)
    requires Sides(less, s, begin, first, last, end)
    requires first <= last + 1 && PermWithin(s, t, first, if first <= last then last else first)
    ensures Sides(less, t, begin, first, last, end)
  {
  }

  lemma RoundBounds<T>(less: Comparator<T>, s: seq<T>, pivot: T, first: int, last: int, lSize: int, rSize: int,
                       l: seq<int>, r: seq<int>, n: int, hi: int)
    requires LeftBlock(less, s, pivot, first, lSize, l) && RightBlock(less, s, pivot, last, rSize, r)
    requires first + lSize <= last - rSize && 0 <= lSize && 0 <= n <= |l| && n <= |r|
    requires (first <= last && 0 <= rSize) || lSize == 0
    requires hi == (if first <= last then last else first)
    ensures forall i :: 0 <= i < n ==> first <= first + l[..n][i] < hi && first + l[..n][i] < last - rSize
    ensures forall i :: 0 <= i < n ==> first <= last - r[..n][i] < hi && first + lSize <= last - r[..n][i]
  {
  }

  /** The state after `n` exchanges: the blocks without their first `n` offsets, the sides as before. */
  lemma RoundAfter<T>(less: Comparator<T>, s: seq<T>, t: seq<T>, begin: int, first: int, last: int, end: int,
                      lSize: int, rSize: int, l: seq<int>, r: seq<int>, n: int, hi: int)
    requires Sides(less, s, begin, first, last, end)
    requires LeftBlock(less, s, s[begin], first, lSize, l) && RightBlock(less, s, s[begin], last, rSize, r)
    requires first + lSize <= last - rSize && 0 <= lSize && 0 <= n <= |l| && n <= |r|
    requires (first <= last && 0 <= rSize) || lSize == 0
    requires hi == (if first <= last then last else first)
    requires Misplaced(less, s, s[begin], LeftPositions(first, l[..n]), RightPositions(last, r[..n]))
    requires Exchanged(less, s, t, s[begin], LeftPositions(first, l[..n]), RightPositions(last, r[..n]), n)
    requires PermWithin(s, t, first, hi)
    ensures t[begin] == s[begin]
    ensures PermWithin(s, t, begin, end)
    ensures Sides(less, t, begin, first, last, end)
    ensures LeftBlock(less, t, s[begin], first, lSize, l[n..])
    ensures RightBlock(less, t, s[begin], last, rSize, r[n..])
    ensures n == 0 ==> t == s
  {
    hide LeftBlock, RightBlock, Exchanged, Misplaced;
    RoundBounds(less, s, s[begin], first, last, lSize, rSize, l, r, n, hi);
    SidesAfter(less, s, t, begin, first, last, end);
    LeftBlockAfter(less, s, t, s[begin], first, lSize, last, l, r[..n], n);
    RightBlockAfter(less, s, t, s[begin], first, last, rSize, l[..n], r, n);
    if n == 0 {
      NothingExchanged(less, s, t, s[begin], LeftPositions(first, l[..n]), RightPositions(last, r[..n]));
    }
  }

  lemma NothingExchanged<T>(less: Comparator<T>, s: seq<T>, t: seq<T>, pivot: T, p: seq<int>, q: seq<int>)
    requires Misplaced(less, s, pivot, p, q) && p == []
    requires Exchanged(less, s, t, pivot, p, q, 0)
    ensures s == t
  {
  }

  /** Exchanges as many pairs as both buffers offer and moves past every block that is exhausted. */
  method SwapRound<T>(a: array<T>, ghost less: Comparator<T>, ghost begin: int, first0: int, last0: int, ghost end: int,
                      lSize: int, rSize: int, l: seq<int>, r: seq<int>)
    returns (num: int, first: int, last: int)
    requires Sides(less, a[..], begin, first0, last0, end)
    requires LeftBlock(less, a[..], a[begin], first0, lSize, l)
    requires RightBlock(less, a[..], a[begin], last0, rSize, r)
    requires 0 <= lSize && -1 <= rSize && first0 + lSize <= last0 - rSize <= end
    requires (first0 <= last0 && 0 <= rSize) || lSize == 0
    modifies a
    ensures num == (if |l| < |r| then |l| else |r|)
    ensures first == (if |l| == num then first0 + lSize else first0)
    ensures last == (if |r| == num then last0 - rSize else last0)
    ensures Sides(less, a[..], begin, first, last, end)
    ensures |l| > num ==> LeftBlock(less, a[..], a[begin], first, lSize, l[num..])
    ensures |r| > num ==> RightBlock(less, a[..], a[begin], last, rSize, r[num..])
    ensures PermWithin(old(a[..]), a[..], begin, end)
    ensures a[begin] == old(a[begin])
    ensures num == 0 ==> a[..] == old(a[..])
  {
    hide *;
    num := if |l| < |r| then |l| else |r|;
    ghost var s := a[..];
    SidesBounds(less, s, begin, first0, last0, end);
    ghost var pivot := a[begin];
    ghost var hi := if first0 <= last0 then last0 else first0;
    RoundBounds(less, s, pivot, first0, last0, lSize, rSize, l, r, num, hi);
    PairsMisplaced(less, s, pivot, first0, lSize, last0, rSize, l, r, num);
    SwapOffsets(a, less, pivot, first0, last0, l[..num], r[..num], |l| == |r|, first0, hi);
    RoundAfter(less, s, a[..], begin, first0, last0, end, lSize, rSize, l, r, num, hi);
    first, last := first0, last0;
    if |r| == num {
      assert r[num..] == [];
      RightBlockDone(less, a[..], begin, first, last, rSize, end);
      last := last - rSize;
    }
    if |l| == num {
      assert l[num..] == [];
      LeftBlockDone(less, a[..], begin, first, lSize, last, end);
      first := first + lSize;
    }
  }

  lemma FinishLeftStep<T>(less: Comparator<T>, s: seq<T>, pivot: T, first: int, size: int, l: seq<int>)
    requires LeftBlock(less, s, pivot, first, size, l) && |l| > 0
    ensures 0 <= l[|l| - 1] < size
    ensures var t := Swapped(s, first + l[|l| - 1], first + size - 1);
            LeftBlock(less, t, pivot, first, size - 1, l[..|l| - 1]) && !less(t[first + size - 1], pivot)
  {
    var n := |l| - 1;
    var t := Swapped(s, first + l[n], first + size - 1);
    assert l == l[..n] + [l[n]];
    assert !less(s[first + l[n]], pivot) by {
      var j := first + l[n];
      assert j - first == l[n];
      assert j - first in l;
    }
    forall j | first <= j < first + size - 1 ensures (j - first in l[..n] <==> !less(t[j], pivot)) {
      assert size - 1 in l ==> l[n] == size - 1;
      assert first + size - 1 - first == size - 1;
    }
  }

  lemma SidesBounds<T>(less: Comparator<T>, s: seq<T>, begin: int, first: int, last: int, end: int)
    requires Sides(less, s, begin, first, last, end)
    ensures 0 <= begin < first <= end <= |s| && first - 1 <= last <= end
  {
  }

  /** The swap stays inside the block, so the two sides gain the element just placed. */
  lemma SidesFinishLeft<T>(less: Comparator<T>, s: seq<T>, begin: int, first: int, last: int, end: int, k: int)
    requires Sides(less, s, begin, first, last, end) && first <= k < last
    requires !less(Swapped(s, k, last - 1)[last - 1], s[begin])
    ensures Sides(less, Swapped(s, k, last - 1), begin, first, last - 1, end)
    ensures Swapped(s, k, last - 1)[begin] == s[begin]
  {
  }

  /** The left leftovers go to the end of their block, last one first. */
  method FinishLeft<T>(a: array<T>, ghost less: Comparator<T>, ghost begin: int, first: int, last0: int, ghost end: int,
                       l: seq<int>) returns (last: int)
    requires Sides(less, a[..], begin, first, last0, end) && first <= last0
    requires LeftBlock(less, a[..], a[begin], first, last0 - first, l)
    modifies a
    ensures Sides(less, a[..], begin, last, last, end)
    ensures PermWithin(old(a[..]), a[..], begin, end)
    ensures a[begin] == old(a[begin])
  {
    hide *;
    ghost var s := a[..];
    SidesBounds(less, s, begin, first, last0, end);
    ghost var pivot := a[begin];
    PermReflexive(s, begin, end);
    last := last0;
    var num := |l|;
    assert l[..num] == l;
    while num > 0
      invariant 0 <= num <= |l|
      invariant 0 <= begin < first <= last <= end <= |s|
      invariant s == a[..] && s[begin] == pivot
      invariant Sides(less, s, begin, first, last, end)
      invariant LeftBlock(less, s, pivot, first, last - first, l[..num])
      invariant PermWithin(old(a[..]), s, begin, end)
    {
      FinishLeftStep(less, s, pivot, first, last - first, l[..num]);
      num := num - 1;
      assert l[..num + 1][..num] == l[..num] && l[..num + 1][num] == l[num];
      SidesFinishLeft(less, s, begin, first, last, end, first + l[num]);
      last := last - 1;
      Swap(a, first + l[num], last, begin, end);
      PermTransitive(old(a[..]), s, a[..], begin, end);
      s := a[..];
    }
    LeftBlockDone(less, s, begin, first, last - first, last, end);
  }

  lemma FinishRightStep<T>(less: Comparator<T>, s: seq<T>, pivot: T, last: int, size: int, r: seq<int>)
    requires RightBlock(less, s, pivot, last, size, r) && |r| > 0
    ensures 0 < r[|r| - 1] <= size
    ensures var t := Swapped(s, last - r[|r| - 1], last - size);
            RightBlock(less, t, pivot, last, size - 1, r[..|r| - 1]) && less(t[last - size], pivot)
  {
    var n := |r| - 1;
    var t := Swapped(s, last - r[n], last - size);
    assert r == r[..n] + [r[n]];
    assert less(s[last - r[n]], pivot) by {
      var j := last - r[n];
      assert last - j == r[n];
      assert last - j in r;
    }
    forall j | last - (size - 1) <= j < last ensures (last - j in r[..n] <==> less(t[j], pivot)) {
      assert size in r ==> r[n] == size;
      assert last - (last - size) == size;
    }
  }

  lemma SidesFinishRight<T>(less: Comparator<T>, s: seq<T>, begin: int, first: int, last: int, end: int, k: int)
    requires Sides(less, s, begin, first, last, end) && first <= k < last
    requires less(Swapped(s, k, first)[first], s[begin])
    ensures Sides(less, Swapped(s, k, first), begin, first + 1, last, end)
    ensures Swapped(s, k, first)[begin] == s[begin]
  {
  }

  method FinishRight<T>(a: array<T>, ghost less: Comparator<T>, ghost begin: int, first0: int, last: int, ghost end: int,
                        r: seq<int>) returns (first: int)
    requires Sides(less, a[..], begin, first0, last, end) && first0 <= last
    requires RightBlock(less, a[..], a[begin], last, last - first0, r)
    modifies a
    ensures Sides(less, a[..], begin, first, first, end)
    ensures PermWithin(old(a[..]), a[..], begin, end)
    ensures a[begin] == old(a[begin])
  {
    hide *;
    ghost var s := a[..];
    SidesBounds(less, s, begin, first0, last, end);
    ghost var pivot := a[begin];
    PermReflexive(s, begin, end);
    first := first0;
    var num := |r|;
    assert r[..num] == r;
    while num > 0
      invariant 0 <= num <= |r|
      invariant 0 <= begin < first <= last <= end <= |s|
      invariant s == a[..] && s[begin] == pivot
      invariant Sides(less, s, begin, first, last, end)
      invariant RightBlock(less, s, pivot, last, last - first, r[..num])
      invariant PermWithin(old(a[..]), s, begin, end)
    {
      FinishRightStep(less, s, pivot, last, last - first, r[..num]);
      num := num - 1;
      assert r[..num + 1][..num] == r[..num] && r[..num + 1][num] == r[num];
      SidesFinishRight(less, s, begin, first, last, end, last - r[num]);
      Swap(a, last - r[num], first, begin, end);
      PermTransitive(old(a[..]), s, a[..], begin, end);
      s := a[..];
      first := first + 1;
    }
    RightBlockDone(less, s, begin, first, last, last - first, end);
  }

  /** Between rounds at most one buffer holds leftovers, and those describe a whole block. */
  ghost predicate Leftover<T>(less: Comparator<T>, s: seq<T>, pivot: T, first: int, last: int, l: seq<int>, r: seq<int>) {
    && (l == [] || r == [])
    && (l != [] ==> first + BLOCK_SIZE <= last && LeftBlock(less, s, pivot, first, BLOCK_SIZE, l))
    && (r != [] ==> first + BLOCK_SIZE <= last && RightBlock(less, s, pivot, last, BLOCK_SIZE, r))
  }

  /** Refills the buffers that are empty. */
  method Refill<T>(a: array<T>, less: Comparator<T>, pivot: T, first: int, last: int,
                   offsetsL: array<int>, offsetsR: array<int>, startL0: int, numL0: int, startR0: int, numR0: int)
    returns (startL: int, numL: int, startR: int, numR: int)
    requires 0 <= first && first + 2 * BLOCK_SIZE < last <= a.Length
    requires offsetsL.Length == offsetsR.Length == BLOCK_SIZE
    requires a as object != offsetsL as object && a as object != offsetsR as object && offsetsL != offsetsR
    requires 0 <= startL0 <= startL0 + numL0 <= BLOCK_SIZE && 0 <= startR0 <= startR0 + numR0 <= BLOCK_SIZE
    requires Leftover(less, a[..], pivot, first, last, offsetsL[startL0..startL0 + numL0], offsetsR[startR0..startR0 + numR0])
    modifies offsetsL, offsetsR
    ensures 0 <= startL <= startL + numL <= BLOCK_SIZE && 0 <= startR <= startR + numR <= BLOCK_SIZE
    ensures LeftBlock(less, a[..], pivot, first, BLOCK_SIZE, offsetsL[startL..startL + numL])
    ensures RightBlock(less, a[..], pivot, last, BLOCK_SIZE, offsetsR[startR..startR + numR])
  {
    hide LeftBlock, RightBlock;
    startL, numL, startR, numR := startL0, numL0, startR0, numR0;
    if numL == 0 {
      startL := 0;
      numL := FillLeft(a, less, pivot, first, BLOCK_SIZE, offsetsL);
    }
    if numR == 0 {
      startR := 0;
      numR := FillRight(a, less, pivot, last, BLOCK_SIZE, offsetsR);
    }
  }

  /** A round leaves at most one buffer with leftovers, still describing its whole block. */
  lemma RoundLeftover<T>(less: Comparator<T>, s: seq<T>, pivot: T, first: int, last: int, l: seq<int>, r: seq<int>, num: int)
    requires num == (if |l| < |r| then |l| else |r|) && (|l| != |r| ==> first + BLOCK_SIZE <= last)
    requires |l| > num ==> LeftBlock(less, s, pivot, first, BLOCK_SIZE, l[num..])
    requires |r| > num ==> RightBlock(less, s, pivot, last, BLOCK_SIZE, r[num..])
    ensures Leftover(less, s, pivot, first, last, l[num..], r[num..])
  {
    hide LeftBlock, RightBlock;
  }

  /** One turn of the main loop: refill the empty buffers and exchange. */
  method ExchangeRound<T>(a: array<T>, less: Comparator<T>, begin: int, first0: int, last0: int, ghost end: int,
                          offsetsL: array<int>, offsetsR: array<int>, startL0: int, numL0: int, startR0: int, numR0: int)
    returns (first: int, last: int, startL: int, numL: int, startR: int, numR: int)
    requires Sides(less, a[..], begin, first0, last0, end) && last0 - first0 > 2 * BLOCK_SIZE
    requires offsetsL.Length == offsetsR.Length == BLOCK_SIZE
    requires a as object != offsetsL as object && a as object != offsetsR as object && offsetsL != offsetsR
    requires 0 <= startL0 <= startL0 + numL0 <= BLOCK_SIZE && 0 <= startR0 <= startR0 + numR0 <= BLOCK_SIZE
    requires Leftover(less, a[..], a[begin], first0, last0, offsetsL[startL0..startL0 + numL0], offsetsR[startR0..startR0 + numR0])
    modifies a, offsetsL, offsetsR
    ensures Sides(less, a[..], begin, first, last, end) && last - first < last0 - first0
    ensures 0 <= startL <= startL + numL <= BLOCK_SIZE && 0 <= startR <= startR + numR <= BLOCK_SIZE
    ensures Leftover(less, a[..], a[begin], first, last, offsetsL[startL..startL + numL], offsetsR[startR..startR + numR])
    ensures PermWithin(old(a[..]), a[..], begin, end)
    ensures a[begin] == old(a[begin])
  {
    hide PermWithin, LeftBlock, RightBlock, Sides, Leftover, Increasing, Swapped;
    SidesBounds(less, a[..], begin, first0, last0, end);
    startL, numL, startR, numR := Refill(a, less, a[begin], first0, last0, offsetsL, offsetsR, startL0, numL0, startR0, numR0);
    var l, r := offsetsL[startL..startL + numL], offsetsR[startR..startR + numR];
    var num;
    num, first, last := SwapRound(a, less, begin, first0, last0, end, BLOCK_SIZE, BLOCK_SIZE, l, r);
    RoundLeftover(less, a[..], a[begin], first, last, l, r, num);
    numL, numR := numL - num, numR - num;
    startL, startR := startL + num, startR + num;
    assert l[num..] == offsetsL[startL..startL + numL] && r[num..] == offsetsR[startR..startR + numR];
  }

  lemma NoLeftover<T>(less: Comparator<T>, s: seq<T>, pivot: T, first: int, last: int)
    ensures Leftover(less, s, pivot, first, last, [], [])
  {
  }

  /** The main loop: as long as two full blocks remain, refill the empty buffers and exchange. */
  method ExchangeBlocks<T>(a: array<T>, less: Comparator<T>, begin: int, first0: int, last0: int, ghost end: int,
                           offsetsL: array<int>, offsetsR: array<int>)
    returns (first: int, last: int, startL: int, numL: int, startR: int, numR: int)
    requires Sides(less, a[..], begin, first0, last0, end)
    requires offsetsL.Length == offsetsR.Length == BLOCK_SIZE
    requires a as object != offsetsL as object && a as object != offsetsR as object && offsetsL != offsetsR
    modifies a, offsetsL, offsetsR
    ensures Sides(less, a[..], begin, first, last, end) && last - first <= 2 * BLOCK_SIZE
    ensures 0 <= startL <= startL + numL <= BLOCK_SIZE && 0 <= startR <= startR + numR <= BLOCK_SIZE
    ensures Leftover(less, a[..], a[begin], first, last, offsetsL[startL..startL + numL], offsetsR[startR..startR + numR])
    ensures PermWithin(old(a[..]), a[..], begin, end)
    ensures a[begin] == old(a[begin])
    ensures last0 - first0 <= 2 * BLOCK_SIZE ==> a[..] == old(a[..]) && first == first0 && last == last0 && numL == numR == 0
  {
    hide *;
    SidesBounds(less, a[..], begin, first0, last0, end);
    first, last, startL, numL, startR, numR := first0, last0, 0, 0, 0, 0;
    ghost var s0, pivot := a[..], a[begin];
    PermReflexive(s0, begin, end);
    NoLeftover(less, s0, pivot, first, last);
    while last - first > 2 * BLOCK_SIZE
      invariant a[begin] == pivot
      invariant Sides(less, a[..], begin, first, last, end)
      invariant 0 <= startL <= startL + numL <= BLOCK_SIZE && 0 <= startR <= startR + numR <= BLOCK_SIZE
      invariant Leftover(less, a[..], pivot, first, last, offsetsL[startL..startL + numL], offsetsR[startR..startR + numR])
      invariant PermWithin(s0, a[..], begin, end)
      invariant last0 - first0 <= 2 * BLOCK_SIZE ==> a[..] == s0 && first == first0 && last == last0 && numL == numR == 0
      decreases last - first
    {
      ghost var s := a[..];
      first, last, startL, numL, startR, numR :=
        ExchangeRound(a, less, begin, first, last, end, offsetsL, offsetsR, startL, numL, startR, numR);
      PermTransitive(s0, s, a[..], begin, end);
    }
  }

  /** C++ integer division by two, which rounds toward zero. */
  function HalfTowardZero(x: int): int {
    if x < 0 then -(-x / 2) else x / 2
  }

  /** The leftover block, or the last unknown elements split in two, and the final swaps. */
  method FinishBlocks<T>(a: array<T>, less: Comparator<T>, begin: int, first0: int, last0: int, ghost end: int,
                         offsetsL: array<int>, offsetsR: array<int>,
                         startL0: int, numL0: int, startR0: int, numR0: int)
    returns (first: int)
    requires Sides(less, a[..], begin, first0, last0, end) && last0 - first0 <= 2 * BLOCK_SIZE
    requires offsetsL.Length == offsetsR.Length == BLOCK_SIZE
    requires a as object != offsetsL as object && a as object != offsetsR as object && offsetsL != offsetsR
    requires 0 <= startL0 <= startL0 + numL0 <= BLOCK_SIZE && 0 <= startR0 <= startR0 + numR0 <= BLOCK_SIZE
    requires Leftover(less, a[..], a[begin], first0, last0, offsetsL[startL0..startL0 + numL0], offsetsR[startR0..startR0 + numR0])
    modifies a, offsetsL, offsetsR
    ensures Sides(less, a[..], begin, first, first, end)
    ensures PermWithin(old(a[..]), a[..], begin, end)
    ensures a[begin] == old(a[begin])
    ensures first0 >= last0 ==> a[..] == old(a[..]) && first == first0
  {
    hide PermWithin, LeftBlock, RightBlock, Sides, Swapped;
    SidesBounds(less, a[..], begin, first0, last0, end);
    EmptyBlocks(less, a[..], a[begin], first0, last0);
    first := first0;
    var last, startL, numL, startR, numR := last0, startL0, numL0, startR0, numR0;
    var pivot := a[begin];
    var unknownLeft := last - first - (if numR != 0 || numL != 0 then BLOCK_SIZE else 0);
    var lSize, rSize := 0, 0;
    if numR != 0 {
      lSize, rSize := unknownLeft, BLOCK_SIZE;
    } else if numL != 0 {
      lSize, rSize := BLOCK_SIZE, unknownLeft;
    } else {
      lSize := HalfTowardZero(unknownLeft);
      rSize := unknownLeft - lSize;
    }
    if unknownLeft != 0 && numL == 0 {
      startL := 0;
      numL := FillLeft(a, less, pivot, first, lSize, offsetsL);
    }
    if unknownLeft != 0 && numR == 0 {
      startR := 0;
      numR := FillRight(a, less, pivot, last, rSize, offsetsR);
    }
    var l, r := offsetsL[startL..startL + numL], offsetsR[startR..startR + numR];
    ghost var s0 := a[..];
    var num;
    num, first, last := SwapRound(a, less, begin, first, last, end, lSize, rSize, l, r);
    ghost var s := a[..];
    if numL > num {
      first := FinishLeft(a, less, begin, first, last, end, l[num..]);
      PermTransitive(s0, s, a[..], begin, end);
    } else if numR > num {
      first := FinishRight(a, less, begin, first, last, end, r[num..]);
      PermTransitive(s0, s, a[..], begin, end);
    }
  }

  lemma ClosingToSides<T>(less: Comparator<T>, s: seq<T>, begin: int, first: int, last: int, end: int)
    requires Closing(less, s, begin, first, last, end)
    ensures first >= last ==> Sides(less, s, begin, first, last, end)
    ensures first < last ==> var t := Swapped(s, first, last); Sides(less, t, begin, first + 1, last, end) && t[begin] == s[begin]
  {
  }

  lemma SidesDone<T>(less: Comparator<T>, s: seq<T>, begin: int, first: int, end: int)
    requires Sides(less, s, begin, first, first, end)
    ensures PartitionedRight(less, Swapped(s, begin, first - 1), begin, first - 1, end)
  {
  }

  /** The same contract as `PartitionRight`, met by exchanging whole blocks. */
  method PartitionRightBranchless<T>(a: array<T>, less: Comparator<T>, begin: int, end: int)
    returns (pivotPos: int, already: bool)
    requires 0 <= begin < end <= a.Length
    requires HasNotLess(less, a[..], begin, end)
    modifies a
    ensures PermWithin(old(a[..]), a[..], begin, end)
    ensures PartitionedRight(less, a[..], begin, pivotPos, end)
    ensures a[pivotPos] == old(a[begin])
    ensures already <==> AlreadyRight(less, old(a[..]), begin, end)
    ensures already ==> a[..] == Swapped(old(a[..]), begin, pivotPos)
  {
    hide *;
    ghost var s0 := a[..];
    PermReflexive(s0, begin, end);
    var pivot := a[begin];
    var first, last := OpeningScans(a, less, begin, end);
    already := first >= last;
    ClosingToSides(less, s0, begin, first, last, end);
    if !already {
      Swap(a, first, last, begin, end);
      first := first + 1;
    }
    ghost var s1 := a[..];
    var offsetsL, offsetsR := new int[BLOCK_SIZE], new int[BLOCK_SIZE];
    var startL, numL, startR, numR;
    first, last, startL, numL, startR, numR := ExchangeBlocks(a, less, begin, first, last, end, offsetsL, offsetsR);
    ghost var s2 := a[..];
    PermTransitive(s0, s1, s2, begin, end);
    first := FinishBlocks(a, less, begin, first, last, end, offsetsL, offsetsR, startL, numL, startR, numR);
    ghost var s3 := a[..];
    PermTransitive(s0, s2, s3, begin, end);
    SidesBounds(less, s3, begin, first, first, end);
    SidesDone(less, s3, begin, first, end);
    pivotPos := first - 1;
    PlacePivot(a, begin, pivotPos, pivot, end);
    PermTransitive(s0, s3, a[..], begin, end);
  }
}
