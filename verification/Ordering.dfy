/** Comparators, sortedness and permutations of a sub-range: the vocabulary of the sorting modules. */
module Ordering {

  type Comparator<!T> = (T, T) -> bool

  /** The strict-weak-order laws at three given values. `StrictWeakOrder` quantifies over this
      predicate, so a proof uses a law exactly where it mentions the values. */
  ghost predicate LawAt<T>(less: Comparator<T>, x: T, y: T, z: T) {
    && !less(x, x)
    && (less(x, y) && less(y, z) ==> less(x, z))
    && (!less(x, y) && !less(y, z) ==> !less(x, z))
  }

  ghost predicate StrictWeakOrder<T(!new)>(less: Comparator<T>) {
    forall x, y, z :: LawAt(less, x, y, z)
  }

  ghost predicate Incomparable<T>(less: Comparator<T>, x: T, y: T) {
    !less(x, y) && !less(y, x)
  }

  /** The laws in the form the C++ standard gives for `Compare`. */
  ghost predicate StandardLawAt<T>(less: Comparator<T>, x: T, y: T, z: T) {
    && !less(x, x)
    && (less(x, y) && less(y, z) ==> less(x, z))
    && (Incomparable(less, x, y) && Incomparable(less, y, z) ==> Incomparable(less, x, z))
  }

  lemma StrictWeakOrderIsStandard<T(!new)>(less: Comparator<T>)
    ensures StrictWeakOrder(less) <==> forall x, y, z :: StandardLawAt(less, x, y, z)
  {
    if StrictWeakOrder(less) {
      forall x, y, z ensures StandardLawAt(less, x, y, z) {
        assert LawAt(less, x, y, z) && LawAt(less, z, y, x);
      }
    }
    if forall x, y, z :: StandardLawAt(less, x, y, z) {
      forall x, y, z ensures LawAt(less, x, y, z) {
        assert StandardLawAt(less, x, y, z) && StandardLawAt(less, y, x, z) && StandardLawAt(less, x, z, y);
      }
    }
  }

  lemma Asymmetric<T(!new)>(less: Comparator<T>, x: T, y: T)
    requires StrictWeakOrder(less) && less(x, y)
    ensures !less(y, x)
  {
    assert LawAt(less, x, y, x);
  }

  /** "Not greater" is transitive: `x <= y` and `y <= z` give `x <= z`. */
  lemma NotLessTransitive<T(!new)>(less: Comparator<T>, x: T, y: T, z: T)
    requires StrictWeakOrder(less) && !less(y, x) && !less(z, y)
    ensures !less(z, x)
  {
    assert LawAt(less, z, y, x);
  }

  ghost predicate SortedWithin<T>(less: Comparator<T>, s: seq<T>, lo: int, hi: int)
    requires 0 <= lo <= hi <= |s|
  {
    forall i, j :: lo <= i < j < hi ==> !less(s[j], s[i])
  }

  /** `t` is a rearrangement of `s` that leaves everything outside `[lo, hi)` where it was. */
  ghost predicate PermWithin<T>(s: seq<T>, t: seq<T>, lo: int, hi: int) {
    && 0 <= lo <= hi <= |s| == |t|
    && multiset(s) == multiset(t)
    && forall k :: 0 <= k < |s| && !(lo <= k < hi) ==> s[k] == t[k]
  }

  function Swapped<T>(s: seq<T>, i: int, j: int): seq<T>
    requires 0 <= i < |s| && 0 <= j < |s|
  {
    s[i := s[j]][j := s[i]]
  }

  lemma SwappedIsPerm<T>(s: seq<T>, i: int, j: int, lo: int, hi: int)
    requires 0 <= lo <= i < hi <= |s| && lo <= j < hi
    ensures PermWithin(s, Swapped(s, i, j), lo, hi)
  {
  }

  lemma MultisetCancel<T>(a: multiset<T>, b: multiset<T>, c: multiset<T>)
    requires a + c == b + c
    ensures a == b
  {
    assert (a + c) - c == a && (b + c) - c == b;
  }

  lemma MultisetOfParts<T>(s: seq<T>, lo: int, hi: int)
    requires 0 <= lo <= hi <= |s|
    ensures multiset(s) == multiset(s[lo..hi]) + (multiset(s[..lo]) + multiset(s[hi..]))
  {
    assert s == s[..lo] + s[lo..hi] + s[hi..];
  }

  lemma PermSlices<T>(s: seq<T>, t: seq<T>, lo: int, hi: int)
    requires PermWithin(s, t, lo, hi)
    ensures multiset(s[lo..hi]) == multiset(t[lo..hi])
  {
    MultisetOfParts(s, lo, hi);
    MultisetOfParts(t, lo, hi);
    assert s[..lo] == t[..lo] && s[hi..] == t[hi..];
    MultisetCancel(multiset(s[lo..hi]), multiset(t[lo..hi]), multiset(s[..lo]) + multiset(s[hi..]));
  }

  /** A property of every element of the range survives a rearrangement of the range. */
  lemma PermAll<T>(s: seq<T>, t: seq<T>, lo: int, hi: int, p: T -> bool)
    requires PermWithin(s, t, lo, hi)
    requires forall i :: lo <= i < hi ==> p(s[i])
    ensures forall i :: lo <= i < hi ==> p(t[i])
  {
    PermSlices(s, t, lo, hi);
    forall i | lo <= i < hi ensures p(t[i]) {
      assert t[i] == t[lo..hi][i - lo];
      assert t[i] in multiset(t[lo..hi]);
      assert t[i] in s[lo..hi];
    }
  }

  lemma PermTransitive<T>(s: seq<T>, t: seq<T>, u: seq<T>, lo: int, hi: int)
    requires PermWithin(s, t, lo, hi) && PermWithin(t, u, lo, hi)
    ensures PermWithin(s, u, lo, hi)
  {
  }

  lemma PermWiden<T>(s: seq<T>, t: seq<T>, lo: int, hi: int, lo': int, hi': int)
    requires PermWithin(s, t, lo, hi) && 0 <= lo' <= lo && hi <= hi' <= |s|
    ensures PermWithin(s, t, lo', hi')
  {
  }

  lemma PermReflexive<T>(s: seq<T>, lo: int, hi: int)
    requires 0 <= lo <= hi <= |s|
    ensures PermWithin(s, s, lo, hi)
  {
  }

  /** Exchanges two elements; `lo` and `hi` name a range that holds both. */
  method Swap<T>(a: array<T>, i: int, j: int, ghost lo: int, ghost hi: int)
    requires 0 <= lo <= i < hi <= a.Length && lo <= j < hi
    modifies a
    ensures a[..] == Swapped(old(a[..]), i, j)
    ensures a[i] == old(a[j]) && a[j] == old(a[i])
    ensures forall k :: 0 <= k < a.Length && k != i && k != j ==> a[k] == old(a[k])
    ensures PermWithin(old(a[..]), a[..], lo, hi)
  {
    SwappedIsPerm(a[..], i, j, lo, hi);
    a[i], a[j] := a[j], a[i];
  }
}
