/** The loads of the buckets for every number of buckets, and how many keys move. */
module HashLoads {
  import opened Arith
  import opened Counting
  import opened ConsistentHashing
  import opened HashBalance
  import opened HashParts

  // ---------------------------------------------------------------- counting values of the left-over bits

  /** The numbers below `n` whose remainder by `m` is in a window. */
  ghost function Window(n: nat, m: nat, lo: nat, hi: nat): set<nat>
    requires m > 0
  {
    set x | x in Below(n) && lo <= Low(x, m) < hi
  }

  /** How much of the window the last, incomplete period covers. */
  function Covered(rest: nat, lo: nat, hi: nat): nat {
    if rest <= lo || hi <= lo then 0 else if rest >= hi then hi - lo else rest - lo
  }

  lemma {:induction false} WindowSize(n: nat, m: nat, lo: nat, hi: nat)
    requires m > 0 && lo <= hi <= m
    ensures |Window(n, m, lo, hi)| == High(n, m) * (hi - lo) + Covered(Low(n, m), lo, hi)
  {
    hide High, Low;
    if n == 0 {
      assert Window(0, m, lo, hi) == {};
      SplitJoin(0, 0, m);
      assert Join(0, 0, m) == 0;
    } else {
      hide Window;
      WindowSize(n - 1, m, lo, hi);
      WindowNext(n - 1, m, lo, hi);
      NextRemainder(n - 1, m);
      CoveredNext(High(n - 1, m), Low(n - 1, m), m, lo, hi);
    }
  }

  lemma CoveredNext(q: nat, r: nat, m: nat, lo: nat, hi: nat)
    requires r < m && lo <= hi <= m
    ensures q * (hi - lo) + Covered(r, lo, hi) + (if lo <= r < hi then 1 else 0)
      == if r + 1 < m then q * (hi - lo) + Covered(r + 1, lo, hi) else (q + 1) * (hi - lo) + Covered(0, lo, hi)
  {
    assert (q + 1) * (hi - lo) == q * (hi - lo) + (hi - lo);
  }

  lemma WindowNext(n: nat, m: nat, lo: nat, hi: nat)
    requires m > 0
    ensures |Window(n + 1, m, lo, hi)| == |Window(n, m, lo, hi)| + (if lo <= Low(n, m) < hi then 1 else 0)
  {
    hide Low;
    if lo <= Low(n, m) < hi {
      assert Window(n + 1, m, lo, hi) == Window(n, m, lo, hi) + {n};
    } else {
      assert Window(n + 1, m, lo, hi) == Window(n, m, lo, hi);
    }
  }

  lemma NextRemainder(n: nat, m: nat)
    requires m > 0
    ensures Low(n, m) + 1 < m ==> High(n + 1, m) == High(n, m) && Low(n + 1, m) == Low(n, m) + 1
    ensures Low(n, m) + 1 == m ==> High(n + 1, m) == High(n, m) + 1 && Low(n + 1, m) == 0
  {
    var q, r := DivIdentity(n, m);
    DivModUnique(n, m, q, r);
    if r + 1 < m {
      DivModUnique(n + 1, m, q, r + 1);
    } else {
      assert n + 1 == (q + 1) * m;
      DivModUnique(n + 1, m, q + 1, 0);
    }
  }

  /** A window of width `t` holds `n * t / m` numbers, up to `t`. */
  lemma WindowBound(n: nat, m: nat, lo: nat, hi: nat, t: nat, size: nat)
    requires m > 0 && lo <= hi <= m && t == hi - lo && size == |Window(n, m, lo, hi)|
    ensures Within(size * m - n * t, m * t)
  {
    hide Window, High, Low;
    WindowSize(n, m, lo, hi);
    JoinSplit(n, m);
    var q, rest, covered := High(n, m), Low(n, m), Covered(Low(n, m), lo, hi);
    WindowAlgebra(n, m, t, q, rest, covered);
  }

  lemma WindowAlgebra(n: nat, m: nat, t: nat, q: nat, rest: nat, covered: nat)
    requires n == Join(q, rest, m) && rest < m && covered <= t
    ensures Within((q * t + covered) * m - n * t, m * t)
  {
    assert (q * t + covered) * m == q * t * m + covered * m;
    assert (q * m + rest) * t == q * m * t + rest * t;
    assert q * t * m == q * m * t;
    MulMonotone(covered, t, m);
    MulMonotone(0, covered, m);
    MulMonotone(rest, m, t);
    MulMonotone(0, rest, t);
  }

  // ---------------------------------------------------------------- the smooth step as windows

  /** The left-over bits that move a key from large value `l` to bucket `v`. */
  ghost function SmoothTo(b: nat, l: nat, half: nat, v: nat): set<nat>
    requires l > 0 && half > 0
  {
    ValuesWith(b, (x: nat) => SmoothValue(x, l, 2 * half, half) == v)
  }

  lemma SmoothIsWindow(b: nat, l: nat, half: nat, v: nat)
    requires l > 0 && half > 0 && half <= v
    ensures l * (l + 1) > 0
    ensures SmoothTo(b, l, half, v) == Window(Pow2(b), l * (l + 1), (v - half) * (2 * half), (v - half + 1) * (2 * half))
  {
    NonZeroProduct(l);
    hide Pow2, Below;
    var m, t, j := l * (l + 1), 2 * half, v - half;
    forall x: nat
      ensures SmoothValue(x, l, t, half) == v <==> j * t <= Low(x, m) < (j + 1) * t
    {
      QuotientIs(Low(x, m), t, j);
    }
  }

  lemma QuotientIs(x: nat, t: nat, j: nat)
    requires t > 0
    ensures x / t == j <==> j * t <= x < (j + 1) * t
  {
    var q, r := DivIdentity(x, t);
    DivModUnique(x, t, q, r);
    if q < j {
      MulMonotone(q + 1, j, t);
    } else if q > j {
      MulMonotone(j + 1, q, t);
    }
    assert (q + 1) * t == q * t + t;
  }

  /** The window of a bucket below the large value lies within one period. */
  lemma WindowFits(l: nat, half: nat, v: nat)
    requires half <= v < l < 2 * half
    ensures (v - half + 1) * (2 * half) <= l * (l + 1)
  {
    MulMonotone(v - half + 1, l - half, 2 * half);
    var x := 2 * half - l;
    assert l * (l + 1) - (l - half) * (2 * half) == half * half + (half - x) * (half - x) + (2 * half - x) by {
      WindowSquares(half, x, l);
    }
    SquareNonNegative(half - x);
  }

  lemma WindowSquares(half: int, x: int, l: int)
    requires l == 2 * half - x
    ensures l * (l + 1) - (l - half) * (2 * half) == half * half + (half - x) * (half - x) + (2 * half - x)
  {
    var a, b, c := half * half, half * x, x * x;
    assert l * l == 4 * a - 4 * b + c;
    assert (l - half) * (2 * half) == 2 * a - 2 * b;
    assert (half - x) * (half - x) == a - 2 * b + c;
  }

  lemma SquareNonNegative(x: int)
    ensures x * x >= 0
  {
  }

  // ---------------------------------------------------------------- which keys a bucket gets

  /** `n` buckets that need `k` bits, for the two word sizes the library ships. */
  ghost predicate Sized(n: nat, k: nat, w: nat) {
    (w == 16 || w == 32) && 1 <= k < w && Pow2(k - 1) < n <= Pow2(k)
  }

  lemma SizedBounds(n: nat, k: nat, w: nat)
    requires Sized(n, k, w)
    ensures (w == 16 || w == 32) && 1 <= k < w && 2 <= n <= Pow2(w - 1) && BitCount(n - 1) == k
    ensures Pow2(k) == 2 * Pow2(k - 1) <= Pow2(w) && 0 < Pow2(k - 1) < n <= Pow2(k)
  {
    hide Pow2, BitCount;
    Powers(k, w);
    BitCountUnique(n - 1, k - 1);
  }

  function LargeKey(key: Key, k: nat, w: nat): nat
    requires 1 <= k < w
  {
    Powers(k, w);
    ForPowersOf2(key.1.0, key.1.1, key.1.2, Pow2(k), w)
  }

  function SmoothKey(key: Key, k: nat, w: nat): nat
    requires 1 <= k < w && LargeKey(key, k, w) > 0
  {
    SmoothValue(GetAsteriskBits(key.1.0, key.1.1, key.1.2, key.0, k, w), LargeKey(key, k, w), Pow2(k), Pow2(k - 1))
  }

  function ShortKey(key: Key, k: nat, w: nat): nat
    requires 1 <= k < w
  {
    Powers(k, w);
    ForPowersOf2(key.1.0, key.1.1, key.1.2, Pow2(k - 1), w)
  }

  /** The bucket of a key: from the whole scheme, from the smooth step or from the half scheme. */
  lemma BucketCases(key: Key, n: nat, k: nat, w: nat)
    requires Sized(n, k, w)
    ensures n <= Pow2(w - 1) && LargeKey(key, k, w) < Pow2(k) && ShortKey(key, k, w) < Pow2(k - 1)
    ensures LargeKey(key, k, w) < n ==> BucketOf(key, n, w) == LargeKey(key, k, w)
    ensures LargeKey(key, k, w) >= n ==> SmoothKey(key, k, w) >= Pow2(k - 1)
    ensures LargeKey(key, k, w) >= n ==>
      BucketOf(key, n, w) == if SmoothKey(key, k, w) < n then SmoothKey(key, k, w) else ShortKey(key, k, w)
  {
    hide *;
    SizedBounds(n, k, w);
    KeyBounds(key, k, w);
    var a, b, c, d, large := key.1.0, key.1.1, key.1.2, key.0, LargeKey(key, k, w);
    KeyFunctions(key, k, w);
    ImplCases(a, b, c, d, n, w, k, large);
    if large < n {
      BucketOfImpl(key, n, w, large);
    } else {
      SmoothAbove(a, b, c, d, k, w, large);
      BucketOfImpl(key, n, w, if SmoothKey(key, k, w) < n then SmoothKey(key, k, w) else ShortKey(key, k, w));
    }
  }

  lemma KeyFunctions(key: Key, k: nat, w: nat)
    requires 1 <= k < w && Pow2(k - 1) <= Pow2(k) <= Pow2(w)
    ensures LargeKey(key, k, w) == ForPowersOf2(key.1.0, key.1.1, key.1.2, Pow2(k), w)
    ensures ShortKey(key, k, w) == ForPowersOf2(key.1.0, key.1.1, key.1.2, Pow2(k - 1), w)
    ensures LargeKey(key, k, w) > 0 ==>
      SmoothKey(key, k, w) == Smooth(key.1.0, key.1.1, key.1.2, key.0, k, w, LargeKey(key, k, w))
  {
    hide Pow2, ForPowersOf2, GetAsteriskBits, SmoothValue;
  }

  lemma KeyBounds(key: Key, k: nat, w: nat)
    requires 1 <= k < w
    ensures LargeKey(key, k, w) < Pow2(k) && ShortKey(key, k, w) < Pow2(k - 1)
  {
    hide Pow2, ForPowersOf2;
    Powers(k, w);
    LargeBounds(key.1.0, key.1.1, key.1.2, k, w, 0);
    LargeBounds(key.1.0, key.1.1, key.1.2, k - 1, w, 0);
  }

  lemma BucketOfImpl(key: Key, n: nat, w: nat, v: nat)
    requires w > 0 && 1 <= n <= Pow2(w - 1) && Impl(key.1.0, key.1.1, key.1.2, key.0, n, w) == Bucket(v)
    ensures BucketOf(key, n, w) == v
  {
    hide Pow2, Impl;
  }

  ghost function LargeHits(k: nat, v: nat, w: nat): set<Key>
    requires 1 <= k < w
  {
    set key | key in Keys(w) && LargeKey(key, k, w) == v
  }

  /** Keys whose bucket in the whole scheme does not exist and that the smooth step sends to `v`. */
  ghost function SmoothHits(n: nat, k: nat, v: nat, w: nat): set<Key>
    requires 1 <= k < w && n > 0
  {
    set key | key in Keys(w) && LargeKey(key, k, w) >= n && SmoothKey(key, k, w) == v
  }

  /** Keys that fall through to bucket `v` of the half scheme. */
  ghost function ShortHits(n: nat, k: nat, v: nat, w: nat): set<Key>
    requires 1 <= k < w && n > 0
  {
    set key | key in Keys(w) && LargeKey(key, k, w) >= n && SmoothKey(key, k, w) >= n && ShortKey(key, k, w) == v
  }

  lemma LargeHitsSize(k: nat, v: nat, w: nat)
    requires 1 <= k < w && v < Pow2(k)
    ensures |LargeHits(k, v, w)| == Pow2(4 * w - k)
  {
    Powers(k, w);
    PowerOfTwoLoad(k, v, w);
    hide Pow2, Keys, BucketOf, ForPowersOf2;
    forall key | key in Keys(w)
      ensures LargeKey(key, k, w) == BucketOf(key, Pow2(k), w)
    {
      PowerOfTwoBucket(key, k, w);
    }
    assert LargeHits(k, v, w) == KeyHits(w, Pow2(k), v);
  }

  lemma UpperHit(key: Key, n: nat, k: nat, v: nat, w: nat)
    requires Sized(n, k, w) && Pow2(k - 1) <= v < n <= Pow2(w - 1)
    ensures key in KeyHits(w, n, v) <==> key in LargeHits(k, v, w) || key in SmoothHits(n, k, v, w)
    ensures !(key in LargeHits(k, v, w) && key in SmoothHits(n, k, v, w))
  {
    hide Pow2, Keys, BucketOf, LargeKey, SmoothKey, ShortKey;
    BucketCases(key, n, k, w);
  }

  lemma LowerHit(key: Key, n: nat, k: nat, v: nat, w: nat)
    requires Sized(n, k, w) && v < Pow2(k - 1) && n <= Pow2(w - 1)
    ensures key in KeyHits(w, n, v) <==> key in LargeHits(k, v, w) || key in ShortHits(n, k, v, w)
    ensures !(key in LargeHits(k, v, w) && key in ShortHits(n, k, v, w))
  {
    hide Pow2, Keys, BucketOf, LargeKey, SmoothKey, ShortKey;
    BucketCases(key, n, k, w);
  }

  lemma UpperLoad(n: nat, k: nat, v: nat, w: nat)
    requires Sized(n, k, w) && Pow2(k - 1) <= v < n
    ensures n <= Pow2(w - 1) && |KeyHits(w, n, v)| == Pow2(4 * w - k) + |SmoothHits(n, k, v, w)|
  {
    hide *;
    SizedBounds(n, k, w);
    LargeHitsSize(k, v, w);
    forall key: Key {
      UpperHit(key, n, k, v, w);
    }
    assert KeyHits(w, n, v) == LargeHits(k, v, w) + SmoothHits(n, k, v, w);
    assert LargeHits(k, v, w) !! SmoothHits(n, k, v, w);
  }

  lemma LowerLoad(n: nat, k: nat, v: nat, w: nat)
    requires Sized(n, k, w) && v < Pow2(k - 1)
    ensures n <= Pow2(w - 1) && |KeyHits(w, n, v)| == Pow2(4 * w - k) + |ShortHits(n, k, v, w)|
  {
    hide *;
    SizedBounds(n, k, w);
    LargeHitsSize(k, v, w);
    forall key: Key {
      LowerHit(key, n, k, v, w);
    }
    assert KeyHits(w, n, v) == LargeHits(k, v, w) + ShortHits(n, k, v, w);
    assert LargeHits(k, v, w) !! ShortHits(n, k, v, w);
  }

  // ---------------------------------------------------------------- the same keys in parts

  ghost function AllParts(k: nat, w: nat): set<Parts>
    requires 1 <= k < w
  {
    Product(LowParts(Pow2(k - 1)), HighParts(k, w))
  }

  function SmoothOf(p: Parts, k: nat, w: nat): nat
    requires 1 <= k < w && LargeOf(p.0, Pow2(k - 1)) > 0
  {
    SmoothValue(BitsOf(p.1, k, w), LargeOf(p.0, Pow2(k - 1)), 2 * Pow2(k - 1), Pow2(k - 1))
  }

  lemma KeyOfParts(p: Parts, k: nat, w: nat, key: Key)
    requires (w == 16 || w == 32) && 1 <= k < w && p in AllParts(k, w) && key == Assemble(p, Pow2(k - 1))
    ensures key in Keys(w) && Disassemble(key, Pow2(k - 1)) == p
    ensures Pow2(k - 1) <= Pow2(w) && LargeKey(key, k, w) == LargeOf(p.0, Pow2(k - 1)) >= Pow2(k - 1)
    ensures LargeKey(key, k, w) > 0 && SmoothKey(key, k, w) == SmoothOf(p, k, w)
    ensures ShortKey(key, k, w) == ShortOf(p.0, Pow2(k - 1), w)
  {
    Powers(k, w);
    hide Pow2, Assemble, Disassemble, ForPowersOf2, SmoothValue, GetAsteriskBits, BitsOf, ShortOf, Keys, Low, PopCount, LowParts, HighParts;
    AssembleKey(p, k, w, Pow2(k - 1));
    LargeOfKey(p, k, w, Pow2(k - 1), key);
    ShortOfKey(p, k, w, Pow2(k - 1), key);
    BitsOfKey(p, k, w, Pow2(k - 1), key);
  }

  lemma PartsOfKey(key: Key, k: nat, w: nat)
    requires 1 <= k < w && key in Keys(w) && LargeKey(key, k, w) >= Pow2(k - 1)
    ensures Disassemble(key, Pow2(k - 1)) in AllParts(k, w)
    ensures Assemble(Disassemble(key, Pow2(k - 1)), Pow2(k - 1)) == key
  {
    Powers(k, w);
    hide Pow2, Assemble, Disassemble, ForPowersOf2, Keys, Low, LowParts, HighParts;
    LargeBounds(key.1.0, key.1.1, key.1.2, k, w, k - 1);
    DisassembleKey(key, k, w, Pow2(k - 1));
  }

  ghost function SmoothParts(k: nat, m: nat, v: nat, w: nat): set<Parts>
    requires 1 <= k < w && m > 0
  {
    set p | p in AllParts(k, w) && LargeOf(p.0, Pow2(k - 1)) >= m && SmoothOf(p, k, w) == v
  }

  ghost function ShortParts(n: nat, k: nat, m: nat, v: nat, w: nat): set<Parts>
    requires 1 <= k < w && m > 0 && Pow2(k - 1) <= Pow2(w)
  {
    set p | p in AllParts(k, w) && LargeOf(p.0, Pow2(k - 1)) >= m && SmoothOf(p, k, w) >= n
      && ShortOf(p.0, Pow2(k - 1), w) == v
  }

  lemma SmoothInParts(n: nat, k: nat, v: nat, w: nat)
    requires Sized(n, k, w)
    ensures |SmoothHits(n, k, v, w)| == |SmoothParts(k, n, v, w)|
  {
    SizedBounds(n, k, w);
    hide Pow2, Assemble, Disassemble, LargeKey, SmoothKey, LargeOf, SmoothOf, Keys, AllParts;
    var half := Pow2(k - 1);
    var f := (key: Key) => Disassemble(key, half);
    var g := (p: Parts) => Assemble(p, half);
    forall key | key in SmoothHits(n, k, v, w)
      ensures f(key) in SmoothParts(k, n, v, w) && g(f(key)) == key
    {
      PartsOfKey(key, k, w);
      KeyOfParts(f(key), k, w, key);
    }
    forall p | p in SmoothParts(k, n, v, w)
      ensures g(p) in SmoothHits(n, k, v, w) && f(g(p)) == p
    {
      KeyOfParts(p, k, w, g(p));
    }
    EqualSize(SmoothHits(n, k, v, w), SmoothParts(k, n, v, w), f, g);
  }

  lemma ShortInParts(n: nat, k: nat, v: nat, w: nat)
    requires Sized(n, k, w) && Pow2(k - 1) <= Pow2(w)
    ensures |ShortHits(n, k, v, w)| == |ShortParts(n, k, n, v, w)|
  {
    SizedBounds(n, k, w);
    hide Pow2, Assemble, Disassemble, LargeKey, SmoothKey, ShortKey, LargeOf, SmoothOf, ShortOf, Keys, AllParts;
    var half := Pow2(k - 1);
    var f := (key: Key) => Disassemble(key, half);
    var g := (p: Parts) => Assemble(p, half);
    forall key | key in ShortHits(n, k, v, w)
      ensures f(key) in ShortParts(n, k, n, v, w) && g(f(key)) == key
    {
      PartsOfKey(key, k, w);
      KeyOfParts(f(key), k, w, key);
    }
    forall p | p in ShortParts(n, k, n, v, w)
      ensures g(p) in ShortHits(n, k, v, w) && f(g(p)) == p
    {
      KeyOfParts(p, k, w, g(p));
    }
    EqualSize(ShortHits(n, k, v, w), ShortParts(n, k, n, v, w), f, g);
  }

  // ---------------------------------------------------------------- one large value at a time

  lemma NoParts(n: nat, k: nat, v: nat, w: nat)
    requires 1 <= k < w && Pow2(k - 1) <= Pow2(w)
    ensures SmoothParts(k, 2 * Pow2(k - 1), v, w) == {} == ShortParts(n, k, 2 * Pow2(k - 1), v, w)
  {
    hide Pow2, SmoothOf, ShortOf, PopCount, HighParts;
  }

  /** The parts with large value `m`: independent choices of the low and of the high part. */
  lemma SmoothSlice(k: nat, m: nat, v: nat, w: nat)
    requires 1 <= k < w && m > 0
    ensures |SmoothParts(k, m, v, w)| == |SmoothParts(k, m + 1, v, w)|
      + |LowsTo(Pow2(k - 1), m)| * |HighsWith(k, w, (x: nat) => SmoothValue(x, m, 2 * Pow2(k - 1), Pow2(k - 1)) == v)|
  {
    hide Pow2, BitsOf, SmoothValue, LargeOf, LowParts, HighParts;
    var half := Pow2(k - 1);
    var r := (x: nat) => SmoothValue(x, m, 2 * half, half) == v;
    var slice := Product(LowsTo(half, m), HighsWith(k, w, r));
    assert SmoothParts(k, m, v, w) == SmoothParts(k, m + 1, v, w) + slice;
    assert SmoothParts(k, m + 1, v, w) !! slice;
    ProductSize(LowsTo(half, m), HighsWith(k, w, r));
  }

  lemma ShortSlice(n: nat, k: nat, m: nat, v: nat, w: nat)
    requires 1 <= k < w && m > 0 && 0 < Pow2(k - 1) <= Pow2(w)
    ensures |ShortParts(n, k, m, v, w)| == |ShortParts(n, k, m + 1, v, w)|
      + |LowsToBoth(Pow2(k - 1), m, v, w)| * |HighsWith(k, w, (x: nat) => SmoothValue(x, m, 2 * Pow2(k - 1), Pow2(k - 1)) >= n)|
  {
    hide Pow2, BitsOf, SmoothValue, LargeOf, LowParts, HighParts, ShortOf;
    var half := Pow2(k - 1);
    var r := (x: nat) => SmoothValue(x, m, 2 * half, half) >= n;
    var slice := Product(LowsToBoth(half, m, v, w), HighsWith(k, w, r));
    assert ShortParts(n, k, m, v, w) == ShortParts(n, k, m + 1, v, w) + slice;
    assert ShortParts(n, k, m + 1, v, w) !! slice;
    ProductSize(LowsToBoth(half, m, v, w), HighsWith(k, w, r));
  }

  // ---------------------------------------------------------------- the lower buckets

  lemma {:induction false} ShortEqual(n: nat, k: nat, m: nat, half: nat, u: nat, v: nat, w: nat)
    requires 1 <= k < w && half == Pow2(k - 1) <= Pow2(w) && half <= m <= 2 * half && u < half && v < half
    ensures |ShortParts(n, k, m, u, w)| == |ShortParts(n, k, m, v, w)|
    decreases 2 * half - m
  {
    hide *;
    if m == 2 * half {
      NoParts(n, k, u, w);
      NoParts(n, k, v, w);
    } else {
      ShortEqual(n, k, m + 1, half, u, v, w);
      ShortSlice(n, k, m, u, w);
      ShortSlice(n, k, m, v, w);
      LowsToBothSize(k - 1, half, m, u, w);
      LowsToBothSize(k - 1, half, m, v, w);
    }
  }

  /** For every number of buckets, those below the largest smaller power of two are loaded equally. */
  lemma LowerBucketsEqual(n: nat, k: nat, u: nat, v: nat, w: nat)
    requires Sized(n, k, w) && u < Pow2(k - 1) && v < Pow2(k - 1)
    ensures 2 <= n <= Pow2(w - 1) && |KeyHits(w, n, u)| == |KeyHits(w, n, v)|
  {
    hide *;
    SizedBounds(n, k, w);
    LowerLoad(n, k, u, w);
    LowerLoad(n, k, v, w);
    ShortInParts(n, k, u, w);
    ShortInParts(n, k, v, w);
    ShortEqual(n, k, n, Pow2(k - 1), u, v, w);
  }

  // ---------------------------------------------------------------- the upper buckets

  /** How many keys share a large value and a value of the left-over bits. */
  function Share(k: nat, w: nat): nat
    requires (w == 16 || w == 32) && 1 <= k < w
  {
    LineBounds(k, w);
    Pow2(4 * w - LeftOverBits(k, w) - k)
  }

  lemma ShareIsProduct(k: nat, w: nat)
    requires (w == 16 || w == 32) && 1 <= k < w
    ensures (Pow2(k - 1) * Pow2(k - 1)) * Multiplicity(k, w) == Share(k, w)
    ensures LeftOverBits(k, w) <= 4 * w && Share(k, w) * Pow2(k) == Pow2(4 * w - LeftOverBits(k, w))
    ensures Pow2(4 * w - LeftOverBits(k, w)) * Pow2(LeftOverBits(k, w)) == Pow2(4 * w)
  {
    hide Pow2;
    LineBounds(k, w);
    var b, x, y := LeftOverBits(k, w), w - KeptBits(k, w), LineBits(k, w) - LeftOverBits(k, w);
    Pow2Add(k - 1, k - 1);
    Pow2Add(x, y);
    Pow2Add(2 * k - 2, x + y);
    Pow2Add(4 * w - b - k, k);
    Pow2Add(4 * w - b, b);
  }

  lemma SmoothStep(k: nat, m: nat, half: nat, v: nat, w: nat)
    requires (w == 16 || w == 32) && 1 <= k < w && half == Pow2(k - 1) && half <= m < 2 * half
    ensures |SmoothParts(k, m, v, w)| == |SmoothParts(k, m + 1, v, w)| + Share(k, w) * |SmoothTo(LeftOverBits(k, w), m, half, v)|
  {
    hide Pow2, SmoothParts, LowsTo, HighsWith, ValuesWith, Share, Multiplicity;
    var r := (x: nat) => SmoothValue(x, m, 2 * half, half) == v;
    SmoothSlice(k, m, v, w);
    LowsToSize(half, m);
    HighsWithSize(k, w, r);
    ShareIsProduct(k, w);
    MulAssociative(half * half, Multiplicity(k, w), |ValuesWith(LeftOverBits(k, w), r)|);
  }

  // ---------------------------------------------------------------- loads are close to equal

  /** `-y <= x <= y` */
  predicate Within(x: int, y: int) {
    0 - y <= x <= y
  }

  /** From the large values above `m` to those from `m` on: `a1` and the share of `m` make the next load. */
  lemma BoundStep(m: nat, a1: int, c: int, k: int, e: int, t: int, g: int, v: int, p: int, f: int)
    requires m > 0 && e >= 0 && g >= 0 && g * v == k && g * t == e && p == m * (m + 1) && f == (t - m - 1) * e
    requires Within(c * p - v, p * t) && Within((m + 1) * a1 - k, (m + 1) * f)
    ensures Within(m * (a1 + g * c) - k, m * (f + e))
  {
    hide Within;
    ScaledWindow(g, c, p, v, t, k, e);
    ScaledRest(m, a1, k, f, p);
    BoundIdentity(m, a1, g * c, k);
    BoundSum(m, f, e, p);
    Combine((g * c) * p - k, m * ((m + 1) * a1 - k), m * (a1 + g * c) - k, m * (f + e), p * e, p * f, m + 1);
  }

  lemma ScaledWindow(g: int, c: int, p: int, v: int, t: int, k: int, e: int)
    requires g >= 0 && g * v == k && g * t == e && Within(c * p - v, p * t)
    ensures Within((g * c) * p - k, p * e)
  {
    Scaled(c * p - v, p * t, g);
    MulAssociative(g, c, p);
    MulAssociative(g, p, t);
    MulAssociative(p, g, t);
    assert g * (c * p - v) == g * (c * p) - g * v;
  }

  lemma ScaledRest(m: nat, a: int, k: int, f: int, p: int)
    requires p == m * (m + 1) && Within((m + 1) * a - k, (m + 1) * f)
    ensures Within(m * ((m + 1) * a - k), p * f)
  {
    Scaled((m + 1) * a - k, (m + 1) * f, m);
    MulAssociative(m, m + 1, f);
  }

  lemma BoundSum(m: int, f: int, e: int, p: int)
    requires p == m * (m + 1)
    ensures (m + 1) * (m * (f + e)) == p * f + p * e
  {
    MulAssociative(m + 1, m, f + e);
    assert p * (f + e) == p * f + p * e;
  }

  lemma Combine(q1: int, q2: int, r: int, y: int, y1: int, y2: int, g: int)
    requires g > 0 && Within(q1, y1) && Within(q2, y2) && g * r == q2 + q1 && g * y == y2 + y1
    ensures Within(r, y)
  {
    Unscaled(r, y, g);
  }

  lemma BoundIdentity(m: int, a: int, x: int, k: int)
    ensures (m + 1) * (m * (a + x) - k) == m * ((m + 1) * a - k) + (x * (m * (m + 1)) - k)
  {
    var p := m * (m + 1);
    assert (m + 1) * (m * (a + x)) == p * (a + x) == p * a + p * x;
    assert m * ((m + 1) * a) == p * a;
  }

  lemma Scaled(x: int, y: int, g: int)
    requires g >= 0 && Within(x, y)
    ensures Within(g * x, g * y)
  {
    MulMonotone(x, y, g);
    MulMonotone(0 - y, x, g);
  }

  lemma Unscaled(x: int, y: int, g: int)
    requires g > 0 && Within(g * x, g * y)
    ensures Within(x, y)
  {
    if x > y {
      MulMonotone(y + 1, x, g);
    }
    if x < 0 - y {
      MulMonotone(x, 0 - y - 1, g);
    }
  }

  /** How far a load may be from an equal one, for each missing bucket. */
  function Slack(k: nat, w: nat): nat
    requires (w == 16 || w == 32) && 1 <= k < w
  {
    LineBounds(k, w);
    Pow2(4 * w - LeftOverBits(k, w))
  }

  lemma WindowOfStep(k: nat, m: nat, half: nat, v: nat, w: nat, c: nat, p: nat)
    requires (w == 16 || w == 32) && 1 <= k < w && half == Pow2(k - 1) && half <= v < m < 2 * half
    requires c == |SmoothTo(LeftOverBits(k, w), m, half, v)| && p == m * (m + 1)
    ensures Within(c * p - Pow2(LeftOverBits(k, w)) * (2 * half), p * (2 * half))
  {
    hide Pow2, SmoothTo, Window, Within;
    SmoothIsWindow(LeftOverBits(k, w), m, half, v);
    WindowFits(m, half, v);
    var lo, hi := (v - half) * (2 * half), (v - half + 1) * (2 * half);
    assert hi - lo == 2 * half;
    WindowBound(Pow2(LeftOverBits(k, w)), p, lo, hi, 2 * half, c);
  }

  /** `load` is an `n`-th of `all`, up to `slack` for each of the `missing`. */
  predicate Close(n: int, load: int, all: int, missing: int, slack: int) {
    Within(n * load - all, n * (missing * slack))
  }

  lemma CloseStart(n: int, load: int, all: int, slack: int)
    requires n * load == all
    ensures Close(n, load, all, 0, slack)
  {
  }

  lemma CloseStep(m: nat, a1: int, c: int, all: int, e: int, t: int, g: int, v: int)
    requires m > 0 && e >= 0 && g >= 0 && g * v == all && g * t == e
    requires Within(c * (m * (m + 1)) - v, (m * (m + 1)) * t) && Close(m + 1, a1, all, t - m - 1, e)
    ensures Close(m, a1 + g * c, all, t - m, e)
  {
    hide Within;
    BoundStep(m, a1, c, all, e, t, g, v, m * (m + 1), (t - m - 1) * e);
    assert (t - m - 1) * e + e == (t - m) * e;
  }

  lemma ShareFacts(k: nat, w: nat, half: nat)
    requires (w == 16 || w == 32) && 1 <= k < w && half == Pow2(k - 1)
    ensures Share(k, w) * (2 * half) == Slack(k, w)
    ensures Share(k, w) * (Pow2(LeftOverBits(k, w)) * (2 * half)) == Pow2(4 * w)
  {
    hide Pow2, Share, LeftOverBits, Multiplicity;
    Powers(k, w);
    ShareIsProduct(k, w);
    var g, t, b := Share(k, w), 2 * half, Pow2(LeftOverBits(k, w));
    Regrouped(g, t, b);
  }

  lemma Regrouped(g: int, t: int, b: int)
    ensures g * (b * t) == (g * t) * b
  {
  }

  lemma WholePower(k: nat, w: nat, half: nat)
    requires 1 <= k < w && half == Pow2(k - 1)
    ensures (2 * half) * Pow2(4 * w - k) == Pow2(4 * w)
  {
    Pow2Add(k, 4 * w - k);
  }

  lemma {:induction false} UpperBound(k: nat, m: nat, half: nat, v: nat, w: nat, load: nat)
    requires (w == 16 || w == 32) && 1 <= k < w && half == Pow2(k - 1) <= Pow2(w) && half <= v < m <= 2 * half
    requires load == Pow2(4 * w - k) + |SmoothParts(k, m, v, w)|
    ensures Close(m, load, Pow2(4 * w), 2 * half - m, Slack(k, w))
    decreases 2 * half - m
  {
    hide *;
    if m == 2 * half {
      NoParts(0, k, v, w);
      WholePower(k, w, half);
      CloseStart(m, load, Pow2(4 * w), Slack(k, w));
    } else {
      var b := LeftOverBits(k, w);
      var c, a1 := |SmoothTo(b, m, half, v)|, Pow2(4 * w - k) + |SmoothParts(k, m + 1, v, w)|;
      UpperBound(k, m + 1, half, v, w, a1);
      SmoothStep(k, m, half, v, w);
      WindowOfStep(k, m, half, v, w, c, m * (m + 1));
      ShareFacts(k, w, half);
      CloseStep(m, a1, c, Pow2(4 * w), Slack(k, w), 2 * half, Share(k, w), Pow2(b) * (2 * half));
    }
  }

  /** An upper bucket's load differs from an `n`-th of all keys by no more than `(2^k - n) * Slack`. */
  lemma UpperLoadBound(n: nat, k: nat, v: nat, w: nat)
    requires Sized(n, k, w) && Pow2(k - 1) <= v < n
    ensures 2 <= n <= Pow2(w - 1) && Close(n, |KeyHits(w, n, v)|, Pow2(4 * w), Pow2(k) - n, Slack(k, w))
  {
    hide *;
    SizedBounds(n, k, w);
    UpperLoad(n, k, v, w);
    SmoothInParts(n, k, v, w);
    UpperBound(k, n, Pow2(k - 1), v, w, |KeyHits(w, n, v)|);
  }

  // ---------------------------------------------------------------- where the left-over bits do not suffice

  lemma FarWindow(n: nat, m: nat, lo: nat, hi: nat)
    requires m > 0 && n <= lo
    ensures Window(n, m, lo, hi) == {}
  {
    forall x: nat | x < n
      ensures Low(x, m) <= x
    {
      JoinSplit(x, m);
      MulMonotone(0, High(x, m), m);
    }
  }

  lemma {:induction false} FarParts(k: nat, m: nat, half: nat, v: nat, w: nat)
    requires (w == 16 || w == 32) && 1 <= k < w && half == Pow2(k - 1) <= Pow2(w) && half <= v && half <= m <= 2 * half
    requires Pow2(LeftOverBits(k, w)) <= (v - half) * (2 * half)
    ensures |SmoothParts(k, m, v, w)| == 0
    decreases 2 * half - m
  {
    hide *;
    if m == 2 * half {
      NoParts(0, k, v, w);
    } else {
      FarParts(k, m + 1, half, v, w);
      SmoothStep(k, m, half, v, w);
      SmoothIsWindow(LeftOverBits(k, w), m, half, v);
      FarWindow(Pow2(LeftOverBits(k, w)), m * (m + 1), (v - half) * (2 * half), (v - half + 1) * (2 * half));
    }
  }

  /** A bucket that the left-over bits cannot reach holds what it holds among `2^k` buckets, whatever `n` is. */
  lemma FarBucketLoad(n: nat, k: nat, v: nat, w: nat)
    requires Sized(n, k, w) && Pow2(k - 1) <= v < n && Pow2(LeftOverBits(k, w)) <= (v - Pow2(k - 1)) * Pow2(k)
    ensures 2 <= n <= Pow2(w - 1) && |KeyHits(w, n, v)| == Pow2(4 * w - k)
  {
    hide *;
    SizedBounds(n, k, w);
    UpperLoad(n, k, v, w);
    SmoothInParts(n, k, v, w);
    FarParts(k, n, Pow2(k - 1), v, w);
  }

  lemma NearWindow(n: nat, m: nat, lo: nat, hi: nat)
    requires m > 0 && lo <= hi <= n <= m
    ensures |Window(n, m, lo, hi)| == hi - lo
  {
    hide Window;
    WindowSize(n, m, lo, hi);
    if n < m {
      SplitJoin(0, n, m);
      assert Join(0, n, m) == n;
    } else {
      SplitJoin(1, 0, m);
      assert Join(1, 0, m) == n;
    }
  }

  lemma {:induction false} NearParts(k: nat, m: nat, half: nat, v: nat, w: nat)
    requires (w == 16 || w == 32) && 1 <= k < w && half == Pow2(k - 1) <= Pow2(w) && half <= v && half <= m <= 2 * half
    requires (v - half + 1) * (2 * half) <= Pow2(LeftOverBits(k, w)) <= m * (m + 1)
    ensures |SmoothParts(k, m, v, w)| == (2 * half - m) * Slack(k, w)
    decreases 2 * half - m
  {
    hide *;
    if m == 2 * half {
      NoParts(0, k, v, w);
    } else {
      NextProduct(m);
      NearParts(k, m + 1, half, v, w);
      SmoothStep(k, m, half, v, w);
      NearStep(LeftOverBits(k, w), m, half, v);
      ShareFacts(k, w, half);
      NearAlgebra(2 * half - m, Slack(k, w));
    }
  }

  lemma NearStep(b: nat, m: nat, half: nat, v: nat)
    requires 0 < half <= v && m > 0 && (v - half + 1) * (2 * half) <= Pow2(b) <= m * (m + 1)
    ensures |SmoothTo(b, m, half, v)| == 2 * half
  {
    hide *;
    SmoothIsWindow(b, m, half, v);
    var lo, hi := (v - half) * (2 * half), (v - half + 1) * (2 * half);
    assert hi == lo + 2 * half;
    NearWindow(Pow2(b), m * (m + 1), lo, hi);
  }

  lemma NextProduct(m: nat)
    ensures m * (m + 1) <= (m + 1) * (m + 2)
  {
    assert (m + 1) * (m + 2) == m * (m + 1) + 2 * (m + 1);
  }

  lemma NearAlgebra(missing: int, slack: int)
    ensures missing * slack == (missing - 1) * slack + slack
  {
  }

  /** And one that they reach, when they never exceed one period, holds a full window of every missing bucket. */
  lemma NearBucketLoad(n: nat, k: nat, v: nat, w: nat)
    requires Sized(n, k, w) && Pow2(k - 1) <= v < n
    requires (v - Pow2(k - 1) + 1) * Pow2(k) <= Pow2(LeftOverBits(k, w)) <= n * (n + 1)
    ensures 2 <= n <= Pow2(w - 1) && |KeyHits(w, n, v)| == Pow2(4 * w - k) + (Pow2(k) - n) * Slack(k, w)
  {
    hide *;
    SizedBounds(n, k, w);
    UpperLoad(n, k, v, w);
    SmoothInParts(n, k, v, w);
    NearParts(k, n, Pow2(k - 1), v, w);
  }

  lemma SmallPowers()
    ensures Pow2(7) == 128 && Pow2(13) == 8192 && Pow2(14) == 16384 && Pow2(15) == 32768 && Pow2(21) == 2097152
  {
    assert Pow2(7) == 128;
    assert Pow2(13) == 64 * Pow2(7);
    Pow2Add(14, 7);
  }

  /** 24576 buckets, well within the promised range: bucket 16384 holds 129 times as many keys as bucket 20000. */
  lemma UnequalLoads()
    ensures 24576 <= Pow2(15)
    ensures |KeyHits(16, 24576, 20000)| == Pow2(49) && |KeyHits(16, 24576, 16384)| == 129 * Pow2(49)
  {
    hide Pow2, KeyHits;
    SmallPowers();
    FarBucketLoad(24576, 15, 20000, 16);
    NearBucketLoad(24576, 15, 16384, 16);
    Pow2Add(13, 43);
    Pow2Add(7, 49);
  }

  // ---------------------------------------------------------------- all loads

  /** Any number of the last buckets together hold their share of all keys, up to the slack of each. */
  lemma {:induction false} LastBuckets(n: nat, w: nat, j: nat, all: int, missing: int, slack: int)
    requires w > 0 && 1 <= n <= Pow2(w - 1) && j <= n && all == Pow2(4 * w)
    requires forall v: nat :: j <= v < n ==> Close(n, |KeyHits(w, n, v)|, all, missing, slack)
    ensures Within(n * (all - |KeysBelow(w, n, j)|) - (n - j) * all, (n - j) * (n * (missing * slack)))
    decreases n - j
  {
    hide Pow2, KeyHits, KeysBelow, Within, Close;
    if j == n {
      AllBelow(w, n);
      KeyCount(w);
      NothingOff(n, all - |KeysBelow(w, n, j)|, all, n * (missing * slack));
    } else {
      LastBuckets(n, w, j + 1, all, missing, slack);
      NextBucket(w, n, j);
      OneMoreClose(n, |KeyHits(w, n, j)|, all, missing, slack, all - |KeysBelow(w, n, j + 1)|, n - j - 1);
    }
  }

  lemma NothingOff(n: int, x: int, all: int, y: int)
    requires x == 0
    ensures Within(n * x - 0 * all, 0 * y)
  {
  }

  lemma OneMoreClose(n: int, load: int, all: int, missing: int, slack: int, rest: int, count: int)
    requires Close(n, load, all, missing, slack) && Within(n * rest - count * all, count * (n * (missing * slack)))
    ensures Within(n * (rest + load) - (count + 1) * all, (count + 1) * (n * (missing * slack)))
  {
    var y := n * (missing * slack);
    assert (count + 1) * y == count * y + y && (count + 1) * all == count * all + all;
    assert n * (rest + load) == n * rest + n * load;
  }

  lemma SlackNonNegative(n: nat, k: nat, w: nat)
    requires Sized(n, k, w)
    ensures n * ((Pow2(k) - n) * Slack(k, w)) >= 0
  {
    hide Pow2;
    MulMonotone(0, Pow2(k) - n, Slack(k, w));
    MulMonotone(0, n, (Pow2(k) - n) * Slack(k, w));
  }

  /** The lower buckets share what the upper ones leave. */
  lemma LowerClose(n: int, half: int, load: int, all: int, y: int)
    requires 0 < half < n <= 2 * half && y >= 0 && Within(n * (all - half * load) - (n - half) * all, (n - half) * y)
    ensures Within(n * load - all, y)
  {
    var x := n * load - all;
    assert n * (all - half * load) - (n - half) * all == 0 - half * x by {
      LowerAlgebra(n, half, load, all);
    }
    MulMonotone(n - half, half, y);
    Unscaled(x, y, half);
  }

  lemma LowerAlgebra(n: int, half: int, load: int, all: int)
    ensures n * (all - half * load) - (n - half) * all == 0 - half * (n * load - all)
  {
    assert n * (half * load) == half * (n * load);
    assert n * (all - half * load) == n * all - n * (half * load);
    assert (n - half) * all == n * all - half * all;
    assert half * (n * load - all) == half * (n * load) - half * all;
  }

  lemma LowerIsClose(n: int, half: int, load: int, all: int, missing: int, slack: int)
    requires 0 < half < n <= 2 * half && n * (missing * slack) >= 0
    requires Within(n * (all - half * load) - (n - half) * all, (n - half) * (n * (missing * slack)))
    ensures Close(n, load, all, missing, slack)
  {
    hide Within;
    LowerClose(n, half, load, all, n * (missing * slack));
  }

  lemma LowerLoadBound(n: nat, k: nat, v: nat, w: nat)
    requires Sized(n, k, w) && v < Pow2(k - 1)
    ensures 2 <= n <= Pow2(w - 1) && Close(n, |KeyHits(w, n, v)|, Pow2(4 * w), Pow2(k) - n, Slack(k, w))
  {
    hide *;
    SizedBounds(n, k, w);
    var half, load, all := Pow2(k - 1), |KeyHits(w, n, v)|, Pow2(4 * w);
    forall u: nat | u < half
      ensures |KeyHits(w, n, u)| == load
    {
      LowerBucketsEqual(n, k, u, v, w);
    }
    EqualLoads(w, n, half, load);
    forall u: nat | half <= u < n
      ensures Close(n, |KeyHits(w, n, u)|, all, Pow2(k) - n, Slack(k, w))
    {
      UpperLoadBound(n, k, u, w);
    }
    LastBuckets(n, w, half, all, Pow2(k) - n, Slack(k, w));
    SlackNonNegative(n, k, w);
    LowerIsClose(n, half, load, all, Pow2(k) - n, Slack(k, w));
  }

  /** For every number of buckets and every bucket: the load is an `n`-th of all keys, up to `(2^k - n) * Slack`. */
  lemma LoadBound(n: nat, k: nat, v: nat, w: nat)
    requires Sized(n, k, w) && v < n
    ensures 2 <= n <= Pow2(w - 1) && Close(n, |KeyHits(w, n, v)|, Pow2(4 * w), Pow2(k) - n, Slack(k, w))
  {
    hide *;
    SizedBounds(n, k, w);
    if v < Pow2(k - 1) {
      LowerLoadBound(n, k, v, w);
    } else {
      UpperLoadBound(n, k, v, w);
    }
  }

  // ---------------------------------------------------------------- what moves

  /** From `n1` to `n2` buckets the fraction `(n2 - n1) / n2` of all keys moves, up to the slack of each new bucket. */
  lemma MovedBound(n1: nat, n2: nat, k: nat, w: nat)
    requires Sized(n2, k, w) && 1 <= n1 <= n2
    ensures 2 <= n2 <= Pow2(w - 1)
    ensures Within(n2 * |Moved(w, n1, n2)| - (n2 - n1) * Pow2(4 * w), (n2 - n1) * (n2 * ((Pow2(k) - n2) * Slack(k, w))))
  {
    hide Pow2, KeyHits, KeysBelow, Moved, Within, Close, Slack, Keys;
    SizedBounds(n2, k, w);
    forall v: nat | n1 <= v < n2
      ensures Close(n2, |KeyHits(w, n2, v)|, Pow2(4 * w), Pow2(k) - n2, Slack(k, w))
    {
      LoadBound(n2, k, v, w);
    }
    LastBuckets(n2, w, n1, Pow2(4 * w), Pow2(k) - n2, Slack(k, w));
    MovedSize(w, n1, n2);
    KeyCount(w);
  }

  lemma MovedMeans(n1: nat, n2: nat, k: nat, w: nat)
    requires Sized(n2, k, w) && 1 <= n1 <= Pow2(k - 1) && n1 <= n2 <= Pow2(w - 1)
    ensures |Moved(w, n1, n2)| * n2 == (n2 - n1) * |Keys(w)| <==> n2 * |KeyHits(w, n2, 0)| == |Keys(w)|
  {
    hide Pow2, KeyHits, KeysBelow, Moved, Keys;
    SizedBounds(n2, k, w);
    var load := |KeyHits(w, n2, 0)|;
    forall v: nat | v < n1
      ensures |KeyHits(w, n2, v)| == load
    {
      LowerBucketsEqual(n2, k, v, 0, w);
    }
    EqualLoads(w, n2, n1, load);
    MovedSize(w, n1, n2);
    hide *;
    FractionMeans(|Keys(w)|, n1, n2, load);
  }

  /** Up to the largest smaller power of two, exactly that fraction moves if and only if `n2` is a power of two. */
  lemma MovedExactly(n1: nat, n2: nat, k: nat, w: nat)
    requires Sized(n2, k, w) && 1 <= n1 <= Pow2(k - 1)
    ensures 2 <= n2 <= Pow2(w - 1) && n1 <= n2
    ensures |Moved(w, n1, n2)| * n2 == (n2 - n1) * |Keys(w)| <==> IsPowerOf2(n2)
  {
    hide *;
    SizedBounds(n2, k, w);
    MovedMeans(n1, n2, k, w);
    KeyCount(w);
    if IsPowerOf2(n2) {
      var j := PowerIs(n2, k);
      PowerOfTwoLoad(k, 0, w);
      Pow2Add(k, 4 * w - k);
    } else if n2 * |KeyHits(w, n2, 0)| == |Keys(w)| {
      DivisorOfPower(n2, |KeyHits(w, n2, 0)|, 4 * w);
    }
  }

  lemma FractionMeans(all: int, n1: int, n2: int, load: int)
    requires n1 > 0
    ensures (all - n1 * load) * n2 == (n2 - n1) * all <==> n2 * load == all
  {
    assert (all - n1 * load) * n2 - (n2 - n1) * all == n1 * (all - n2 * load) by {
      assert (n1 * load) * n2 == n1 * (n2 * load);
      assert (all - n1 * load) * n2 == all * n2 - (n1 * load) * n2;
      assert (n2 - n1) * all == n2 * all - n1 * all;
      assert n1 * (all - n2 * load) == n1 * all - n1 * (n2 * load);
    }
    NoZeroFactor(n1, all - n2 * load);
  }

  lemma NoZeroFactor(x: int, y: int)
    requires x > 0
    ensures x * y == 0 <==> y == 0
  {
  }

  lemma PowerIs(n: nat, k: nat) returns (j: nat)
    requires IsPowerOf2(n) && k >= 1 && Pow2(k - 1) < n <= Pow2(k)
    ensures j == k && n == Pow2(k)
  {
    j :| n == Pow2(j);
    if j < k {
      Pow2Monotone(j, k - 1);
    } else if k < j {
      Pow2Monotone(k + 1, j);
    }
  }

  /** From one bucket to three the promised fraction is missed, whatever the word size. */
  lemma OneToThree(w: nat)
    requires w == 16 || w == 32
    ensures 3 <= Pow2(w - 1) && |Moved(w, 1, 3)| * 3 != 2 * |Keys(w)|
  {
    assert Pow2(1) == 2 && Pow2(2) == 4;
    hide Keys, Moved;
    MovedExactly(1, 3, 2, w);
    if IsPowerOf2(3) {
      var j := PowerIs(3, 2);
    }
  }
}
