/** How evenly the keys are spread over the buckets. */
module HashBalance {
  import opened Arith
  import opened Counting
  import opened ConsistentHashing

  // ---------------------------------------------------------------- numbers in two parts

  lemma SplitJoin(high: nat, low: nat, p: nat)
    requires low < p
    ensures High(Join(high, low, p), p) == high && Low(Join(high, low, p), p) == low
  {
    DivModUnique(Join(high, low, p), p, high, low);
  }

  lemma JoinSplit(x: nat, p: nat)
    requires p > 0
    ensures Join(High(x, p), Low(x, p), p) == x
  {
    var q, r := DivIdentity(x, p);
    DivModUnique(x, p, q, r);
  }

  lemma JoinBound(high: nat, low: nat, p: nat, m: nat)
    requires low < p
    ensures Join(high, low, p) < m * p <==> high < m
  {
    if high < m {
      MulMonotone(high + 1, m, p);
    } else {
      MulMonotone(m, high, p);
    }
  }

  // ---------------------------------------------------------------- the keys of a bucket

  /** Three words of `m` bits. */
  type Triple = (nat, nat, nat)

  ghost function Triples(m: nat): (s: set<Triple>)
    ensures forall t: Triple :: t in s <==> t.0 < Pow2(m) && t.1 < Pow2(m) && t.2 < Pow2(m)
  {
    set a, b, c | a in Below(Pow2(m)) && b in Below(Pow2(m)) && c in Below(Pow2(m)) :: (a, b, c)
  }

  /** The triples that `2^k` buckets send to `v`. */
  ghost function TripleHits(m: nat, k: nat, v: nat, w: nat): set<Triple>
    requires Pow2(k) <= Pow2(w)
  {
    set t | t in Triples(m) && ForPowersOf2(t.0, t.1, t.2, Pow2(k), w) == v
  }

  /** Everything that is free once the bucket is chosen:
      high and low bits of `c`, high bits of the selected word, the other word. */
  type Free = ((nat, nat), (nat, nat))

  /** The block of `c`, for bucket `v > 0`. */
  function BlockOf(f: Free, top: nat): nat {
    top + f.0.1
  }

  function Place(f: Free, v: nat, top: nat, k2: nat): Triple
    requires top <= v
  {
    var c := Join(f.0.0, BlockOf(f, top), k2);
    var selected := Join(f.1.0, v - top, top);
    if PopCount(BlockOf(f, top)) % 2 == 0 then (selected, f.1.1, c) else (f.1.1, selected, c)
  }

  function Unplace(t: Triple, top: nat, k2: nat): Free
    requires top > 0 && k2 > 0
  {
    var cBlock := Low(t.2, k2);
    var low := if cBlock >= top then cBlock - top else 0;
    if PopCount(cBlock) % 2 == 0 then ((High(t.2, k2), low), (High(t.0, top), t.1))
    else ((High(t.2, k2), low), (High(t.1, top), t.0))
  }

  ghost function FreeChoices(m: nat, k: nat, y: nat): set<Free>
    requires y < k <= m
  {
    Product(Product(Below(Pow2(m - k)), Below(Pow2(y))), Product(Below(Pow2(m - y)), Below(Pow2(m))))
  }

  lemma PlaceHits(f: Free, v: nat, y: nat, k: nat, m: nat, w: nat)
    requires y < k <= m <= w && Pow2(y) <= v < 2 * Pow2(y) <= Pow2(k) <= Pow2(w)
    requires Pow2(m) == Pow2(m - k) * Pow2(k) == Pow2(m - y) * Pow2(y)
    requires f in FreeChoices(m, k, y)
    ensures Place(f, v, Pow2(y), Pow2(k)) in TripleHits(m, k, v, w)
    ensures Unplace(Place(f, v, Pow2(y), Pow2(k)), Pow2(y), Pow2(k)) == f
  {
    hide Pow2, Join, High, Low, PopCount, ForPowersOf2, TopBit, Below;
    var top, k2 := Pow2(y), Pow2(k);
    var block := BlockOf(f, top);
    SplitJoin(f.0.0, block, k2);
    SplitJoin(f.1.0, v - top, top);
    JoinBound(f.0.0, block, k2, Pow2(m - k));
    JoinBound(f.1.0, v - top, top, Pow2(m - y));
    var t := Place(f, v, top, k2);
    LargeShape(t.0, t.1, t.2, k, w, block);
    TopBitIs(block, y);
  }

  lemma TopBitIs(v: nat, y: nat)
    requires Pow2(y) <= v < 2 * Pow2(y)
    ensures v > 0 && TopBit(v) == Pow2(y)
  {
    BitCountUnique(v, y);
  }

  /** The block of a key in bucket `v` has the highest bit of `v`, and the selected word its other bits. */
  lemma BlockOfHit(t: Triple, v: nat, y: nat, k: nat, m: nat, w: nat, block: nat)
    requires y < k <= m <= w && Pow2(y) <= v < 2 * Pow2(y) <= Pow2(k) <= Pow2(w)
    requires t in TripleHits(m, k, v, w) && block == Low(t.2, Pow2(k))
    ensures Pow2(y) <= block < 2 * Pow2(y) && Low(SelectAOrBBlock(t.0, t.1, block), Pow2(y)) == v - Pow2(y)
  {
    hide Pow2, Low, PopCount, ForPowersOf2, TopBit, Below, SelectAOrBBlock;
    LargeShape(t.0, t.1, t.2, k, w, block);
    TopBitIs(v, y);
    TopBitBounds(block, k);
    SameTopBit(block, v);
  }

  lemma UnplaceFree(t: Triple, v: nat, y: nat, k: nat, m: nat, w: nat)
    requires y < k <= m <= w && Pow2(y) <= v < 2 * Pow2(y) <= Pow2(k) <= Pow2(w)
    requires Pow2(m) == Pow2(m - k) * Pow2(k) == Pow2(m - y) * Pow2(y)
    requires t in TripleHits(m, k, v, w)
    ensures Unplace(t, Pow2(y), Pow2(k)) in FreeChoices(m, k, y)
    ensures Place(Unplace(t, Pow2(y), Pow2(k)), v, Pow2(y), Pow2(k)) == t
  {
    hide Pow2, Low, TripleHits, FreeChoices, Place, Unplace, SelectAOrBBlock;
    var block := Low(t.2, Pow2(k));
    BlockOfHit(t, v, y, k, m, w, block);
    HitBounds(t, m, k, v, w);
    UnplaceBounds(t, block, Pow2(y), Pow2(k), m, k, y);
    PlaceUnplace(t, v, block, Pow2(y), Pow2(k));
  }

  lemma HitBounds(t: Triple, m: nat, k: nat, v: nat, w: nat)
    requires Pow2(k) <= Pow2(w) && t in TripleHits(m, k, v, w)
    ensures t.0 < Pow2(m) && t.1 < Pow2(m) && t.2 < Pow2(m)
  {
    hide Pow2, ForPowersOf2;
  }

  lemma UnplaceBounds(t: Triple, block: nat, top: nat, k2: nat, m: nat, k: nat, y: nat)
    requires y < k <= m && top == Pow2(y) && k2 == Pow2(k) && block == Low(t.2, k2) && top <= block < 2 * top
    requires Pow2(m) == Pow2(m - k) * k2 == Pow2(m - y) * top && t.0 < Pow2(m) && t.1 < Pow2(m) && t.2 < Pow2(m)
    ensures Unplace(t, top, k2) in FreeChoices(m, k, y)
  {
    hide Pow2, Join, High, Low, PopCount;
    HighBound(t.2, k2, Pow2(m - k));
    HighBound(t.0, top, Pow2(m - y));
    HighBound(t.1, top, Pow2(m - y));
  }

  lemma HighBound(x: nat, p: nat, n: nat)
    requires p > 0 && x < n * p
    ensures High(x, p) < n
  {
    hide Join, High, Low;
    JoinSplit(x, p);
    JoinBound(High(x, p), Low(x, p), p, n);
  }

  lemma PlaceUnplace(t: Triple, v: nat, block: nat, top: nat, k2: nat)
    requires 0 < top <= v && k2 > 0 && block == Low(t.2, k2) && top <= block
    requires Low(SelectAOrBBlock(t.0, t.1, block), top) == v - top
    ensures Place(Unplace(t, top, k2), v, top, k2) == t
  {
    hide Join, High, Low, PopCount;
    JoinSplit(t.2, k2);
    JoinSplit(SelectAOrBBlock(t.0, t.1, block), top);
  }

  // ---------------------------------------------------------------- exact balance at powers of two

  lemma PowersSplit(y: nat, k: nat, m: nat, w: nat)
    requires y <= k <= m <= w
    ensures Pow2(m) == Pow2(m - k) * Pow2(k) == Pow2(m - y) * Pow2(y)
    ensures Pow2(k) <= Pow2(m) <= Pow2(w)
    ensures (Pow2(m - k) * Pow2(y)) * (Pow2(m - y) * Pow2(m)) == Pow2(3 * m - k)
  {
    hide Pow2;
    Pow2Add(m - k, k);
    Pow2Add(m - y, y);
    Pow2Add(m - k, y);
    Pow2Add(m - y, m);
    Pow2Add(m - k + y, m - y + m);
    Pow2Monotone(k, m);
    Pow2Monotone(m, w);
  }

  lemma PositiveBucketSize(m: nat, k: nat, v: nat, w: nat, y: nat)
    requires y < k <= m <= w && Pow2(y) <= v < 2 * Pow2(y) <= Pow2(k) <= Pow2(w)
    ensures |TripleHits(m, k, v, w)| == Pow2(3 * m - k)
  {
    hide Pow2, Place, Unplace, TripleHits, Below;
    PowersSplit(y, k, m, w);
    var place := (f: Free) => Place(f, v, Pow2(y), Pow2(k));
    var unplace := (t: Triple) => Unplace(t, Pow2(y), Pow2(k));
    forall f | f in FreeChoices(m, k, y)
      ensures place(f) in TripleHits(m, k, v, w) && unplace(place(f)) == f
    {
      PlaceHits(f, v, y, k, m, w);
    }
    forall t | t in TripleHits(m, k, v, w)
      ensures unplace(t) in FreeChoices(m, k, y) && place(unplace(t)) == t
    {
      UnplaceFree(t, v, y, k, m, w);
    }
    EqualSize(FreeChoices(m, k, y), TripleHits(m, k, v, w), place, unplace);
    BoxSize(Pow2(m - k), Pow2(y), Pow2(m - y), Pow2(m));
  }

  ghost function ZeroChoices(m: nat, k: nat): set<Free>
    requires k <= m
  {
    Product(Product(Below(Pow2(m - k)), Below(1)), Product(Below(Pow2(m)), Below(Pow2(m))))
  }

  lemma PlaceZero(f: Free, m: nat, k: nat, w: nat)
    requires k <= m <= w && Pow2(k) <= Pow2(w) && Pow2(m) == Pow2(m - k) * Pow2(k) && f in ZeroChoices(m, k)
    ensures (f.1.0, f.1.1, Join(f.0.0, 0, Pow2(k))) in TripleHits(m, k, 0, w)
    ensures High(Join(f.0.0, 0, Pow2(k)), Pow2(k)) == f.0.0 && f.0.1 == 0
  {
    hide Pow2, Join, High, Low, ForPowersOf2, Below, TopBit, SelectAOrBBlock;
    SplitJoin(f.0.0, 0, Pow2(k));
    JoinBound(f.0.0, 0, Pow2(k), Pow2(m - k));
    LargeShape(f.1.0, f.1.1, Join(f.0.0, 0, Pow2(k)), k, w, 0);
  }

  lemma UnplaceZero(t: Triple, m: nat, k: nat, w: nat)
    requires k <= m <= w && Pow2(k) <= Pow2(w) && Pow2(m) == Pow2(m - k) * Pow2(k) && t in TripleHits(m, k, 0, w)
    ensures ((High(t.2, Pow2(k)), 0), (t.0, t.1)) in ZeroChoices(m, k)
    ensures Join(High(t.2, Pow2(k)), 0, Pow2(k)) == t.2
  {
    hide Pow2, Join, High, Low, ForPowersOf2, Below, TopBit, SelectAOrBBlock;
    LargeShape(t.0, t.1, t.2, k, w, Low(t.2, Pow2(k)));
    JoinSplit(t.2, Pow2(k));
    JoinBound(High(t.2, Pow2(k)), 0, Pow2(k), Pow2(m - k));
  }

  /** Bucket 0: the block of `c` is zero and nothing else matters. */
  lemma ZeroBucketSize(m: nat, k: nat, w: nat)
    requires k <= m <= w && Pow2(k) <= Pow2(w)
    ensures |TripleHits(m, k, 0, w)| == Pow2(3 * m - k)
  {
    hide Pow2, Join, High, TripleHits, Below;
    PowersSplit(0, k, m, w);
    PowerZero();
    var place := (f: Free) => (f.1.0, f.1.1, Join(f.0.0, 0, Pow2(k)));
    var unplace := (t: Triple) => ((High(t.2, Pow2(k)), 0), (t.0, t.1));
    forall f | f in ZeroChoices(m, k)
      ensures place(f) in TripleHits(m, k, 0, w) && unplace(place(f)) == f
    {
      PlaceZero(f, m, k, w);
    }
    forall t | t in TripleHits(m, k, 0, w)
      ensures unplace(t) in ZeroChoices(m, k) && place(unplace(t)) == t
    {
      UnplaceZero(t, m, k, w);
    }
    EqualSize(ZeroChoices(m, k), TripleHits(m, k, 0, w), place, unplace);
    BoxSize(Pow2(m - k), 1, Pow2(m), Pow2(m));
  }

  lemma PowerZero()
    ensures Pow2(0) == 1
  {
  }

  /** Over all triples of `m`-bit words each of the `2^k` buckets is hit equally often: `2^(3m - k)` times,
      which is `2^(2k)` when the words have just `k` bits. */
  lemma BucketSize(m: nat, k: nat, v: nat, w: nat)
    requires k <= m <= w && v < Pow2(k)
    ensures Pow2(k) <= Pow2(w) && |TripleHits(m, k, v, w)| == Pow2(3 * m - k)
  {
    hide Pow2, TripleHits;
    Pow2Monotone(k, w);
    if v == 0 {
      ZeroBucketSize(m, k, w);
    } else {
      var y := BitCount(v) - 1;
      TopBitBounds(v, k);
      BelowPower(y, k);
      PositiveBucketSize(m, k, v, w, y);
    }
  }

  lemma BelowPower(y: nat, k: nat)
    requires 2 * Pow2(y) <= Pow2(k)
    ensures y < k
  {
    if k <= y {
      Pow2Monotone(k, y);
    }
  }

  // ---------------------------------------------------------------- whole keys

  /** A key of four `w`-bit words. */
  type Key = (nat, Triple)

  ghost function Keys(w: nat): set<Key> {
    Product(Below(Pow2(w)), Triples(w))
  }

  function BucketOf(key: Key, n: nat, w: nat): nat
    requires w > 0 && 1 <= n <= Pow2(w - 1)
  {
    InRange(key.1.0, key.1.1, key.1.2, key.0, n, w);
    Impl(key.1.0, key.1.1, key.1.2, key.0, n, w).index
  }

  ghost function KeyHits(w: nat, n: nat, v: nat): set<Key>
    requires w > 0 && 1 <= n <= Pow2(w - 1)
  {
    set key | key in Keys(w) && BucketOf(key, n, w) == v
  }

  /** Exactly equal load: every bucket holds the same number of keys. */
  ghost predicate Balanced(w: nat, n: nat)
    requires w > 0 && 1 <= n <= Pow2(w - 1)
  {
    forall u: nat, v: nat :: u < n && v < n ==> |KeyHits(w, n, u)| == |KeyHits(w, n, v)|
  }

  /** With `2^k` buckets the key's fourth word does not matter. */
  lemma PowerOfTwoBucket(key: Key, k: nat, w: nat)
    requires w > 0 && k < w
    ensures 1 <= Pow2(k) <= Pow2(w - 1) && Pow2(k) <= Pow2(w)
    ensures BucketOf(key, Pow2(k), w) == ForPowersOf2(key.1.0, key.1.1, key.1.2, Pow2(k), w)
  {
    var a, b, c, d := key.1.0, key.1.1, key.1.2, key.0;
    Pow2Monotone(k, w - 1);
    LargeBounds(a, b, c, k, w, 0);
    hide ForPowersOf2, Impl;
    InRange(a, b, c, d, Pow2(k), w);
    if k > 0 {
      SizeFits(Pow2(k), w);
      BitCountUnique(Pow2(k) - 1, k - 1);
      ImplCases(a, b, c, d, Pow2(k), w, k, ForPowersOf2(a, b, c, Pow2(k), w));
    }
  }

  lemma KeyHitsProduct(k: nat, v: nat, w: nat)
    requires w > 0 && k < w && 1 <= Pow2(k) <= Pow2(w - 1) && Pow2(k) <= Pow2(w)
    ensures KeyHits(w, Pow2(k), v) == Product(Below(Pow2(w)), TripleHits(w, k, v, w))
  {
    hide Pow2, BucketOf, ForPowersOf2, Triples, Below;
    forall key: Key
      ensures key in KeyHits(w, Pow2(k), v) <==> key in Product(Below(Pow2(w)), TripleHits(w, k, v, w))
    {
      PowerOfTwoBucket(key, k, w);
    }
  }

  lemma PowerOfTwoLoad(k: nat, v: nat, w: nat)
    requires w > 0 && k < w && v < Pow2(k)
    ensures 1 <= Pow2(k) <= Pow2(w - 1) && |KeyHits(w, Pow2(k), v)| == Pow2(4 * w - k)
  {
    hide *;
    Pow2Monotone(k, w - 1);
    var words, triples, e := Pow2(w), 3 * w - k, 4 * w - k;
    BucketSize(w, k, v, w);
    KeyHitsProduct(k, v, w);
    BelowSize(words);
    ProductSize(Below(words), TripleHits(w, k, v, w));
    assert e == w + triples;
    Pow2Add(w, triples);
  }

  lemma KeyCount(w: nat)
    ensures |Keys(w)| == Pow2(4 * w)
  {
    hide Pow2, Below, Triples;
    var words: set<nat> := Below(Pow2(w));
    var box := Product(Product(words, words), Product(words, words));
    BoxSize(Pow2(w), Pow2(w), Pow2(w), Pow2(w));
    var f := (x: ((nat, nat), (nat, nat))) => (x.0.0, (x.0.1, x.1.0, x.1.1));
    var g := (key: Key) => ((key.0, key.1.0), (key.1.1, key.1.2));
    EqualSize(box, Keys(w), f, g);
    Pow2Add(w, w);
    Pow2Add(2 * w, 2 * w);
  }

  ghost function KeysBelow(w: nat, n: nat, j: nat): set<Key>
    requires w > 0 && 1 <= n <= Pow2(w - 1)
  {
    set key | key in Keys(w) && BucketOf(key, n, w) < j
  }

  lemma {:induction false} EqualLoads(w: nat, n: nat, j: nat, load: nat)
    requires w > 0 && 1 <= n <= Pow2(w - 1) && j <= n
    requires forall v: nat :: v < j ==> |KeyHits(w, n, v)| == load
    ensures |KeysBelow(w, n, j)| == j * load
  {
    hide BucketOf, Pow2, Keys;
    if j == 0 {
      assert KeysBelow(w, n, j) == {};
    } else {
      EqualLoads(w, n, j - 1, load);
      NextBucket(w, n, j - 1);
      hide KeysBelow, KeyHits;
      Distribute(j - 1, load);
    }
  }

  lemma NextBucket(w: nat, n: nat, j: nat)
    requires w > 0 && 1 <= n <= Pow2(w - 1)
    ensures |KeysBelow(w, n, j + 1)| == |KeysBelow(w, n, j)| + |KeyHits(w, n, j)|
  {
    hide BucketOf, Pow2, Keys;
    assert KeysBelow(w, n, j + 1) == KeysBelow(w, n, j) + KeyHits(w, n, j);
    assert KeysBelow(w, n, j) !! KeyHits(w, n, j);
  }

  ghost predicate IsPowerOf2(n: nat) {
    exists k: nat :: n == Pow2(k)
  }

  lemma {:induction false} DivisorOfPower(n: nat, m: nat, e: nat)
    requires n * m == Pow2(e)
    ensures IsPowerOf2(n)
    decreases e
  {
    if e == 0 {
      UnitFactor(n, m);
      assert n == Pow2(0);
    } else if n % 2 == 0 {
      HalfFactor(n, m, Pow2(e));
      DivisorOfPower(n / 2, m, e - 1);
      var k: nat :| n / 2 == Pow2(k);
      assert n == Pow2(k + 1);
    } else {
      OddFactor(n, m, Pow2(e - 1));
      HalfFactor(m, n, Pow2(e));
      DivisorOfPower(n, m / 2, e - 1);
    }
  }

  lemma UnitFactor(n: nat, m: nat)
    requires n * m == 1
    ensures n == 1
  {
    if n > 1 && m > 0 {
      MulMonotone(1, m, n);
    }
  }

  lemma HalfFactor(n: nat, m: nat, p: nat)
    requires n % 2 == 0 && n * m == p
    ensures (n / 2) * m == p / 2 && m * (n / 2) == p / 2
  {
    var h := n / 2;
    assert n * m == 2 * (h * m);
  }

  lemma OddFactor(n: nat, m: nat, h: nat)
    requires n % 2 == 1 && n * m == 2 * h
    ensures m % 2 == 0
  {
    var x := (n / 2) * m;
    assert n * m == 2 * x + m;
  }

  /** The load is exactly equal if and only if the number of buckets is a power of two. */
  lemma BalancedExactly(w: nat, n: nat)
    requires w > 0 && 1 <= n <= Pow2(w - 1)
    ensures Balanced(w, n) <==> IsPowerOf2(n)
  {
    if Balanced(w, n) {
      BalancedDivides(w, n);
    }
    if IsPowerOf2(n) {
      var k: nat :| n == Pow2(k);
      if k >= w {
        Pow2Monotone(w, k);
      }
      hide KeyHits, Pow2;
      forall u: nat, v: nat | u < n && v < n
        ensures |KeyHits(w, n, u)| == |KeyHits(w, n, v)|
      {
        PowerOfTwoLoad(k, u, w);
        PowerOfTwoLoad(k, v, w);
      }
    }
  }

  lemma BalancedDivides(w: nat, n: nat)
    requires w > 0 && 1 <= n <= Pow2(w - 1) && Balanced(w, n)
    ensures IsPowerOf2(n)
  {
    hide KeyHits, Pow2, IsPowerOf2;
    var load := |KeyHits(w, n, 0)|;
    EqualLoads(w, n, n, load);
    AllBelow(w, n);
    KeyCount(w);
    DivisorOfPower(n, load, 4 * w);
  }

  lemma AllBelow(w: nat, n: nat)
    requires w > 0 && 1 <= n <= Pow2(w - 1)
    ensures KeysBelow(w, n, n) == Keys(w)
  {
    hide Pow2, Impl;
    forall key | key in Keys(w)
      ensures BucketOf(key, n, w) < n
    {
      InRange(key.1.0, key.1.1, key.1.2, key.0, n, w);
    }
  }

  // ---------------------------------------------------------------- the moved fraction

  ghost function Moved(w: nat, n1: nat, n2: nat): set<Key>
    requires w > 0 && 1 <= n1 <= n2 <= Pow2(w - 1)
  {
    set key | key in Keys(w) && BucketOf(key, n1, w) != BucketOf(key, n2, w)
  }

  /** When the new number of buckets is a power of two, the fraction of keys that move is exactly `(n2 - n1) / n2`. */
  lemma MovedFraction(w: nat, n1: nat, k: nat)
    requires w > 0 && k < w && 1 <= n1 <= Pow2(k)
    ensures Pow2(k) <= Pow2(w - 1)
    ensures |Moved(w, n1, Pow2(k))| * Pow2(k) == (Pow2(k) - n1) * |Keys(w)|
  {
    Pow2Monotone(k, w - 1);
    hide Pow2, Keys, BucketOf, KeyHits, KeysBelow, Moved;
    var n2, load := Pow2(k), Pow2(4 * w - k);
    forall v: nat | v < n1
      ensures |KeyHits(w, n2, v)| == load
    {
      PowerOfTwoLoad(k, v, w);
    }
    EqualLoads(w, n2, n1, load);
    MovedSize(w, n1, n2);
    KeyCount(w);
    Pow2Add(4 * w - k, k);
    hide *;
    FractionAlgebra(|Moved(w, n1, n2)|, |KeysBelow(w, n2, n1)|, n1, n2, load, |Keys(w)|);
  }

  /** The keys that stay are those below `n1` among `n2` buckets. */
  lemma MovedSize(w: nat, n1: nat, n2: nat)
    requires w > 0 && 1 <= n1 <= n2 <= Pow2(w - 1)
    ensures |Moved(w, n1, n2)| == |Keys(w)| - |KeysBelow(w, n2, n1)|
  {
    hide Pow2, Keys, BucketOf;
    forall key | key in Keys(w)
      ensures key in Moved(w, n1, n2) <==> key !in KeysBelow(w, n2, n1)
    {
      KeyMoves(key, n1, n2, w);
    }
    assert Moved(w, n1, n2) == Keys(w) - KeysBelow(w, n2, n1);
    assert KeysBelow(w, n2, n1) <= Keys(w);
  }

  lemma KeyMoves(key: Key, n1: nat, n2: nat, w: nat)
    requires w > 0 && 1 <= n1 <= n2 <= Pow2(w - 1)
    ensures BucketOf(key, n1, w) == BucketOf(key, n2, w) <==> BucketOf(key, n2, w) < n1
  {
    hide Impl, Pow2;
    MinimalMovement(key.1.0, key.1.1, key.1.2, key.0, n1, n2, w);
  }

  lemma FractionAlgebra(moved: nat, below: nat, n1: nat, n2: nat, load: nat, all: nat)
    requires all == load * n2 && below == n1 * load && moved == all - below
    ensures moved * n2 == (n2 - n1) * all
  {
    assert moved == (n2 - n1) * load;
    MulAssociative(n2 - n1, load, n2);
  }
}
