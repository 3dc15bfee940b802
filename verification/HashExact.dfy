/** The exact load of every bucket for every number of buckets, and the exact number of keys that move. */
module HashExact {
  import opened Arith
  import opened Counting
  import opened ConsistentHashing
  import opened HashBalance
  import opened HashParts
  import opened HashLoads

  // ---------------------------------------------------------------- the upper buckets

  /** How many of `2^b` left-over values the smooth step sends from the large value `m` to bucket `v`: the whole
      periods of `m * (m + 1)` and the part of the last one that reaches the window of `v`. */
  function FromOne(b: nat, m: nat, half: nat, v: nat): nat
    requires 0 < m && 0 < half <= v
  {
    NonZeroProduct(m);
    High(Pow2(b), m * (m + 1)) * (2 * half)
    + Covered(Low(Pow2(b), m * (m + 1)), (v - half) * (2 * half), (v - half + 1) * (2 * half))
  }

  /** From all large values from `m` on. */
  function FromAll(b: nat, m: nat, half: nat, v: nat): nat
    requires 0 < half <= m <= 2 * half && half <= v
    decreases 2 * half - m
  {
    if m == 2 * half then 0 else FromOne(b, m, half, v) + FromAll(b, m + 1, half, v)
  }

  lemma SmoothCount(b: nat, m: nat, half: nat, v: nat)
    requires half <= v < m < 2 * half
    ensures |SmoothTo(b, m, half, v)| == FromOne(b, m, half, v)
  {
    hide Pow2, High, Low, Covered, SmoothTo, Window;
    SmoothIsWindow(b, m, half, v);
    WindowFits(m, half, v);
    var lo, hi := (v - half) * (2 * half), (v - half + 1) * (2 * half);
    assert hi - lo == 2 * half;
    WindowSize(Pow2(b), m * (m + 1), lo, hi);
  }

  lemma FromAllStep(b: nat, m: nat, half: nat, v: nat, g: nat)
    requires 0 < half <= m < 2 * half && half <= v
    ensures g * FromAll(b, m, half, v) == g * FromAll(b, m + 1, half, v) + g * FromOne(b, m, half, v)
  {
    hide FromOne;
    assert FromAll(b, m, half, v) == FromAll(b, m + 1, half, v) + FromOne(b, m, half, v);
  }

  lemma {:induction false} SmoothPartsSize(k: nat, m: nat, half: nat, v: nat, w: nat)
    requires (w == 16 || w == 32) && 1 <= k < w && half == Pow2(k - 1) <= Pow2(w) && 0 < half <= v < m <= 2 * half
    ensures |SmoothParts(k, m, v, w)| == Share(k, w) * FromAll(LeftOverBits(k, w), m, half, v)
    decreases 2 * half - m
  {
    if m == 2 * half {
      hide SmoothParts, Share, Pow2;
      NoParts(0, k, v, w);
    } else {
      hide *;
      SmoothPartsSize(k, m + 1, half, v, w);
      SmoothStep(k, m, half, v, w);
      SmoothCount(LeftOverBits(k, w), m, half, v);
      FromAllStep(LeftOverBits(k, w), m, half, v, Share(k, w));
    }
  }

  /** Bucket `v` keeps what it holds among `2^k` buckets and gets its windows of every missing bucket. */
  function UpperShare(n: nat, k: nat, v: nat, w: nat): nat
    requires Sized(n, k, w) && Pow2(k - 1) <= v < n
  {
    Gathered(Pow2(4 * w - k), Share(k, w), FromAll(LeftOverBits(k, w), n, Pow2(k - 1), v))
  }

  function Gathered(own: nat, share: nat, windows: nat): nat {
    own + share * windows
  }

  lemma UpperLoadExact(n: nat, k: nat, v: nat, w: nat)
    requires Sized(n, k, w) && Pow2(k - 1) <= v < n
    ensures 2 <= n <= Pow2(w - 1) && |KeyHits(w, n, v)| == UpperShare(n, k, v, w)
  {
    hide Pow2, Sized, KeyHits, SmoothHits, SmoothParts, Share, FromAll, LeftOverBits;
    SizedBounds(n, k, w);
    UpperLoad(n, k, v, w);
    SmoothInParts(n, k, v, w);
    SmoothPartsSize(k, n, Pow2(k - 1), v, w);
  }

  // ---------------------------------------------------------------- the lower buckets

  /** The loads of the buckets from `j` on together. */
  function LoadsFrom(n: nat, k: nat, j: nat, w: nat): nat
    requires Sized(n, k, w) && Pow2(k - 1) <= j <= n
    decreases n - j
  {
    if j == n then 0 else UpperShare(n, k, j, w) + LoadsFrom(n, k, j + 1, w)
  }

  lemma {:induction false} BelowAndFrom(n: nat, k: nat, j: nat, w: nat)
    requires Sized(n, k, w) && Pow2(k - 1) <= j <= n <= Pow2(w - 1)
    ensures |KeysBelow(w, n, j)| + LoadsFrom(n, k, j, w) == Pow2(4 * w)
    decreases n - j
  {
    hide Pow2, KeyHits, KeysBelow, UpperShare, Keys;
    if j == n {
      AllBelow(w, n);
      KeyCount(w);
    } else {
      BelowAndFrom(n, k, j + 1, w);
      NextBucket(w, n, j);
      UpperLoadExact(n, k, j, w);
    }
  }

  lemma LowerBelow(n: nat, k: nat, j: nat, v: nat, w: nat)
    requires Sized(n, k, w) && j <= Pow2(k - 1) && v < Pow2(k - 1)
    ensures 2 <= n <= Pow2(w - 1) && j <= n && |KeysBelow(w, n, j)| == j * |KeyHits(w, n, v)|
  {
    hide Pow2, KeyHits, KeysBelow, Sized;
    SizedBounds(n, k, w);
    forall u: nat | u < j
      ensures |KeyHits(w, n, u)| == |KeyHits(w, n, v)|
    {
      LowerBucketsEqual(n, k, u, v, w);
    }
    EqualLoads(w, n, j, |KeyHits(w, n, v)|);
  }

  /** The lower buckets share evenly what the upper ones leave. */
  lemma LowerLoadExact(n: nat, k: nat, v: nat, w: nat)
    requires Sized(n, k, w) && v < Pow2(k - 1)
    ensures 2 <= n <= Pow2(w - 1) && Pow2(k - 1) <= n
    ensures Pow2(k - 1) * |KeyHits(w, n, v)| + LoadsFrom(n, k, Pow2(k - 1), w) == Pow2(4 * w)
  {
    hide Pow2, KeyHits, KeysBelow, LoadsFrom, Sized;
    SizedBounds(n, k, w);
    LowerBelow(n, k, Pow2(k - 1), v, w);
    BelowAndFrom(n, k, Pow2(k - 1), w);
  }

  // ---------------------------------------------------------------- what moves

  /** How many keys move, for any two numbers of buckets: the loads of the new buckets together. */
  lemma MovedCount(n1: nat, n2: nat, k: nat, w: nat)
    requires Sized(n2, k, w) && 1 <= n1 <= n2
    ensures 2 <= n2 <= Pow2(w - 1) && Pow2(k - 1) <= n2
    ensures n1 >= Pow2(k - 1) ==> |Moved(w, n1, n2)| == LoadsFrom(n2, k, n1, w)
    ensures n1 <= Pow2(k - 1) ==>
      Pow2(k - 1) * |Moved(w, n1, n2)| == Pow2(k - 1) * Pow2(4 * w) - n1 * (Pow2(4 * w) - LoadsFrom(n2, k, Pow2(k - 1), w))
  {
    hide Pow2, KeyHits, KeysBelow, LoadsFrom, Moved, Keys, Sized;
    SizedBounds(n2, k, w);
    MovedSize(w, n1, n2);
    KeyCount(w);
    if n1 >= Pow2(k - 1) {
      BelowAndFrom(n2, k, n1, w);
    }
    if n1 <= Pow2(k - 1) {
      LowerBelow(n2, k, n1, 0, w);
      LowerLoadExact(n2, k, 0, w);
      SharedOut(Pow2(k - 1), n1, |KeyHits(w, n2, 0)|, Pow2(4 * w));
    }
  }

  lemma SharedOut(half: int, n1: int, load: int, all: int)
    ensures half * (all - n1 * load) == half * all - n1 * (half * load)
  {
    assert half * (n1 * load) == n1 * (half * load);
  }

  /** An odd divisor of `x * 2^j` divides `x`. */
  lemma {:induction false} OddDivides(odd: nat, q: int, x: int, j: nat) returns (r: int)
    requires odd % 2 == 1 && odd * q == x * Pow2(j)
    ensures odd * r == x
    decreases j
  {
    if j == 0 {
      r := q;
    } else {
      MulAssociative(x, 2, Pow2(j - 1));
      EvenCofactor(odd, q, x * Pow2(j - 1));
      r := OddDivides(odd, q / 2, x, j - 1);
    }
  }

  lemma EvenCofactor(odd: int, q: int, y: int)
    requires odd % 2 == 1 && odd * q == 2 * y
    ensures odd * (q / 2) == y
  {
    OddTimes(odd, odd / 2, q);
    assert q == 2 * (q / 2);
    TwiceOut(odd, q / 2);
  }

  lemma OddTimes(odd: int, h: int, q: int)
    requires odd == 2 * h + 1
    ensures odd * q == 2 * (h * q) + q
  {
  }

  lemma TwiceOut(odd: int, c: int)
    ensures odd * (2 * c) == 2 * (odd * c)
  {
  }

  /** Between any two numbers of buckets: the promised fraction can move exactly only if the odd part of the new
      number divides the old one. */
  lemma MovedOddPart(n1: nat, n2: nat, odd: nat, e: nat, w: nat)
    requires w > 0 && 1 <= n1 <= n2 <= Pow2(w - 1) && odd % 2 == 1 && n2 == odd * Pow2(e)
    requires |Moved(w, n1, n2)| * n2 == (n2 - n1) * |Keys(w)|
    ensures n1 % odd == 0
  {
    hide Pow2, Moved, Keys;
    KeyCount(w);
    var moved := |Moved(w, n1, n2)|;
    OddProduct(odd, Pow2(e), moved);
    var r := OddDivides(odd, Pow2(e) * moved, n2 - n1, 4 * w);
    OddRest(n1, odd, Pow2(e), r);
  }

  lemma OddProduct(odd: int, p: int, moved: int)
    ensures odd * (p * moved) == moved * (odd * p)
  {
  }

  lemma OddRest(n1: nat, odd: nat, p: int, r: int)
    requires odd > 0 && odd * r == odd * p - n1
    ensures n1 % odd == 0
  {
    assert n1 == (p - r) * odd;
    DivModUnique(n1, odd, p - r, 0);
  }
}
