/** Consistent hashing: a key of four words is mapped to one of n buckets. */
module ConsistentHashing {
  import opened Arith

  // ---------------------------------------------------------------- bit counting

  /** The number of binary digits. */
  function BitCount(value: nat): nat {
    if value == 0 then 0 else 1 + BitCount(value / 2)
  }

  function PopCount(value: nat): nat {
    if value == 0 then 0 else value % 2 + PopCount(value / 2)
  }

  lemma {:induction false} BitCountBounds(value: nat)
    requires value > 0
    ensures BitCount(value) > 0 && Pow2(BitCount(value) - 1) <= value < Pow2(BitCount(value))
  {
    if value > 1 {
      BitCountBounds(value / 2);
    }
  }

  lemma BitCountUnique(value: nat, y: nat)
    requires Pow2(y) <= value < Pow2(y + 1)
    ensures value > 0 && BitCount(value) == y + 1
  {
    BitCountBounds(value);
    if BitCount(value) <= y {
      Pow2Monotone(BitCount(value), y);
    } else if BitCount(value) > y + 1 {
      Pow2Monotone(y + 1, BitCount(value) - 1);
    }
  }

  // ---------------------------------------------------------------- the scheme

  /** `(TValue)1 << k` for words of `w` bits. */
  function PowerOf2(k: nat, w: nat): nat {
    Pow2(k) % Pow2(w)
  }

  function SelectAOrBBlock(a: nat, b: nat, cBlock: nat): nat {
    if PopCount(cBlock) % 2 == 0 then a else b
  }

  lemma {:induction false} AndAtMost(x: nat, y: nat)
    ensures And(x, y) <= y
  {
    if x > 0 {
      AndAtMost(x / 2, y / 2);
    }
  }

  /** The highest bit of a value within a mask of the word is a bit of the word. */
  lemma HighBitFits(c: nat, mask: nat, w: nat)
    requires mask < Pow2(w) && And(c, mask) > 0
    ensures 0 < BitCount(And(c, mask)) <= w
    ensures PowerOf2(BitCount(And(c, mask)) - 1, w) == Pow2(BitCount(And(c, mask)) - 1)
  {
    var cBlock := And(c, mask);
    AndAtMost(c, mask);
    BitCountBounds(cBlock);
    if BitCount(cBlock) > w {
      Pow2Monotone(w, BitCount(cBlock) - 1);
    }
    PowerFits(BitCount(cBlock) - 1, w);
  }

  /** The bucket for `k2 == 2^k` buckets. */
  function ForPowersOf2(a: nat, b: nat, c: nat, k2: nat, w: nat): nat
    requires 0 < k2 <= Pow2(w)
  {
    var cBlock := And(c, k2 - 1);
    if cBlock < 2 then cBlock
    else
      HighBitFits(c, k2 - 1, w);
      var y := BitCount(cBlock) - 1;
      var y2 := PowerOf2(y, w);
      y2 + And(SelectAOrBBlock(a, b, cBlock), y2 - 1)
  }

  /** `res <<= shift; res |= low` on 64 bits. */
  function ShiftIn(res: nat, shift: nat, low: nat): nat {
    Or((res * Pow2(shift)) % Pow2(64), low)
  }

  /** `(d << shift) | low`: 16-bit words are shifted as 32-bit ones. */
  function ShiftD(d: nat, shift: nat, low: nat): nat {
    Or((d * Pow2(shift)) % Pow2(32), low)
  }

  /** What is above the power of two `p`: `x >> k`. */
  function High(x: nat, p: nat): nat
    requires p > 0
  {
    x / p
  }

  /** The bits the bit-determined scheme leaves over. */
  function GetAsteriskBits(a: nat, b: nat, c: nat, d: nat, k: nat, w: nat): nat
    requires 1 <= k < w
  {
    var shift := w - k;
    var res := ShiftD(d, shift, High(c, Pow2(k)));
    ShiftIn(ShiftIn(res, shift + 1, High(b, Pow2(k - 1))), shift + 1, High(a, Pow2(k - 1)))
  }

  datatype Outcome = ZeroBuckets | Bucket(index: nat)

  /** The bucket above `2^(k-1)` that the left-over bits choose. */
  function SmoothValue(bits: nat, largeValue: nat, k2: nat, k21: nat): nat
    requires largeValue > 0 && k2 > 0
  {
    NonZeroProduct(largeValue);
    (bits % (largeValue * (largeValue + 1))) / k2 + k21
  }

  lemma NonZeroProduct(v: nat)
    requires v > 0
    ensures v * (v + 1) > 0
  {
  }

  function Impl(a: nat, b: nat, c: nat, d: nat, n: nat, w: nat): Outcome
    requires w > 0 && n <= Pow2(w - 1)
  {
    if n <= 0 then ZeroBuckets
    else if n == 1 then Bucket(0)
    else
      var k := BitCount(n - 1);
      SizeFits(n, w);
      var k2 := PowerOf2(k, w);
      var largeValue := ForPowersOf2(a, b, c, k2, w);
      if largeValue < n then Bucket(largeValue)
      else
        var k21 := PowerOf2(k - 1, w);
        var largeValue2 := SmoothValue(GetAsteriskBits(a, b, c, d, k, w), largeValue, k2, k21);
        if largeValue2 < n then Bucket(largeValue2)
        else Bucket(ForPowersOf2(a, b, c, k21, w))
  }

  lemma PowerFits(k: nat, w: nat)
    requires k < w
    ensures PowerOf2(k, w) == Pow2(k)
  {
    Pow2Monotone(k + 1, w);
    ModSmall(Pow2(k), Pow2(w));
  }

  /** `2^(k-1) < n <= 2^k` and both powers are representable. */
  lemma SizeFits(n: nat, w: nat)
    requires 2 <= n && w > 0 && n <= Pow2(w - 1)
    ensures 1 <= BitCount(n - 1) < w
    ensures PowerOf2(BitCount(n - 1), w) == Pow2(BitCount(n - 1))
    ensures PowerOf2(BitCount(n - 1) - 1, w) == Pow2(BitCount(n - 1) - 1)
    ensures Pow2(BitCount(n - 1) - 1) < n <= Pow2(BitCount(n - 1)) <= Pow2(w)
  {
    var k := BitCount(n - 1);
    BitCountBounds(n - 1);
    if k >= w {
      Pow2Monotone(w - 1, k - 1);
    }
    PowerFits(k, w);
    PowerFits(k - 1, w);
    Pow2Monotone(k, w);
  }

  // ---------------------------------------------------------------- shape of the bit-determined scheme

  /** The low bits of `x`, below the power of two `p`. */
  function Low(x: nat, p: nat): (r: nat)
    requires p > 0
    ensures r < p
  {
    x % p
  }

  lemma LowIsAnd(x: nat, k: nat)
    ensures And(x, Pow2(k) - 1) == Low(x, Pow2(k))
  {
    AndMask(x, k);
  }

  /** The block of `c` alone fixes the highest bit of the bucket; `a` or `b` gives the bits below it. */
  lemma LargeShape(a: nat, b: nat, c: nat, k: nat, w: nat, cBlock: nat)
    requires k <= w && cBlock == Low(c, Pow2(k))
    ensures Pow2(k) <= Pow2(w)
    ensures cBlock == 0 ==> ForPowersOf2(a, b, c, Pow2(k), w) == 0
    ensures cBlock > 0 ==>
      ForPowersOf2(a, b, c, Pow2(k), w) == TopBit(cBlock) + Low(SelectAOrBBlock(a, b, cBlock), TopBit(cBlock))
  {
    hide Pow2, And, BitCount, PopCount, PowerOf2, Low, SelectAOrBBlock, TopBit;
    Pow2Monotone(k, w);
    LowIsAnd(c, k);
    if cBlock == 1 {
      TopBitOfOne();
    } else if cBlock >= 2 {
      LongBlock(a, b, c, Pow2(k), w, cBlock);
    }
  }

  lemma LongBlock(a: nat, b: nat, c: nat, k2: nat, w: nat, cBlock: nat)
    requires 0 < k2 <= Pow2(w) && cBlock == And(c, k2 - 1) >= 2
    ensures ForPowersOf2(a, b, c, k2, w) == TopBit(cBlock) + Low(SelectAOrBBlock(a, b, cBlock), TopBit(cBlock))
  {
    hide Pow2, And, BitCount, PopCount, PowerOf2, Low, SelectAOrBBlock;
    HighBitFits(c, k2 - 1, w);
    LowIsAnd(SelectAOrBBlock(a, b, cBlock), BitCount(cBlock) - 1);
  }

  /** The highest power of two in `v`. */
  function TopBit(v: nat): (p: nat)
    requires v > 0
    ensures p > 0
  {
    BitCountBounds(v);
    Pow2(BitCount(v) - 1)
  }

  lemma TopBitOfOne()
    ensures TopBit(1) == 1
  {
    assert BitCount(1) == 1 by {
      assert BitCount(0) == 0;
    }
  }

  lemma TopBitBounds(v: nat, k: nat)
    requires 0 < v
    ensures TopBit(v) <= v < 2 * TopBit(v)
    ensures v < Pow2(k) ==> 2 * TopBit(v) <= Pow2(k)
  {
    BitCountBounds(v);
    var y := BitCount(v) - 1;
    if v < Pow2(k) {
      if k <= y {
        Pow2Monotone(k, y);
      }
      Pow2Monotone(y + 1, k);
    }
  }

  /** The bucket lies between the same powers of two as the block of `c`. */
  lemma LargeBounds(a: nat, b: nat, c: nat, k: nat, w: nat, j: nat)
    requires k <= w
    ensures Pow2(k) <= Pow2(w) && ForPowersOf2(a, b, c, Pow2(k), w) < Pow2(k)
    ensures ForPowersOf2(a, b, c, Pow2(k), w) < Pow2(j) <==> Low(c, Pow2(k)) < Pow2(j)
  {
    hide Pow2, ForPowersOf2, TopBit, SelectAOrBBlock, Low;
    var cBlock := Low(c, Pow2(k));
    LargeShape(a, b, c, k, w, cBlock);
    if cBlock > 0 {
      var r := ForPowersOf2(a, b, c, Pow2(k), w);
      TopBitBounds(cBlock, k);
      TopBitBounds(cBlock, j);
      TopBitBounds(r, j);
      SameTopBit(cBlock, r);
    }
  }

  lemma SameTopBit(v: nat, r: nat)
    requires v > 0 && TopBit(v) <= r < 2 * TopBit(v)
    ensures TopBit(r) == TopBit(v)
  {
    var y := BitCount(v) - 1;
    BitCountBounds(v);
    BitCountUnique(r, y);
  }

  /** Halving the number of buckets keeps every bucket below the half. */
  lemma HalvedScheme(a: nat, b: nat, c: nat, k: nat, w: nat)
    requires 1 <= k <= w
    ensures Pow2(k - 1) <= Pow2(k) <= Pow2(w)
    ensures ForPowersOf2(a, b, c, Pow2(k), w) < Pow2(k - 1)
      ==> ForPowersOf2(a, b, c, Pow2(k - 1), w) == ForPowersOf2(a, b, c, Pow2(k), w)
  {
    assert Pow2(k) == 2 * Pow2(k - 1);
    hide Pow2, ForPowersOf2, TopBit, SelectAOrBBlock, Low;
    Pow2Monotone(k, w);
    LargeShape(a, b, c, k, w, Low(c, Pow2(k)));
    LargeShape(a, b, c, k - 1, w, Low(c, Pow2(k - 1)));
    LargeBounds(a, b, c, k, w, k - 1);
    if ForPowersOf2(a, b, c, Pow2(k), w) < Pow2(k - 1) {
      LowHalf(c, Pow2(k - 1));
    }
  }

  lemma LowHalf(c: nat, h: nat)
    requires h > 0 && Low(c, 2 * h) < h
    ensures Low(c, h) == Low(c, 2 * h)
  {
    var q, r := DivIdentity(c, 2 * h);
    assert c == (2 * q) * h + r;
    DivModUnique(c, h, 2 * q, r);
  }

  // ---------------------------------------------------------------- minimal movement

  /** What `Impl` computes once the number of bits and the value of the large scheme are named. */
  lemma ImplCases(a: nat, b: nat, c: nat, d: nat, n: nat, w: nat, k: nat, large: nat)
    requires w > 0 && 2 <= n <= Pow2(w - 1) && k == BitCount(n - 1)
    requires 1 <= k < w && Pow2(k - 1) < n <= Pow2(k) <= Pow2(w) && large == ForPowersOf2(a, b, c, Pow2(k), w)
    ensures large < n ==> Impl(a, b, c, d, n, w) == Bucket(large)
    ensures large >= n ==>
      Impl(a, b, c, d, n, w) == Bucket(if Smooth(a, b, c, d, k, w, large) < n then Smooth(a, b, c, d, k, w, large)
                                       else ForPowersOf2(a, b, c, Pow2(k - 1), w))
  {
    SizeFits(n, w);
    hide Pow2, ForPowersOf2, BitCount, PowerOf2, GetAsteriskBits, SmoothValue;
  }

  function Smooth(a: nat, b: nat, c: nat, d: nat, k: nat, w: nat, large: nat): nat
    requires 1 <= k < w && large > 0
  {
    SmoothValue(GetAsteriskBits(a, b, c, d, k, w), large, Pow2(k), Pow2(k - 1))
  }

  lemma SmoothAbove(a: nat, b: nat, c: nat, d: nat, k: nat, w: nat, large: nat)
    requires 1 <= k < w && large > 0
    ensures Smooth(a, b, c, d, k, w, large) >= Pow2(k - 1)
  {
    hide Pow2, GetAsteriskBits, SmoothValue;
    SmoothValueAbove(GetAsteriskBits(a, b, c, d, k, w), large, Pow2(k), Pow2(k - 1));
  }

  lemma SmoothValueAbove(bits: nat, largeValue: nat, k2: nat, k21: nat)
    requires largeValue > 0 && k2 > 0
    ensures SmoothValue(bits, largeValue, k2, k21) >= k21
  {
  }

  /** Every key gets a bucket below `n`; only asking for no buckets at all is an error. */
  lemma InRange(a: nat, b: nat, c: nat, d: nat, n: nat, w: nat)
    requires w > 0 && n <= Pow2(w - 1)
    ensures Impl(a, b, c, d, n, w).ZeroBuckets? <==> n == 0
    ensures n > 0 ==> Impl(a, b, c, d, n, w).index < n
  {
    if n >= 2 {
      var k := BitCount(n - 1);
      SizeFits(n, w);
      hide Pow2, ForPowersOf2, BitCount, PowerOf2, Smooth, Impl;
      LargeBounds(a, b, c, k - 1, w, 0);
      ImplCases(a, b, c, d, n, w, k, ForPowersOf2(a, b, c, Pow2(k), w));
    }
  }

  /** One more bucket: a key stays where it is or moves to the new bucket. */
  lemma OneMoreBucket(a: nat, b: nat, c: nat, d: nat, n: nat, w: nat)
    requires w > 0 && 1 <= n < Pow2(w - 1)
    ensures Impl(a, b, c, d, n + 1, w) == Impl(a, b, c, d, n, w) || Impl(a, b, c, d, n + 1, w) == Bucket(n)
  {
    hide *;
    InRange(a, b, c, d, n + 1, w);
    if n == 1 {
      InRange(a, b, c, d, n, w);
    } else {
      var k := BitCount(n - 1);
      SizeFits(n, w);
      SizeFits(n + 1, w);
      if n < Pow2(k) {
        SameSize(n, k);
        WithinSize(a, b, c, d, n, w, k, ForPowersOf2(a, b, c, Pow2(k), w));
      } else {
        NextSize(k);
        AcrossSize(a, b, c, d, n, w, k, ForPowersOf2(a, b, c, Pow2(k), w), ForPowersOf2(a, b, c, Pow2(k + 1), w));
      }
    }
  }

  lemma WithinSize(a: nat, b: nat, c: nat, d: nat, n: nat, w: nat, k: nat, large: nat)
    requires w > 0 && 2 <= n < Pow2(w - 1) && k == BitCount(n - 1) == BitCount(n)
    requires 1 <= k < w && Pow2(k - 1) < n < Pow2(k) <= Pow2(w) && large == ForPowersOf2(a, b, c, Pow2(k), w)
    ensures Impl(a, b, c, d, n + 1, w) == Impl(a, b, c, d, n, w) || Impl(a, b, c, d, n + 1, w) == Bucket(n)
  {
    hide Pow2, ForPowersOf2, BitCount, Smooth, Impl;
    ImplCases(a, b, c, d, n, w, k, large);
    ImplCases(a, b, c, d, n + 1, w, k, large);
  }

  lemma AcrossSize(a: nat, b: nat, c: nat, d: nat, n: nat, w: nat, k: nat, large: nat, larger: nat)
    requires w > 0 && 2 <= n < Pow2(w - 1) && k == BitCount(n - 1) && k + 1 == BitCount(n) < w
    requires 1 <= k && Pow2(k - 1) < n == Pow2(k) < Pow2(k + 1) <= Pow2(w)
    requires large == ForPowersOf2(a, b, c, Pow2(k), w) && larger == ForPowersOf2(a, b, c, Pow2(k + 1), w)
    ensures Impl(a, b, c, d, n + 1, w) == Impl(a, b, c, d, n, w) || Impl(a, b, c, d, n + 1, w) == Bucket(n)
  {
    hide Pow2, ForPowersOf2, BitCount, Smooth, Impl;
    LargeBounds(a, b, c, k, w, 0);
    ImplCases(a, b, c, d, n, w, k, large);
    ImplCases(a, b, c, d, n + 1, w, k + 1, larger);
    HalvedScheme(a, b, c, k + 1, w);
    if larger > n {
      SmoothAbove(a, b, c, d, k + 1, w, larger);
    }
  }

  lemma SameSize(n: nat, k: nat)
    requires k >= 1 && Pow2(k - 1) < n < Pow2(k)
    ensures BitCount(n) == k
  {
    BitCountUnique(n, k - 1);
  }

  lemma NextSize(k: nat)
    ensures BitCount(Pow2(k)) == k + 1
  {
    BitCountUnique(Pow2(k), k);
  }

  /** Growing from `n1` to `n2` buckets moves exactly the keys that land in one of the new buckets. */
  lemma {:induction false} MinimalMovement(a: nat, b: nat, c: nat, d: nat, n1: nat, n2: nat, w: nat)
    requires w > 0 && 1 <= n1 <= n2 <= Pow2(w - 1)
    ensures Impl(a, b, c, d, n1, w).Bucket? && Impl(a, b, c, d, n2, w).Bucket?
    ensures Impl(a, b, c, d, n1, w) == Impl(a, b, c, d, n2, w) <==> Impl(a, b, c, d, n2, w).index < n1
    decreases n2
  {
    hide Impl, Pow2;
    InRange(a, b, c, d, n1, w);
    InRange(a, b, c, d, n2, w);
    if n1 < n2 {
      MinimalMovement(a, b, c, d, n1, n2 - 1, w);
      OneMoreBucket(a, b, c, d, n2 - 1, w);
    }
  }

  // ---------------------------------------------------------------- the left-over bits

  /** Shifting within `m` bits and or-ing fewer bits than were shifted in: concatenation modulo 2^m. */
  lemma ShiftOr(x: nat, y: nat, e: nat, m: nat)
    requires e <= m && y < Pow2(e)
    ensures Or((x * Pow2(e)) % Pow2(m), y) == (x * Pow2(e)) % Pow2(m) + y == (x * Pow2(e) + y) % Pow2(m)
  {
    hide Pow2, Or;
    var p, h := Pow2(e), Pow2(m - e);
    Pow2Add(m - e, e);
    var q, r := DivIdentity(x, h);
    ShiftedParts(x, y, p, h, q, r);
    OrDisjoint(r, y, e);
  }

  lemma ShiftedParts(x: nat, y: nat, p: nat, h: nat, q: int, r: int)
    requires p > 0 && h > 0 && y < p && x == q * h + r && 0 <= r < h
    ensures h * p > 0 && (x * p) % (h * p) == r * p && (x * p + y) % (h * p) == r * p + y
  {
    MulMonotone(1, h, p);
    MulMonotone(r + 1, h, p);
    MulAssociative(q, h, p);
    assert x * p == q * (h * p) + r * p;
    DivModUnique(x * p, h * p, q, r * p);
    DivModUnique(x * p + y, h * p, q, r * p + y);
  }

  /** The unused bits of the four words side by side: of `d` what 32 bits leave room for, then the high bits of `c`,
      `b` and `a`, reduced to 64 bits. */
  function SideBySide(d: nat, highC: nat, highB: nat, highA: nat, k: nat, w: nat): nat
    requires 1 <= k < w
  {
    Join(Join((d * Pow2(w - k)) % Pow2(32) + highC, highB, Pow2(w - k + 1)), highA, Pow2(w - k + 1)) % Pow2(64)
  }

  lemma AsteriskBits(a: nat, b: nat, c: nat, d: nat, k: nat, w: nat, highC: nat, highB: nat, highA: nat)
    requires (w == 16 || w == 32) && 1 <= k < w
    requires highC == High(c, Pow2(k)) < Pow2(w - k)
    requires highB == High(b, Pow2(k - 1)) < Pow2(w - k + 1) && highA == High(a, Pow2(k - 1)) < Pow2(w - k + 1)
    ensures GetAsteriskBits(a, b, c, d, k, w) == SideBySide(d, highC, highB, highA, k, w)
  {
    hide *;
    var e := w - k + 1;
    var res := ShiftD(d, w - k, highC);
    AsteriskSteps(a, b, c, d, k, w, highC, highB, highA);
    ShiftedD(d, highC, w - k);
    ShiftedIn(res, highB, e);
    ShiftedIn(Reduce(Join(res, highB, Pow2(e))), highA, e);
    JoinReduced(Join(res, highB, Pow2(e)), highA, e);
    SideBySideIs(d, highC, highB, highA, k, w);
  }

  function Reduce(x: nat): nat {
    x % Pow2(64)
  }

  lemma AsteriskSteps(a: nat, b: nat, c: nat, d: nat, k: nat, w: nat, highC: nat, highB: nat, highA: nat)
    requires 1 <= k < w
    requires highC == High(c, Pow2(k)) && highB == High(b, Pow2(k - 1)) && highA == High(a, Pow2(k - 1))
    ensures GetAsteriskBits(a, b, c, d, k, w) == ShiftIn(ShiftIn(ShiftD(d, w - k, highC), w - k + 1, highB), w - k + 1, highA)
  {
  }

  lemma SideBySideIs(d: nat, highC: nat, highB: nat, highA: nat, k: nat, w: nat)
    requires 1 <= k < w
    ensures SideBySide(d, highC, highB, highA, k, w)
      == Reduce(Join(Join((d * Pow2(w - k)) % Pow2(32) + highC, highB, Pow2(w - k + 1)), highA, Pow2(w - k + 1)))
  {
  }

  lemma ShiftedD(d: nat, low: nat, s: nat)
    requires s <= 32 && low < Pow2(s)
    ensures ShiftD(d, s, low) == (d * Pow2(s)) % Pow2(32) + low
  {
    hide Pow2, Or;
    ShiftOr(d, low, s, 32);
  }

  lemma ShiftedIn(res: nat, low: nat, e: nat)
    requires e <= 64 && low < Pow2(e)
    ensures ShiftIn(res, e, low) == Reduce(Join(res, low, Pow2(e)))
  {
    hide Pow2, Or;
    ShiftOr(res, low, e, 64);
  }

  /** `high` followed by the digit `low` to base `p`. */
  function Join(high: nat, low: nat, p: nat): nat {
    high * p + low
  }

  lemma JoinReduced(high: nat, low: nat, e: nat)
    ensures Reduce(Join(Reduce(high), low, Pow2(e))) == Reduce(Join(high, low, Pow2(e)))
  {
    hide Pow2;
    var m, p := Pow2(64), Pow2(e);
    var q, r := DivIdentity(high, m);
    assert high * p + low == (r * p + low) + (q * p) * m by {
      assert (q * m) * p == (q * p) * m;
    }
    SameResidue(high * p + low, r * p + low, q * p, m);
  }

  // ---------------------------------------------------------------- the two entry points

  /** A 64-bit key as four 16-bit words. */
  function Hash64(x: nat, n: nat): Outcome
    requires n <= 32768
  {
    Pow2Words();
    var lo, hi := x % 0x1_0000_0000, (x / 0x1_0000_0000) % 0x1_0000_0000;
    Impl(lo % 0x1_0000, lo / 0x1_0000, hi % 0x1_0000, hi / 0x1_0000, n, 16)
  }

  /** Two 64-bit keys as four 32-bit words. */
  function Hash128(lo: nat, hi: nat, n: nat): Outcome
    requires n <= 0x8000_0000
  {
    Pow2Words();
    Impl(lo % 0x1_0000_0000, lo / 0x1_0000_0000, hi % 0x1_0000_0000, hi / 0x1_0000_0000, n, 32)
  }

  /** Range and minimal movement over the whole promised range of `n`. */
  lemma Hash64Promises(x: nat, n1: nat, n2: nat)
    requires 1 <= n1 <= n2 <= 32768
    ensures Hash64(x, n2).Bucket? && Hash64(x, n2).index < n2
    ensures Hash64(x, n1) == Hash64(x, n2) <==> Hash64(x, n2).index < n1
  {
    Pow2Words();
    assert Pow2(16) == 2 * Pow2(15);
    hide Impl, Pow2;
    var l, h := x % 0x1_0000_0000, (x / 0x1_0000_0000) % 0x1_0000_0000;
    InRange(l % 0x1_0000, l / 0x1_0000, h % 0x1_0000, h / 0x1_0000, n2, 16);
    MinimalMovement(l % 0x1_0000, l / 0x1_0000, h % 0x1_0000, h / 0x1_0000, n1, n2, 16);
  }

  lemma Hash128Promises(lo: nat, hi: nat, n1: nat, n2: nat)
    requires 1 <= n1 <= n2 <= 0x8000_0000
    ensures Hash128(lo, hi, n2).Bucket? && Hash128(lo, hi, n2).index < n2
    ensures Hash128(lo, hi, n1) == Hash128(lo, hi, n2) <==> Hash128(lo, hi, n2).index < n1
  {
    Pow2Words();
    assert Pow2(32) == 2 * Pow2(31);
    hide Impl, Pow2;
    InRange(lo % 0x1_0000_0000, lo / 0x1_0000_0000, hi % 0x1_0000_0000, hi / 0x1_0000_0000, n2, 32);
    MinimalMovement(lo % 0x1_0000_0000, lo / 0x1_0000_0000, hi % 0x1_0000_0000, hi / 0x1_0000_0000, n1, n2, 32);
  }
}
