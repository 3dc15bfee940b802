/** The hash at powers of two bit by bit, from the definition of single bits, and the layout of the keys. */
module HashBits {
  import opened Arith
  import opened Counting
  import opened ConsistentHashing
  import opened HashBalance

  // ---------------------------------------------------------------- bits of parts

  lemma {:induction false} MaskBit(k: nat, i: nat)
    ensures Bit(Pow2(k) - 1, i) == (i < k)
    decreases k
  {
    hide Pow2, Bit;
    if k <= i {
      NoHighBit(Pow2(k) - 1, k, i);
    } else {
      MaskHalf(k);
      if i == 0 {
        LowestBit(Pow2(k) - 1);
      } else {
        BitOfHalf(Pow2(k) - 1, i);
        MaskBit(k - 1, i - 1);
      }
    }
  }

  lemma MaskHalf(k: nat)
    requires k > 0
    ensures (Pow2(k) - 1) / 2 == Pow2(k - 1) - 1 && (Pow2(k) - 1) % 2 == 1
  {
    assert Pow2(k) - 1 == 2 * (Pow2(k - 1) - 1) + 1;
  }

  lemma LowBit(x: nat, k: nat, i: nat)
    ensures Bit(Low(x, Pow2(k)), i) == (i < k && Bit(x, i))
  {
    hide Bit, Low, Pow2, And;
    LowIsAnd(x, k);
    AndBit(x, Pow2(k) - 1, i);
    MaskBit(k, i);
  }

  lemma {:induction false} PowerBit(y: nat, i: nat)
    ensures Bit(Pow2(y), i) == (i == y)
    decreases y
  {
    if y < i {
      Pow2Monotone(y + 1, i);
      NoHighBit(Pow2(y), y + 1, i);
    } else if i == 0 {
      LowestBit(Pow2(y));
    } else {
      assert Pow2(y) / 2 == Pow2(y - 1);
      hide Pow2, Bit;
      BitOfHalf(Pow2(y), i);
      PowerBit(y - 1, i - 1);
    }
  }

  /** No bit from `k` on means below `2^k`. */
  lemma {:induction false} BoundOfBits(v: nat, k: nat, m: nat)
    requires v < Pow2(m) && forall i: nat :: k <= i < m ==> !Bit(v, i)
    ensures v < Pow2(k)
    decreases m
  {
    if m <= k {
      Pow2Monotone(m, k);
    } else {
      assert !Bit(v, m - 1);
      TopBitClear(v, m);
      BoundOfBits(v, k, m - 1);
    }
  }

  lemma TopBitClear(v: nat, m: nat)
    requires 0 < m && v < Pow2(m) && !Bit(v, m - 1)
    ensures v < Pow2(m - 1)
  {
    assert Pow2(m) == 2 * Pow2(m - 1);
    hide Pow2;
    if v >= Pow2(m - 1) {
      DivModUnique(v, Pow2(m - 1), 1, v - Pow2(m - 1));
    }
  }

  // ---------------------------------------------------------------- counting bits

  ghost function SetBits(v: nat, k: nat): set<nat> {
    set i: nat | i in Below(k) && Bit(v, i)
  }

  /** The population count is the number of set bits. */
  lemma {:induction false} PopCountIsBits(v: nat, k: nat)
    requires v < Pow2(k)
    ensures PopCount(v) == |SetBits(v, k)|
    decreases k
  {
    if k == 0 {
      assert SetBits(v, k) == {};
    } else {
      PopCountIsBits(v / 2, k - 1);
      hide Pow2, Bit, Below;
      HalfBits(v, k);
      PopCountStep(v);
    }
  }

  lemma PopCountStep(v: nat)
    ensures PopCount(v) == v % 2 + PopCount(v / 2)
  {
  }

  lemma HalfBits(v: nat, k: nat)
    requires k > 0
    ensures |SetBits(v, k)| == |SetBits(v / 2, k - 1)| + v % 2
  {
    hide Bit, SetBits;
    HighBits(v, k);
    InSetBits(v, k, 0);
    LowestBit(v);
    var all := SetBits(v, k);
    if v % 2 == 1 {
      assert all == (all - {0}) + {0};
    } else {
      assert all == all - {0};
    }
  }

  lemma InSetBits(v: nat, k: nat, i: nat)
    ensures i in SetBits(v, k) <==> i < k && Bit(v, i)
  {
    hide Bit;
  }

  lemma HighBits(v: nat, k: nat)
    requires k > 0
    ensures |SetBits(v, k) - {0}| == |SetBits(v / 2, k - 1)|
  {
    hide Bit, SetBits;
    var f: nat -> nat := i => i + 1;
    var g: nat -> nat := i => if i > 0 then i - 1 else 0;
    var high := SetBits(v, k) - {0};
    forall i | i in SetBits(v / 2, k - 1)
      ensures f(i) in high && g(f(i)) == i
    {
      InSetBits(v / 2, k - 1, i);
      InSetBits(v, k, i + 1);
      BitOfHalf(v, i + 1);
    }
    forall i | i in high
      ensures g(i) in SetBits(v / 2, k - 1) && f(g(i)) == i
    {
      InSetBits(v / 2, k - 1, i - 1);
      InSetBits(v, k, i);
      BitOfHalf(v, i);
    }
    InverseSize<nat, nat>(SetBits(v / 2, k - 1), high, f, g);
  }

  lemma SameBits(u: nat, v: nat, k: nat)
    requires forall i: nat :: i < k ==> Bit(u, i) == Bit(v, i)
    ensures SetBits(u, k) == SetBits(v, k)
  {
    hide Bit, Below;
  }

  // ---------------------------------------------------------------- the hash

  /** Among `2^k` buckets: the highest set bit of the low `k` bits of `c` is the highest bit of the bucket, and the bits
      below it are those of `a` if `c` has an even number of set bits there, and otherwise those of `b`. */
  lemma PowerOfTwoBits(a: nat, b: nat, c: nat, d: nat, k: nat, w: nat, y: nat) returns (v: nat)
    requires k < w && y < k && Bit(c, y) && forall i: nat :: y < i < k ==> !Bit(c, i)
    ensures Pow2(k) <= Pow2(w - 1) && Impl(a, b, c, d, Pow2(k), w) == Bucket(v)
    ensures v < 2 * Pow2(y) && Bit(v, y)
    ensures forall i: nat :: i < y ==> Bit(v, i) == Bit(if |SetBits(c, k)| % 2 == 0 then a else b, i)
  {
    hide Bit, Low, Pow2, PopCount, TopBit, ForPowersOf2, SetBits, Impl, Or;
    Pow2Monotone(k, w - 1);
    Pow2Monotone(w - 1, w);
    BlockBits(c, k, y);
    var block := Low(c, Pow2(k));
    var selected := SelectAOrBBlock(a, b, block);
    LargeShape(a, b, c, k, w, block);
    TopBitIs(block, y);
    v := Pow2(y) + Low(selected, Pow2(y));
    PowerBucket(a, b, c, d, k, w, v);
    OrDisjoint(1, Low(selected, Pow2(y)), y);
    forall i: nat | i <= y
      ensures Bit(v, i) == (i == y || Bit(selected, i))
    {
      OrBit(Pow2(y), Low(selected, Pow2(y)), i);
      PowerBit(y, i);
      LowBit(selected, y, i);
    }
    PopCountIsBits(block, k);
  }

  lemma PowerBucket(a: nat, b: nat, c: nat, d: nat, k: nat, w: nat, v: nat)
    requires k < w && Pow2(k) <= Pow2(w - 1) && Pow2(k) <= Pow2(w) && v == ForPowersOf2(a, b, c, Pow2(k), w)
    ensures Impl(a, b, c, d, Pow2(k), w) == Bucket(v)
  {
    hide Pow2, ForPowersOf2, Impl;
    InRange(a, b, c, d, Pow2(k), w);
    PowerOfTwoBucket((d, (a, b, c)), k, w);
  }

  lemma BlockBits(c: nat, k: nat, y: nat)
    requires y < k && Bit(c, y) && forall i: nat :: y < i < k ==> !Bit(c, i)
    ensures var block := Low(c, Pow2(k)); Pow2(y) <= block < 2 * Pow2(y) && block < Pow2(k) && SetBits(block, k) == SetBits(c, k)
  {
    assert Pow2(y + 1) == 2 * Pow2(y);
    hide Bit, Low, Pow2, SetBits;
    var block := Low(c, Pow2(k));
    forall i: nat
      ensures Bit(block, i) == (i < k && Bit(c, i))
    {
      LowBit(c, k, i);
    }
    BoundOfBits(block, y + 1, k);
    if block < Pow2(y) {
      NoHighBit(block, y, y);
    }
    SameBits(block, c, k);
  }

  /** No bit of `c` set: bucket zero. */
  lemma PowerOfTwoZero(a: nat, b: nat, c: nat, d: nat, k: nat, w: nat)
    requires k < w && forall i: nat :: i < k ==> !Bit(c, i)
    ensures Pow2(k) <= Pow2(w - 1) && Impl(a, b, c, d, Pow2(k), w) == Bucket(0)
  {
    assert Pow2(0) == 1;
    hide Bit, Low, Pow2, ForPowersOf2, Impl;
    Pow2Monotone(k, w - 1);
    Pow2Monotone(w - 1, w);
    var block := Low(c, Pow2(k));
    forall i: nat
      ensures !Bit(block, i)
    {
      LowBit(c, k, i);
    }
    BoundOfBits(block, 0, k);
    LargeShape(a, b, c, k, w, block);
    PowerBucket(a, b, c, d, k, w, 0);
  }

  // ---------------------------------------------------------------- the keys

  lemma TwoWords(low: nat, high: nat, base: nat)
    requires low < base
    ensures (low + base * high) % base == low && (low + base * high) / base == high
  {
    DivModUnique(low + base * high, base, high, low);
  }

  /** The words of a 64-bit key, from the lowest to the highest, are `a`, `b`, `c` and `d`. */
  lemma KeyLayout64(a: nat, b: nat, c: nat, d: nat, n: nat)
    requires a < 0x1_0000 && b < 0x1_0000 && c < 0x1_0000 && d < 0x1_0000 && n <= 32768
    ensures n <= Pow2(15)
    ensures Hash64((a + 0x1_0000 * b) + 0x1_0000_0000 * (c + 0x1_0000 * d), n) == Impl(a, b, c, d, n, 16)
  {
    hide Pow2, Impl, Hash64;
    HalfOfWords();
    var lo, hi := a + 0x1_0000 * b, c + 0x1_0000 * d;
    TwoWords(a, b, 0x1_0000);
    TwoWords(c, d, 0x1_0000);
    TwoWords(lo, hi, 0x1_0000_0000);
    ModSmall(hi, 0x1_0000_0000);
    HashOfWords(lo + 0x1_0000_0000 * hi, lo, hi, n);
  }

  lemma HalfOfWords()
    ensures Pow2(15) == 32768
  {
    Pow2Words();
    assert Pow2(16) == 2 * Pow2(15);
  }

  lemma HashOfWords(x: nat, lo: nat, hi: nat, n: nat)
    requires x % 0x1_0000_0000 == lo && (x / 0x1_0000_0000) % 0x1_0000_0000 == hi && n <= 32768 == Pow2(15)
    ensures Hash64(x, n) == Impl(lo % 0x1_0000, lo / 0x1_0000, hi % 0x1_0000, hi / 0x1_0000, n, 16)
  {
    hide Pow2, Impl;
  }

  /** And those of a pair of 64-bit keys. */
  lemma KeyLayout128(a: nat, b: nat, c: nat, d: nat, n: nat)
    requires a < 0x1_0000_0000 && b < 0x1_0000_0000 && c < 0x1_0000_0000 && d < 0x1_0000_0000 && n <= 0x8000_0000
    ensures n <= Pow2(31)
    ensures Hash128(a + 0x1_0000_0000 * b, c + 0x1_0000_0000 * d, n) == Impl(a, b, c, d, n, 32)
  {
    Pow2Words();
    assert Pow2(32) == 2 * Pow2(31);
    hide Pow2, Impl;
    TwoWords(a, b, 0x1_0000_0000);
    TwoWords(c, d, 0x1_0000_0000);
  }
}
