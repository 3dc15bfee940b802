/** The loads of the two entry points. */
module HashEntry {
  import opened Arith
  import opened Counting
  import opened ConsistentHashing
  import opened HashBalance
  import opened HashParts
  import opened HashLoads

  // ---------------------------------------------------------------- the entry points

  const WORD: nat := 0x1_0000

  /** The keys of the 64-bit entry point that `n` buckets send to `v`. */
  ghost function Hits64(n: nat, v: nat): set<nat>
    requires n <= 32768
  {
    set x | x in Below(Pow2(64)) && Hash64(x, n) == Bucket(v)
  }

  function Words64(x: nat): Key {
    var lo, hi := Low(x, 0x1_0000_0000), Low(High(x, 0x1_0000_0000), 0x1_0000_0000);
    (High(hi, WORD), (Low(lo, WORD), High(lo, WORD), Low(hi, WORD)))
  }

  function FromWords64(key: Key): nat {
    Join(Join(key.0, key.1.2, WORD), Join(key.1.1, key.1.0, WORD), 0x1_0000_0000)
  }

  lemma Words64Key(x: nat)
    requires x < Pow2(64)
    ensures Words64(x) in Keys(16) && FromWords64(Words64(x)) == x
  {
    Pow2Words();
    hide Pow2, Join, High, Low;
    var hi, lo := High(x, 0x1_0000_0000), Low(x, 0x1_0000_0000);
    JoinSplit(x, 0x1_0000_0000);
    JoinBound(hi, lo, 0x1_0000_0000, 0x1_0000_0000);
    LowOfSmall(hi, 0x1_0000_0000);
    JoinSplit(lo, WORD);
    JoinBound(High(lo, WORD), Low(lo, WORD), WORD, WORD);
    JoinSplit(hi, WORD);
    JoinBound(High(hi, WORD), Low(hi, WORD), WORD, WORD);
  }

  lemma FromWords64Key(key: Key)
    requires key in Keys(16)
    ensures FromWords64(key) < Pow2(64) && Words64(FromWords64(key)) == key
  {
    Pow2Words();
    hide Pow2, Join, High, Low, Below;
    var hi, lo := Join(key.0, key.1.2, WORD), Join(key.1.1, key.1.0, WORD);
    SplitJoin(key.0, key.1.2, WORD);
    JoinBound(key.0, key.1.2, WORD, WORD);
    SplitJoin(key.1.1, key.1.0, WORD);
    JoinBound(key.1.1, key.1.0, WORD, WORD);
    SplitJoin(hi, lo, 0x1_0000_0000);
    JoinBound(hi, lo, 0x1_0000_0000, 0x1_0000_0000);
    LowOfSmall(hi, 0x1_0000_0000);
  }

  lemma Hash64Bucket(x: nat, n: nat)
    requires 1 <= n <= 32768
    ensures n <= Pow2(15) && Hash64(x, n) == Bucket(BucketOf(Words64(x), n, 16))
  {
    Pow2Words();
    assert Pow2(16) == 2 * Pow2(15);
    hide Pow2, Impl;
    var key := Words64(x);
    InRange(key.1.0, key.1.1, key.1.2, key.0, n, 16);
  }

  /** The loads of the 64-bit entry point are those of the four-word keys. */
  lemma Load64(n: nat, v: nat)
    requires 1 <= n <= 32768
    ensures n <= Pow2(15) && |Hits64(n, v)| == |KeyHits(16, n, v)|
  {
    hide Pow2, Hash64, BucketOf, Words64, FromWords64, Keys, Below;
    Hash64Bucket(0, n);
    var f := (x: nat) => Words64(x);
    var g := (key: Key) => FromWords64(key);
    forall x | x in Hits64(n, v)
      ensures f(x) in KeyHits(16, n, v) && g(f(x)) == x
    {
      Words64Key(x);
      Hash64Bucket(x, n);
    }
    forall key | key in KeyHits(16, n, v)
      ensures g(key) in Hits64(n, v) && f(g(key)) == key
    {
      FromWords64Key(key);
      Hash64Bucket(g(key), n);
    }
    InverseSize(Hits64(n, v), KeyHits(16, n, v), f, g);
  }

  /** The keys of the 128-bit entry point. */
  ghost function Hits128(n: nat, v: nat): set<(nat, nat)>
    requires n <= 0x8000_0000
  {
    set x | x in Pairs(Pow2(64), Pow2(64)) && Hash128(x.0, x.1, n) == Bucket(v)
  }

  function Words128(x: (nat, nat)): Key {
    (High(x.1, 0x1_0000_0000), (Low(x.0, 0x1_0000_0000), High(x.0, 0x1_0000_0000), Low(x.1, 0x1_0000_0000)))
  }

  function FromWords128(key: Key): (nat, nat) {
    (Join(key.1.1, key.1.0, 0x1_0000_0000), Join(key.0, key.1.2, 0x1_0000_0000))
  }

  lemma Words128Key(x: (nat, nat))
    requires x in Pairs(Pow2(64), Pow2(64))
    ensures Words128(x) in Keys(32) && FromWords128(Words128(x)) == x
  {
    Pow2Words();
    hide Pow2, Join, High, Low;
    var h := 0x1_0000_0000;
    JoinSplit(x.0, h);
    JoinBound(High(x.0, h), Low(x.0, h), h, h);
    JoinSplit(x.1, h);
    JoinBound(High(x.1, h), Low(x.1, h), h, h);
  }

  lemma FromWords128Key(key: Key)
    requires key in Keys(32)
    ensures FromWords128(key) in Pairs(Pow2(64), Pow2(64)) && Words128(FromWords128(key)) == key
  {
    Pow2Words();
    hide Pow2, Join, High, Low, Below;
    var h := 0x1_0000_0000;
    SplitJoin(key.1.1, key.1.0, h);
    JoinBound(key.1.1, key.1.0, h, h);
    SplitJoin(key.0, key.1.2, h);
    JoinBound(key.0, key.1.2, h, h);
  }

  lemma Hash128Bucket(x: (nat, nat), n: nat)
    requires 1 <= n <= 0x8000_0000
    ensures n <= Pow2(31) && Hash128(x.0, x.1, n) == Bucket(BucketOf(Words128(x), n, 32))
  {
    Pow2Words();
    assert Pow2(32) == 2 * Pow2(31);
    hide Pow2, Impl;
    var key := Words128(x);
    InRange(key.1.0, key.1.1, key.1.2, key.0, n, 32);
  }

  lemma Load128(n: nat, v: nat)
    requires 1 <= n <= 0x8000_0000
    ensures n <= Pow2(31) && |Hits128(n, v)| == |KeyHits(32, n, v)|
  {
    hide Pow2, Hash128, BucketOf, Words128, FromWords128, Keys, Pairs;
    Hash128Bucket((0, 0), n);
    var f := (x: (nat, nat)) => Words128(x);
    var g := (key: Key) => FromWords128(key);
    forall x | x in Hits128(n, v)
      ensures f(x) in KeyHits(32, n, v) && g(f(x)) == x
    {
      Words128Key(x);
      Hash128Bucket(x, n);
    }
    forall key | key in KeyHits(32, n, v)
      ensures g(key) in Hits128(n, v) && f(g(key)) == key
    {
      FromWords128Key(key);
      Hash128Bucket(g(key), n);
    }
    InverseSize(Hits128(n, v), KeyHits(32, n, v), f, g);
  }

  lemma EntrySizes()
    ensures Pow2(15) == 32768 && Pow2(31) == 0x8000_0000
  {
    Pow2Words();
    assert Pow2(16) == 2 * Pow2(15) && Pow2(32) == 2 * Pow2(31);
  }

  /** With a power of two of buckets the 64-bit entry point spreads all keys exactly evenly. */
  lemma EvenLoads64(k: nat, v: nat)
    requires k <= 15 && v < Pow2(k)
    ensures Pow2(k) <= 32768 && |Hits64(Pow2(k), v)| == Pow2(64 - k)
  {
    hide *;
    EntrySizes();
    Pow2Monotone(k, 15);
    Load64(Pow2(k), v);
    PowerOfTwoLoad(k, v, 16);
  }

  lemma EvenLoads128(k: nat, v: nat)
    requires k <= 31 && v < Pow2(k)
    ensures Pow2(k) <= 0x8000_0000 && |Hits128(Pow2(k), v)| == Pow2(128 - k)
  {
    hide *;
    EntrySizes();
    Pow2Monotone(k, 31);
    Load128(Pow2(k), v);
    PowerOfTwoLoad(k, v, 32);
  }

  /** For any number of buckets the 64-bit entry point's loads differ from an equal share by no more than
      `(2^k - n) * 2^(3k - 2)`. */
  lemma NearlyEvenLoads64(n: nat, k: nat, v: nat)
    requires Sized(n, k, 16) && v < n
    ensures n <= 32768 && Close(n, |Hits64(n, v)|, Pow2(64), Pow2(k) - n, Pow2(3 * k - 2))
  {
    hide *;
    EntrySizes();
    SizedBounds(n, k, 16);
    LoadBound(n, k, v, 16);
    Load64(n, v);
    SlackOf16(k);
  }

  lemma SlackOf16(k: nat)
    requires 1 <= k < 16
    ensures Slack(k, 16) == Pow2(3 * k - 2)
  {
    hide Pow2;
    LineBounds(k, 16);
  }

  /** The 64-bit entry point with 24576 buckets: loads of 2^49 and of 129 times that. */
  lemma UnequalLoads64()
    ensures |Hits64(24576, 20000)| == Pow2(49) && |Hits64(24576, 16384)| == 129 * Pow2(49)
  {
    hide *;
    UnequalLoads();
    Load64(24576, 20000);
    Load64(24576, 16384);
  }
}
