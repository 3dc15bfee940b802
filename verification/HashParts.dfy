/** Keys as independent low and high parts, and how many of each there are. */
module HashParts {
  import opened Arith
  import opened Counting
  import opened ConsistentHashing
  import opened HashBalance

  // ---------------------------------------------------------------- keys in parts

  /** Below bit `k - 1`: the block of `c`, then `a` and `b`. */
  type LowPart = (nat, (nat, nat))

  /** From bit `k - 1` on: `d` and `c`, then `b` and `a`. Bit `k - 1` of `c` is in neither part: it is set. */
  type HighPart = ((nat, nat), (nat, nat))

  type Parts = (LowPart, HighPart)

  ghost function LowParts(half: nat): set<LowPart> {
    Product(Below(half), Product(Below(half), Below(half)))
  }

  ghost function HighParts(k: nat, w: nat): set<HighPart>
    requires 1 <= k < w
  {
    Product(Product(Below(Pow2(w)), Below(Pow2(w - k))), Product(Below(Pow2(w - k + 1)), Below(Pow2(w - k + 1))))
  }

  /** The keys that the scheme for `2^k` buckets sends to its upper half. */
  ghost function UpperKeys(k: nat, w: nat): set<Key>
    requires 1 <= k < w
  {
    set key | key in Keys(w) && Low(key.1.2, Pow2(k)) >= Pow2(k - 1)
  }

  function Assemble(p: Parts, half: nat): Key {
    (p.1.0.0, (Join(p.1.1.1, p.0.1.0, half), Join(p.1.1.0, p.0.1.1, half), Join(p.1.0.1, half + p.0.0, 2 * half)))
  }

  function Disassemble(key: Key, half: nat): Parts
    requires half > 0
  {
    var c := Low(key.1.2, 2 * half);
    ((if c >= half then c - half else 0, (Low(key.1.0, half), Low(key.1.1, half))),
     ((key.0, High(key.1.2, 2 * half)), (High(key.1.1, half), High(key.1.0, half))))
  }

  lemma Powers(k: nat, w: nat)
    requires 1 <= k < w
    ensures Pow2(k) == 2 * Pow2(k - 1) && Pow2(w) == Pow2(w - k) * Pow2(k) == Pow2(w - k + 1) * Pow2(k - 1)
    ensures Pow2(k - 1) < Pow2(k) <= Pow2(w - 1) <= Pow2(w)
  {
    assert Pow2(k) == 2 * Pow2(k - 1);
    hide Pow2;
    Pow2Add(w - k, k);
    Pow2Add(w - k + 1, k - 1);
    Pow2Monotone(k, w - 1);
    Pow2Monotone(w - 1, w);
  }

  lemma AssembleKey(p: Parts, k: nat, w: nat, half: nat)
    requires 1 <= k < w && half == Pow2(k - 1) && p in Product(LowParts(half), HighParts(k, w))
    ensures Assemble(p, half) in UpperKeys(k, w) && Disassemble(Assemble(p, half), half) == p
  {
    Powers(k, w);
    hide Pow2, Join, High, Low, Below;
    SplitJoin(p.1.1.1, p.0.1.0, half);
    SplitJoin(p.1.1.0, p.0.1.1, half);
    SplitJoin(p.1.0.1, half + p.0.0, 2 * half);
    JoinBound(p.1.1.1, p.0.1.0, half, Pow2(w - k + 1));
    JoinBound(p.1.1.0, p.0.1.1, half, Pow2(w - k + 1));
    JoinBound(p.1.0.1, half + p.0.0, 2 * half, Pow2(w - k));
  }

  lemma DisassembleKey(key: Key, k: nat, w: nat, half: nat)
    requires 1 <= k < w && half == Pow2(k - 1) && key in UpperKeys(k, w)
    ensures Disassemble(key, half) in Product(LowParts(half), HighParts(k, w)) && Assemble(Disassemble(key, half), half) == key
  {
    Powers(k, w);
    hide Pow2, Join, High, Low, Below;
    JoinSplit(key.1.0, half);
    JoinSplit(key.1.1, half);
    JoinSplit(key.1.2, 2 * half);
    JoinBound(High(key.1.0, half), Low(key.1.0, half), half, Pow2(w - k + 1));
    JoinBound(High(key.1.1, half), Low(key.1.1, half), half, Pow2(w - k + 1));
    JoinBound(High(key.1.2, 2 * half), Low(key.1.2, 2 * half), 2 * half, Pow2(w - k));
  }

  // ---------------------------------------------------------------- what the parts decide

  /** The bucket among `2^k`: the word that the block selects gives the bits below the highest. */
  function LargeOf(low: LowPart, half: nat): nat {
    half + (if PopCount(half + low.0) % 2 == 0 then low.1.0 else low.1.1)
  }

  /** The bucket among `2^(k-1)`. */
  function ShortOf(low: LowPart, half: nat, w: nat): nat
    requires 0 < half <= Pow2(w)
  {
    ForPowersOf2(low.1.0, low.1.1, low.0, half, w)
  }

  /** The left-over bits. */
  function BitsOf(high: HighPart, k: nat, w: nat): nat
    requires 1 <= k < w
  {
    SideBySide(high.0.0, high.0.1, high.1.0, high.1.1, k, w)
  }

  lemma LargeOfKey(p: Parts, k: nat, w: nat, half: nat, key: Key)
    requires 1 <= k < w && half == Pow2(k - 1) && p in Product(LowParts(half), HighParts(k, w)) && key == Assemble(p, half)
    ensures Pow2(k) <= Pow2(w) && ForPowersOf2(key.1.0, key.1.1, key.1.2, Pow2(k), w) == LargeOf(p.0, half)
  {
    Powers(k, w);
    hide Pow2, Join, High, Low, Below, PopCount, ForPowersOf2, TopBit;
    var block := half + p.0.0;
    SplitJoin(p.1.1.1, p.0.1.0, half);
    SplitJoin(p.1.1.0, p.0.1.1, half);
    SplitJoin(p.1.0.1, block, 2 * half);
    TopBitIs(block, k - 1);
    LargeShape(key.1.0, key.1.1, key.1.2, k, w, block);
  }

  lemma LowOfJoin(high: nat, low: nat, e: nat, y: nat)
    requires y <= e
    ensures Low(Join(high, low, Pow2(e)), Pow2(y)) == Low(low, Pow2(y))
  {
    hide Pow2;
    Pow2Add(e - y, y);
    MulAssociative(high, Pow2(e - y), Pow2(y));
    SameResidue(high * Pow2(e) + low, low, high * Pow2(e - y), Pow2(y));
  }

  lemma ShortOfKey(p: Parts, k: nat, w: nat, half: nat, key: Key)
    requires 1 <= k < w && half == Pow2(k - 1) && p in Product(LowParts(half), HighParts(k, w)) && key == Assemble(p, half)
    ensures half <= Pow2(w) && ForPowersOf2(key.1.0, key.1.1, key.1.2, half, w) == ShortOf(p.0, half, w)
  {
    hide Pow2, Join, Below, HighParts, ForPowersOf2;
    Powers(k, w);
    ShortOfWords(p.1.1.1, p.0.1.0, p.1.1.0, p.0.1.1, p.1.0.1, p.0.0, k, w, half);
  }

  lemma ShortOfWords(highA: nat, lowA: nat, highB: nat, lowB: nat, highC: nat, block: nat, k: nat, w: nat, half: nat)
    requires 1 <= k < w && block < half == Pow2(k - 1) <= Pow2(w)
    ensures ForPowersOf2(Join(highA, lowA, half), Join(highB, lowB, half), Join(highC, half + block, 2 * half), half, w)
      == ForPowersOf2(lowA, lowB, block, half, w)
  {
    hide Pow2, Join, Low, PopCount, ForPowersOf2, BitCount;
    var a, b, c := Join(highA, lowA, half), Join(highB, lowB, half), Join(highC, half + block, 2 * half);
    BlockBelowHalf(highC, block, half);
    LargeShape(a, b, c, k - 1, w, block);
    LargeShape(lowA, lowB, block, k - 1, w, block);
    if block > 0 {
      TopBitBounds(block, k - 1);
      BitCountBounds(block);
      var y := BitCount(block) - 1;
      BelowPower(y, k - 1);
      LowOfJoin(highA, lowA, k - 1, y);
      LowOfJoin(highB, lowB, k - 1, y);
    }
  }

  lemma BlockBelowHalf(high: nat, block: nat, half: nat)
    requires block < half
    ensures Low(Join(high, half + block, 2 * half), half) == block == Low(block, half)
  {
    assert high * (2 * half) + (half + block) == (2 * high + 1) * half + block;
    DivModUnique(Join(high, half + block, 2 * half), half, 2 * high + 1, block);
    ModSmall(block, half);
  }

  lemma BitsOfKey(p: Parts, k: nat, w: nat, half: nat, key: Key)
    requires (w == 16 || w == 32) && 1 <= k < w && half == Pow2(k - 1)
    requires p in Product(LowParts(half), HighParts(k, w)) && key == Assemble(p, half)
    ensures GetAsteriskBits(key.1.0, key.1.1, key.1.2, key.0, k, w) == BitsOf(p.1, k, w)
  {
    Powers(k, w);
    hide Pow2, Join, High, Low, Below, GetAsteriskBits, SideBySide;
    SplitJoin(p.1.1.1, p.0.1.0, half);
    SplitJoin(p.1.1.0, p.0.1.1, half);
    SplitJoin(p.1.0.1, half + p.0.0, 2 * half);
    AsteriskBits(key.1.0, key.1.1, key.1.2, key.0, k, w, p.1.0.1, p.1.1.0, p.1.1.1);
  }

  // ---------------------------------------------------------------- counting low parts

  ghost function LowsTo(half: nat, large: nat): set<LowPart> {
    set low | low in LowParts(half) && LargeOf(low, half) == large
  }

  /** The low part with the given block, whose selected word is `selected`. */
  function LowWith(block: nat, other: nat, selected: nat, half: nat): LowPart {
    if PopCount(half + block) % 2 == 0 then (block, (selected, other)) else (block, (other, selected))
  }

  function Other(low: LowPart, half: nat): nat {
    if PopCount(half + low.0) % 2 == 0 then low.1.1 else low.1.0
  }

  ghost function Pairs(m: nat, n: nat): (s: set<(nat, nat)>)
    ensures forall z: (nat, nat) :: z in s <==> z.0 < m && z.1 < n
  {
    Product(Below(m), Below(n))
  }

  lemma PairsSize(m: nat, n: nat)
    ensures |Pairs(m, n)| == m * n
  {
    hide Below;
    BelowSize(m);
    BelowSize(n);
    ProductSize(Below(m), Below(n));
  }

  lemma LowWithTo(block: nat, other: nat, large: nat, half: nat, low: LowPart)
    requires half <= large < 2 * half && block < half && other < half && low == LowWith(block, other, large - half, half)
    ensures low in LowsTo(half, large) && low.0 == block && Other(low, half) == other
  {
    hide PopCount, Below;
  }

  lemma LowsToOther(low: LowPart, large: nat, half: nat)
    requires half <= large < 2 * half && low in LowsTo(half, large)
    ensures low.0 < half && Other(low, half) < half && LowWith(low.0, Other(low, half), large - half, half) == low
  {
    hide PopCount, Below;
  }

  /** Each bucket of the upper half is reached by equally many low parts. */
  lemma LowsToSize(half: nat, large: nat)
    requires half <= large < 2 * half
    ensures |LowsTo(half, large)| == half * half
  {
    hide LowsTo, Other, LowWith, Pairs;
    var f := (z: (nat, nat)) => LowWith(z.0, z.1, large - half, half);
    var g := (low: LowPart) => (low.0, Other(low, half));
    forall z | z in Pairs(half, half)
      ensures f(z) in LowsTo(half, large) && g(f(z)) == z
    {
      LowWithTo(z.0, z.1, large, half, f(z));
    }
    forall low | low in LowsTo(half, large)
      ensures g(low) in Pairs(half, half) && f(g(low)) == low
    {
      LowsToOther(low, large, half);
    }
    EqualSize(Pairs(half, half), LowsTo(half, large), f, g);
    PairsSize(half, half);
  }

  ghost function LowsToBoth(half: nat, large: nat, v: nat, w: nat): set<LowPart>
    requires 0 < half <= Pow2(w)
  {
    set low | low in LowsTo(half, large) && ShortOf(low, half, w) == v
  }

  lemma {:induction false} PopCountAbove(e: nat, block: nat)
    requires block < Pow2(e)
    ensures PopCount(Pow2(e) + block) == 1 + PopCount(block)
    decreases e
  {
    if e > 0 {
      PopCountAbove(e - 1, block / 2);
      assert (Pow2(e) + block) / 2 == Pow2(e - 1) + block / 2 && (Pow2(e) + block) % 2 == block % 2;
    } else {
      assert PopCount(1) == 1 + PopCount(0);
    }
  }

  /** The half scheme looks at the word that the whole scheme did not select. */
  lemma ShortOfOther(low: LowPart, e: nat, half: nat, w: nat)
    requires e <= w && half == Pow2(e) <= Pow2(w) && low in LowParts(half)
    ensures low.0 == 0 ==> ShortOf(low, half, w) == 0
    ensures low.0 > 0 ==> ShortOf(low, half, w) == TopBit(low.0) + Low(Other(low, half), TopBit(low.0))
  {
    hide PopCount, Below, Pow2, ForPowersOf2, TopBit, Low;
    PopCountAbove(e, low.0);
    LowOfSmall(low.0, half);
    LargeShape(low.1.0, low.1.1, low.0, e, w, low.0);
  }

  lemma LowOfSmall(x: nat, p: nat)
    requires x < p
    ensures Low(x, p) == x
  {
    ModSmall(x, p);
  }

  /** And so is each pair of an upper bucket and a bucket of the half scheme. */
  lemma LowsToBothSize(e: nat, half: nat, large: nat, v: nat, w: nat)
    requires e <= w && half == Pow2(e) <= Pow2(w) && half <= large < 2 * half && v < half
    ensures |LowsToBoth(half, large, v, w)| == half
  {
    if v == 0 {
      LowsToZero(e, half, large, w);
    } else {
      TopBitBounds(v, e);
      BelowPower(BitCount(v) - 1, e);
      LowsToPositive(e, half, large, v, w, BitCount(v) - 1);
    }
  }

  lemma LowsToZero(e: nat, half: nat, large: nat, w: nat)
    requires e <= w && half == Pow2(e) <= Pow2(w) && half <= large < 2 * half
    ensures |LowsToBoth(half, large, 0, w)| == half
  {
    hide LowsTo, Other, LowWith, ShortOf, Below, LowParts;
    var f := (other: nat) => LowWith(0, other, large - half, half);
    var g := (low: LowPart) => Other(low, half);
    forall other | other in Below(half)
      ensures f(other) in LowsToBoth(half, large, 0, w) && g(f(other)) == other
    {
      LowWithTo(0, other, large, half, f(other));
      LowsToIn(f(other), large, half);
      ShortOfOther(f(other), e, half, w);
    }
    forall low | low in LowsToBoth(half, large, 0, w)
      ensures g(low) in Below(half) && f(g(low)) == low
    {
      LowsToOther(low, large, half);
      LowsToIn(low, large, half);
      ShortOfOther(low, e, half, w);
    }
    EqualSize(Below(half), LowsToBoth(half, large, 0, w), f, g);
    BelowSize(half);
  }

  lemma LowsToIn(low: LowPart, large: nat, half: nat)
    requires low in LowsTo(half, large)
    ensures low in LowParts(half)
  {
  }

  /** Block `2^y + r` and the bits of the other word above those of `v`. */
  function LowFor(z: (nat, nat), v: nat, top: nat, large: nat, half: nat): LowPart
    requires top <= v && half <= large
  {
    LowWith(top + z.0, Join(z.1, v - top, top), large - half, half)
  }

  function LowPick(low: LowPart, top: nat, half: nat): (nat, nat)
    requires top > 0
  {
    (if low.0 >= top then low.0 - top else 0, High(Other(low, half), top))
  }

  lemma LowForTo(z: (nat, nat), e: nat, half: nat, large: nat, v: nat, w: nat, y: nat)
    requires y < e <= w && half == Pow2(e) == Pow2(e - y) * Pow2(y) <= Pow2(w) && half <= large < 2 * half
    requires Pow2(y) <= v < 2 * Pow2(y) <= half && z in Pairs(Pow2(y), Pow2(e - y))
    ensures LowFor(z, v, Pow2(y), large, half) in LowsToBoth(half, large, v, w)
    ensures LowPick(LowFor(z, v, Pow2(y), large, half), Pow2(y), half) == z
  {
    hide Pow2, LowsTo, Other, LowWith, ShortOf, Join, High, Low, TopBit, LowParts;
    var top := Pow2(y);
    var low := LowFor(z, v, top, large, half);
    JoinBound(z.1, v - top, top, Pow2(e - y));
    SplitJoin(z.1, v - top, top);
    LowWithTo(top + z.0, Join(z.1, v - top, top), large, half, low);
    LowsToIn(low, large, half);
    ShortOfOther(low, e, half, w);
    TopBitIs(top + z.0, y);
  }

  lemma LowForFrom(low: LowPart, e: nat, half: nat, large: nat, v: nat, w: nat, y: nat)
    requires y < e <= w && half == Pow2(e) == Pow2(e - y) * Pow2(y) <= Pow2(w) && half <= large < 2 * half
    requires Pow2(y) <= v < 2 * Pow2(y) <= half && low in LowsToBoth(half, large, v, w)
    ensures LowPick(low, Pow2(y), half) in Pairs(Pow2(y), Pow2(e - y))
    ensures LowFor(LowPick(low, Pow2(y), half), v, Pow2(y), large, half) == low
  {
    hide Pow2, LowsTo, Other, LowWith, ShortOf, Join, High, Low, TopBit, LowParts;
    var top := Pow2(y);
    LowsToOther(low, large, half);
    LowsToIn(low, large, half);
    ShortOfOther(low, e, half, w);
    TopBitIs(v, y);
    SameTopBit(low.0, v);
    TopBitBounds(low.0, e);
    JoinSplit(Other(low, half), top);
    JoinBound(High(Other(low, half), top), v - top, top, Pow2(e - y));
  }

  lemma LowsToPairs(e: nat, half: nat, large: nat, v: nat, w: nat, y: nat)
    requires y < e <= w && half == Pow2(e) == Pow2(e - y) * Pow2(y) <= Pow2(w) && half <= large < 2 * half
    requires Pow2(y) <= v < 2 * Pow2(y) <= half
    ensures |LowsToBoth(half, large, v, w)| == |Pairs(Pow2(y), Pow2(e - y))|
  {
    hide *;
    var top, rest := Pow2(y), Pow2(e - y);
    var f := (z: (nat, nat)) => LowFor(z, v, top, large, half);
    var g := (low: LowPart) => LowPick(low, top, half);
    forall z | z in Pairs(top, rest)
      ensures f(z) in LowsToBoth(half, large, v, w) && g(f(z)) == z
    {
      LowForTo(z, e, half, large, v, w, y);
    }
    forall low | low in LowsToBoth(half, large, v, w)
      ensures g(low) in Pairs(top, rest) && f(g(low)) == low
    {
      LowForFrom(low, e, half, large, v, w, y);
    }
    InverseSize(Pairs(top, rest), LowsToBoth(half, large, v, w), f, g);
  }

  lemma LowsToPositive(e: nat, half: nat, large: nat, v: nat, w: nat, y: nat)
    requires y < e <= w && half == Pow2(e) <= Pow2(w) && half <= large < 2 * half
    requires Pow2(y) <= v < 2 * Pow2(y) <= half
    ensures |LowsToBoth(half, large, v, w)| == half
  {
    hide *;
    Pow2Add(e - y, y);
    LowsToPairs(e, half, large, v, w, y);
    PairsSize(Pow2(y), Pow2(e - y));
  }

  // ---------------------------------------------------------------- counting high parts

  /** How many bits of `d` the 32-bit shift keeps. */
  function KeptBits(k: nat, w: nat): nat {
    if w == 16 then 16 else k
  }

  /** How many bits stand side by side, and how many of them 64 bits keep. */
  function LineBits(k: nat, w: nat): nat
    requires k < w
  {
    KeptBits(k, w) + (w - k) + 2 * (w - k + 1)
  }

  function LeftOverBits(k: nat, w: nat): nat
    requires k < w
  {
    if LineBits(k, w) < 64 then LineBits(k, w) else 64
  }

  /** The bits before they are reduced to 64; `u` are kept of `d`, `s` come from `c`, `e` from `b` and from `a`. */
  function LineOf(high: HighPart, u: nat, s: nat, e: nat): nat {
    Join(Join(Join(Low(high.0.0, Pow2(u)), high.0.1, Pow2(s)), high.1.0, Pow2(e)), high.1.1, Pow2(e))
  }

  function FromLine(dropped: nat, line: nat, u: nat, s: nat, e: nat): HighPart {
    var withB := High(line, Pow2(e));
    var withC := High(withB, Pow2(e));
    ((Join(dropped, High(withC, Pow2(s)), Pow2(u)), Low(withC, Pow2(s))), (Low(withB, Pow2(e)), Low(line, Pow2(e))))
  }

  ghost predicate InBox(high: HighPart, w: nat, s: nat, e: nat) {
    high.0.0 < Pow2(w) && high.0.1 < Pow2(s) && high.1.0 < Pow2(e) && high.1.1 < Pow2(e)
  }

  lemma LineRoundTrip(high: HighPart, w: nat, u: nat, s: nat, e: nat)
    requires u <= w && InBox(high, w, s, e)
    ensures High(high.0.0, Pow2(u)) < Pow2(w - u) && LineOf(high, u, s, e) < Pow2(u + s + e + e)
    ensures FromLine(High(high.0.0, Pow2(u)), LineOf(high, u, s, e), u, s, e) == high
  {
    hide Pow2, Join, High, Low;
    var d := high.0.0;
    Pow2Add(w - u, u);
    Pow2Add(u, s);
    Pow2Add(u + s, e);
    Pow2Add(u + s + e, e);
    JoinSplit(d, Pow2(u));
    JoinBound(High(d, Pow2(u)), Low(d, Pow2(u)), Pow2(u), Pow2(w - u));
    var withC := Join(Low(d, Pow2(u)), high.0.1, Pow2(s));
    JoinBound(Low(d, Pow2(u)), high.0.1, Pow2(s), Pow2(u));
    SplitJoin(Low(d, Pow2(u)), high.0.1, Pow2(s));
    var withB := Join(withC, high.1.0, Pow2(e));
    JoinBound(withC, high.1.0, Pow2(e), Pow2(u + s));
    SplitJoin(withC, high.1.0, Pow2(e));
    JoinBound(withB, high.1.1, Pow2(e), Pow2(u + s + e));
    SplitJoin(withB, high.1.1, Pow2(e));
  }

  lemma PartsRoundTrip(dropped: nat, line: nat, w: nat, u: nat, s: nat, e: nat)
    requires u <= w && dropped < Pow2(w - u) && line < Pow2(u + s + e + e)
    ensures InBox(FromLine(dropped, line, u, s, e), w, s, e) && LineOf(FromLine(dropped, line, u, s, e), u, s, e) == line
    ensures High(FromLine(dropped, line, u, s, e).0.0, Pow2(u)) == dropped
  {
    hide Pow2, Join, High, Low;
    Pow2Add(w - u, u);
    Pow2Add(u, s);
    Pow2Add(u + s, e);
    Pow2Add(u + s + e, e);
    var withB := High(line, Pow2(e));
    JoinSplit(line, Pow2(e));
    JoinBound(withB, Low(line, Pow2(e)), Pow2(e), Pow2(u + s + e));
    var withC := High(withB, Pow2(e));
    JoinSplit(withB, Pow2(e));
    JoinBound(withC, Low(withB, Pow2(e)), Pow2(e), Pow2(u + s));
    var kept := High(withC, Pow2(s));
    JoinSplit(withC, Pow2(s));
    JoinBound(kept, Low(withC, Pow2(s)), Pow2(s), Pow2(u));
    JoinBound(dropped, kept, Pow2(u), Pow2(w - u));
    SplitJoin(dropped, kept, Pow2(u));
  }

  lemma HighPartsBox(high: HighPart, k: nat, w: nat)
    requires 1 <= k < w
    ensures high in HighParts(k, w) <==> InBox(high, w, w - k, w - k + 1)
  {
    hide Pow2, Below;
  }

  /** `d` shifted left in a 32-bit word. */
  function WordShift(d: nat, s: nat): nat {
    (d * Pow2(s)) % Pow2(32)
  }

  /** The left-over bits are the line reduced to 64 bits. */
  lemma BitsOfLine(high: HighPart, k: nat, w: nat)
    requires (w == 16 || w == 32) && 1 <= k < w && high in HighParts(k, w)
    ensures BitsOf(high, k, w) == Low(LineOf(high, KeptBits(k, w), w - k, w - k + 1), Pow2(64))
  {
    hide Pow2, Low, LineOf, BitsOf, WordShift, HighParts;
    HighPartsBox(high, k, w);
    var d, u, s := high.0.0, KeptBits(k, w), w - k;
    if w == 16 {
      AllOfShift(d, s);
    } else {
      KeptOfShift(d, k, s);
    }
    LineReduced(high, u, k, w);
  }

  lemma LineReduced(high: HighPart, u: nat, k: nat, w: nat)
    requires 1 <= k < w && WordShift(high.0.0, w - k) == Low(high.0.0, Pow2(u)) * Pow2(w - k)
    ensures BitsOf(high, k, w) == Low(LineOf(high, u, w - k, w - k + 1), Pow2(64))
  {
    hide Pow2;
  }

  lemma AllOfShift(d: nat, s: nat)
    requires s <= 16 && d < Pow2(16)
    ensures WordShift(d, s) == Low(d, Pow2(16)) * Pow2(s)
  {
    hide Pow2;
    Pow2Add(16, s);
    Pow2Monotone(16 + s, 32);
    MulMonotone(d + 1, Pow2(16), Pow2(s));
    assert (d + 1) * Pow2(s) == d * Pow2(s) + Pow2(s);
    ModSmall(d * Pow2(s), Pow2(32));
    ModSmall(d, Pow2(16));
  }

  lemma KeptOfShift(d: nat, k: nat, s: nat)
    requires k + s == 32
    ensures WordShift(d, s) == Low(d, Pow2(k)) * Pow2(s)
  {
    hide Pow2;
    Pow2Add(k, s);
    var q, r := DivIdentity(d, Pow2(k));
    ShiftedParts(d, 0, Pow2(s), Pow2(k), q, r);
  }

  lemma LineBounds(k: nat, w: nat)
    requires (w == 16 || w == 32) && 1 <= k < w
    ensures KeptBits(k, w) <= w && LineBits(k, w) == KeptBits(k, w) + (w - k) + (w - k + 1) + (w - k + 1)
    ensures LeftOverBits(k, w) <= LineBits(k, w) && LeftOverBits(k, w) <= 64
    ensures LeftOverBits(k, w) == (if w == 16 then 66 - 3 * k else if k < 17 then 64 else 98 - 2 * k)
  {
  }

  /** How many high parts share each value of the left-over bits. */
  function Multiplicity(k: nat, w: nat): nat
    requires (w == 16 || w == 32) && 1 <= k < w
  {
    LineBounds(k, w);
    Pow2(w - KeptBits(k, w)) * Pow2(LineBits(k, w) - LeftOverBits(k, w))
  }

  /** The high parts whose left-over bits have a property. */
  ghost function HighsWith(k: nat, w: nat, r: nat -> bool): set<HighPart>
    requires 1 <= k < w
  {
    set high | high in HighParts(k, w) && r(BitsOf(high, k, w))
  }

  /** The lines that have it, once reduced. */
  ghost function LinesWith(c: nat, r: nat -> bool): set<nat> {
    set line | line in Below(Pow2(c)) && r(Low(line, Pow2(64)))
  }

  lemma HighsToLines(k: nat, w: nat, r: nat -> bool)
    requires (w == 16 || w == 32) && 1 <= k < w
    ensures KeptBits(k, w) <= w && |HighsWith(k, w, r)| == Pow2(w - KeptBits(k, w)) * |LinesWith(LineBits(k, w), r)|
  {
    hide Pow2, Low, High, LineOf, FromLine, BitsOf, HighParts, Below, KeptBits, LineBits, InBox;
    LineBounds(k, w);
    var u, s, e, c := KeptBits(k, w), w - k, w - k + 1, LineBits(k, w);
    var dropped: set<nat> := Below(Pow2(w - u));
    var f := (high: HighPart) => (High(high.0.0, Pow2(u)), LineOf(high, u, s, e));
    var g := (z: (nat, nat)) => FromLine(z.0, z.1, u, s, e);
    forall high | high in HighsWith(k, w, r)
      ensures f(high) in Product(dropped, LinesWith(c, r)) && g(f(high)) == high
    {
      HighPartsBox(high, k, w);
      BitsOfLine(high, k, w);
      LineRoundTrip(high, w, u, s, e);
    }
    forall z | z in Product(dropped, LinesWith(c, r))
      ensures g(z) in HighsWith(k, w, r) && f(g(z)) == z
    {
      PartsRoundTrip(z.0, z.1, w, u, s, e);
      HighPartsBox(g(z), k, w);
      BitsOfLine(g(z), k, w);
    }
    EqualSize(HighsWith(k, w, r), Product(dropped, LinesWith(c, r)), f, g);
    ProductSize(dropped, LinesWith(c, r));
    BelowSize(Pow2(w - u));
  }

  ghost function ValuesWith(b: nat, r: nat -> bool): set<nat> {
    set value | value in Below(Pow2(b)) && r(value)
  }

  /** Reducing to 64 bits keeps the `b` low bits of a line. */
  lemma Reduced(line: nat, c: nat, b: nat)
    requires line < Pow2(c) && b == if c < 64 then c else 64
    ensures Low(line, Pow2(64)) == Low(line, Pow2(b))
  {
    if c < 64 {
      Pow2Monotone(c, 64);
      ModSmall(line, Pow2(64));
      ModSmall(line, Pow2(c));
    }
  }

  lemma LinesToValues(c: nat, b: nat, r: nat -> bool)
    requires b == if c < 64 then c else 64
    ensures |LinesWith(c, r)| == Pow2(c - b) * |ValuesWith(b, r)|
  {
    hide Pow2, Low, High, Join, Below;
    Pow2Add(c - b, b);
    var dropped: set<nat> := Below(Pow2(c - b));
    var f := (line: nat) => (High(line, Pow2(b)), Low(line, Pow2(b)));
    var g := (z: (nat, nat)) => Join(z.0, z.1, Pow2(b));
    forall line | line in LinesWith(c, r)
      ensures f(line) in Product(dropped, ValuesWith(b, r)) && g(f(line)) == line
    {
      Reduced(line, c, b);
      JoinSplit(line, Pow2(b));
      JoinBound(High(line, Pow2(b)), Low(line, Pow2(b)), Pow2(b), Pow2(c - b));
    }
    forall z | z in Product(dropped, ValuesWith(b, r))
      ensures g(z) in LinesWith(c, r) && f(g(z)) == z
    {
      SplitJoin(z.0, z.1, Pow2(b));
      JoinBound(z.0, z.1, Pow2(b), Pow2(c - b));
      Reduced(g(z), c, b);
    }
    EqualSize(LinesWith(c, r), Product(dropped, ValuesWith(b, r)), f, g);
    ProductSize(dropped, ValuesWith(b, r));
    BelowSize(Pow2(c - b));
  }

  /** Each value of the left-over bits comes from equally many high parts. */
  lemma HighsWithSize(k: nat, w: nat, r: nat -> bool)
    requires (w == 16 || w == 32) && 1 <= k < w
    ensures |HighsWith(k, w, r)| == Multiplicity(k, w) * |ValuesWith(LeftOverBits(k, w), r)|
  {
    hide Pow2, HighsWith, LinesWith, ValuesWith;
    HighsToLines(k, w, r);
    LinesToValues(LineBits(k, w), LeftOverBits(k, w), r);
    LineBounds(k, w);
    MulAssociative(Pow2(w - KeptBits(k, w)), Pow2(LineBits(k, w) - LeftOverBits(k, w)), |ValuesWith(LeftOverBits(k, w), r)|);
  }
}
