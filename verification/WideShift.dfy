/** Left and right shifts of wide integers. */
module WideShift {
  import opened Arith
  import opened WideInteger

  function Shl(x: Limb, k: nat): Limb {
    (x * Pow2(k)) % BASE
  }

  function Shr(x: Limb, k: nat): (r: Limb) {
    ShrSmall(x, k);
    x / Pow2(k)
  }

  lemma ShrSmall(x: nat, k: nat)
    ensures 0 <= x / Pow2(k) <= x
  {
    var q, r := DivIdentity(x, Pow2(k));
    DivModUnique(x, Pow2(k), q, r);
    if q < 0 {
      MulMonotone(q, -1, Pow2(k));
    } else {
      MulMonotone(1, Pow2(k), q);
    }
  }

  lemma BaseSplit(k: nat)
    requires k <= 64
    ensures Pow2(k) * Pow2(64 - k) == BASE
  {
    Pow2Words();
    Pow2Add(k, 64 - k);
  }

  /** What a left shift keeps and what it spills into the next limb. */
  lemma ShlParts(x: Limb, k: nat)
    requires k <= 64
    ensures Shl(x, k) == (x % Pow2(64 - k)) * Pow2(k)
    ensures x * Pow2(k) == Shl(x, k) + (x / Pow2(64 - k)) * BASE
    ensures x / Pow2(64 - k) < Pow2(k)
  {
    var p, h := Pow2(k), Pow2(64 - k);
    BaseSplit(k);
    var q, r := DivIdentity(x, h);
    DivModUnique(x, h, q, r);
    hide Pow2;
    ShlAlgebra(x, p, h, q, r);
    DivModUnique(x * p, BASE, q, r * p);
    if q >= p {
      MulMonotone(p, q, h);
    }
  }

  lemma ShlAlgebra(x: nat, p: nat, h: nat, q: int, r: nat)
    requires p > 0 && h > 0 && p * h == BASE && x == q * h + r && r < h
    ensures x * p == q * BASE + r * p && 0 <= r * p < BASE
  {
    assert (q * h) * p == q * (p * h);
    MulMonotone(r + 1, h, p);
  }

  /** `|` of the kept part of one limb and the spill of another. */
  lemma OrOfParts(x: Limb, y: Limb, k: nat)
    requires k <= 64
    ensures Or(Shl(x, k), Shr(y, 64 - k)) == Shl(x, k) + Shr(y, 64 - k)
    ensures Shl(x, k) + Shr(y, 64 - k) < BASE
  {
    hide Or, Pow2, Shl;
    ShlParts(x, k);
    ShlParts(y, k);
    PartsFit(Shl(x, k), x % Pow2(64 - k), Shr(y, 64 - k), k);
  }

  lemma PartsFit(shifted: nat, r: nat, q: nat, k: nat)
    requires k <= 64 && shifted == r * Pow2(k) && r < Pow2(64 - k) && q < Pow2(k)
    ensures Or(shifted, q) == shifted + q < BASE
  {
    hide Or, Pow2;
    OrDisjoint(r, q, k);
    BaseSplit(k);
    MulMonotone(r + 1, Pow2(64 - k), Pow2(k));
  }

  // ---------------------------------------------------------------- shift_left

  /** Limb `t` of the result before the shift by whole limbs. */
  ghost function LeftLimb(x: Wide, k: nat, t: nat): nat
    requires t < |x| && k <= 64
  {
    Shl(x[t], k) + (if t > 0 then Shr(x[t - 1], 64 - k) else 0)
  }

  /** The bits pushed out of the `j` low limbs. */
  ghost function Spill(x: Wide, k: nat, j: nat): nat
    requires j <= |x| && k <= 64
  {
    if j > 0 then Shr(x[j - 1], 64 - k) else 0
  }

  lemma {:induction false} LeftPrefix(x: Wide, z: Wide, k: nat, items: nat, j: nat)
    requires k <= 64 && items + j <= |x| == |z|
    requires forall t :: 0 <= t < items ==> z[t] == 0
    requires forall t :: items <= t < items + j ==> z[t] == LeftLimb(x, k, t - items)
    ensures Prefix(x, j) * Pow2(k) * Weight(items) == Prefix(z, items + j) + Spill(x, k, j) * Weight(items + j)
    decreases j
  {
    if j == 0 {
      ZeroPrefix(z, items);
    } else {
      LeftPrefix(x, z, k, items, j - 1);
      LeftPrefixStep(x, z, k, items, j - 1);
    }
  }

  lemma LeftPrefixStep(x: Wide, z: Wide, k: nat, items: nat, j: nat)
    requires k <= 64 && items + j < |x| == |z|
    requires z[items + j] == LeftLimb(x, k, j)
    requires Prefix(x, j) * Pow2(k) * Weight(items) == Prefix(z, items + j) + Spill(x, k, j) * Weight(items + j)
    ensures Prefix(x, j + 1) * Pow2(k) * Weight(items) == Prefix(z, items + j + 1) + Spill(x, k, j + 1) * Weight(items + j + 1)
  {
    hide Pow2, Shl, Shr, Prefix, Weight;
    ShlParts(x[j], k);
    assert x[j] / Pow2(64 - k) == Shr(x[j], 64 - k) by { ShrIsDiv(x[j], 64 - k); }
    WeightAdd(items, j);
    WeightAdd(items + j, 1);
    WeightOne();
    PrefixStep(x, j);
    PrefixStep(z, items + j);
    LeftAlgebra(Prefix(x, j), x[j], Weight(j), Pow2(k), Weight(items),
                Prefix(z, items + j), Spill(x, k, j), Shl(x[j], k), Spill(x, k, j + 1));
  }

  lemma ShrIsDiv(x: Limb, k: nat)
    ensures Shr(x, k) == x / Pow2(k)
  {
  }

  lemma WeightOne()
    ensures Weight(1) == BASE
  {
  }

  lemma {:induction false} ZeroPrefix(z: Wide, i: nat)
    requires i <= |z| && forall t :: 0 <= t < i ==> z[t] == 0
    ensures Prefix(z, i) == 0
  {
    if i > 0 {
      ZeroPrefix(z, i - 1);
    }
  }

  lemma {:induction false} WeightAdd(i: nat, j: nat)
    ensures Weight(i + j) == Weight(i) * Weight(j)
  {
    if j > 0 {
      WeightAdd(i, j - 1);
      assert Weight(i + j) == BASE * Weight(i + j - 1);
      MulAssociative(Weight(i), BASE, Weight(j - 1));
      MulAssociative(BASE, Weight(i), Weight(j - 1));
    }
  }

  lemma LeftAlgebra(px: int, x: int, w: int, p: int, wi: int, pz: int, s0: int, low: int, s1: int)
    requires px * p * wi == pz + s0 * (wi * w)
    requires x * p == low + s1 * BASE
    ensures (px + x * w) * p * wi == pz + (low + s0) * (wi * w) + s1 * (BASE * (wi * w))
  {
    var v := wi * w;
    assert (px + x * w) * p * wi == px * p * wi + (x * p) * v;
    assert (low + s1 * BASE) * v == low * v + s1 * (BASE * v);
  }

  lemma {:induction false} PrefixSplit(x: Wide, i: nat, j: nat) returns (rest: nat)
    requires i <= j <= |x|
    ensures Prefix(x, j) == Prefix(x, i) + rest * Weight(i)
    decreases j
  {
    if i == j {
      rest := 0;
    } else {
      var r0 := PrefixSplit(x, i, j - 1);
      PrefixStep(x, j - 1);
      WeightAdd(i, j - 1 - i);
      rest := r0 + x[j - 1] * Weight(j - 1 - i);
      SplitAlgebra(r0, x[j - 1], Weight(i), Weight(j - 1 - i));
    }
  }

  lemma SplitAlgebra(r: int, d: int, u: int, v: int)
    ensures r * u + d * (u * v) == (r + d * v) * u
  {
    assert d * (u * v) == (d * v) * u;
  }

  lemma Pow2OfShift(n: nat)
    ensures Pow2(n) == Pow2(n % 64) * Weight(n / 64)
  {
    WeightIsPow2(n / 64);
    assert n == n % 64 + 64 * (n / 64);
    Pow2Add(n % 64, 64 * (n / 64));
  }

  lemma ShiftLeftValue(x: Wide, z: Wide, n: nat)
    requires n / 64 < |x| == |z|
    requires forall t :: 0 <= t < n / 64 ==> z[t] == 0
    requires forall t :: n / 64 <= t < |x| ==> z[t] == LeftLimb(x, n % 64, t - n / 64)
    ensures Value(z) == (Value(x) * Pow2(n)) % Modulus(x)
  {
    hide Pow2, Prefix, Weight, LeftLimb, Spill;
    var k, items := n % 64, n / 64;
    var j := |x| - items;
    LeftPrefix(x, z, k, items, j);
    var rest := PrefixSplit(x, j, |x|);
    WeightAdd(items, j);
    Pow2OfShift(n);
    PrefixBound(z, |z|);
    ShiftLeftAlgebra(Prefix(x, j), rest, Weight(j), Pow2(k), Weight(items), Value(z), Spill(x, k, j));
    DivModUnique(Value(x) * Pow2(n), Modulus(x), Spill(x, k, j) + rest * Pow2(k), Value(z));
  }

  lemma ShiftLeftAlgebra(px: int, rest: int, wj: int, p: int, wi: int, z: int, spill: int)
    requires px * p * wi == z + spill * (wi * wj)
    ensures (px + rest * wj) * (p * wi) == (spill + rest * p) * (wi * wj) + z
  {
    assert (px + rest * wj) * (p * wi) == px * p * wi + (rest * p) * (wi * wj);
    assert (spill + rest * p) * (wi * wj) == spill * (wi * wj) + (rest * p) * (wi * wj);
  }

  function Big(x: Wide, i: nat): nat
    requires i < |x|
  {
    |x| - 1 - i
  }

  lemma LeftLimbOr(x: Wide, k: nat, t: nat)
    requires 0 < t < |x| && k <= 64
    ensures Or(Shl(x[t], k), Shr(x[t - 1], 64 - k)) == LeftLimb(x, k, t) < BASE
  {
    OrOfParts(x[t], x[t - 1], k);
  }

  lemma NoBitShift(x: Limb)
    ensures Shl(x, 0) == x && Shr(x, 64) == 0
  {
    Pow2Words();
    ModSmall(x, BASE);
    ModSmall(x, Pow2(64));
  }

  /** `rhs << n`: the limbs move up, each taking the top bits of the limb below it. */
  method ShiftLeft(rhs: Wide, n: nat) returns (lhs: Wide)
    requires n < 64 * |rhs|
    ensures |lhs| == |rhs|
    ensures Value(lhs) == (Value(rhs) * Pow2(n)) % Modulus(rhs)
  {
    hide Pow2, Shl, Shr, Or, Value, Modulus;
    var count, itemsShift, bitShift := |rhs|, n / 64, n % 64;
    lhs := seq(count, _ => 0);
    if bitShift != 0 {
      var overflowShift := 64 - bitShift;
      lhs := lhs[Big(rhs, 0) := Shl(rhs[Big(rhs, itemsShift)], bitShift)];
      var i := 1;
      while i < count - itemsShift
        invariant 1 <= i <= count - itemsShift && |lhs| == count
        invariant lhs[count - i] == Shl(rhs[count - i - itemsShift], bitShift)
        invariant forall t :: count - i < t < count ==> lhs[t] == LeftLimb(rhs, bitShift, t - itemsShift)
      {
        LeftLimbOr(rhs, bitShift, count - i - itemsShift);
        lhs := lhs[Big(rhs, i - 1) := Or(lhs[Big(rhs, i - 1)], Shr(rhs[Big(rhs, itemsShift + i)], overflowShift))];
        lhs := lhs[Big(rhs, i) := Shl(rhs[Big(rhs, itemsShift + i)], bitShift)];
        i := i + 1;
      }
    } else {
      var i := 0;
      while i < count - itemsShift
        invariant 0 <= i <= count - itemsShift && |lhs| == count
        invariant forall t :: count - i <= t < count ==> lhs[t] == rhs[t - itemsShift]
      {
        lhs := lhs[Big(rhs, i) := rhs[Big(rhs, itemsShift + i)]];
        i := i + 1;
      }
      forall t | itemsShift <= t < count ensures lhs[t] == LeftLimb(rhs, bitShift, t - itemsShift) {
        NoBitShift(rhs[t - itemsShift]);
        if t > itemsShift {
          NoBitShift(rhs[t - itemsShift - 1]);
        }
      }
    }
    var i := 0;
    ghost var high := lhs;
    while i < itemsShift
      invariant 0 <= i <= itemsShift && |lhs| == count
      invariant forall t :: 0 <= t < i ==> lhs[t] == 0
      invariant forall t :: itemsShift <= t < count ==> lhs[t] == high[t]
    {
      lhs := lhs[i := 0];
      i := i + 1;
    }
    ShiftLeftValue(rhs, lhs, n);
  }

  // ---------------------------------------------------------------- shift_right

  /** Limb `t` of `x`, shifted right and joined by the low bits of the limb above. */
  ghost function RightLimb(x: Wide, k: nat, t: nat): nat
    requires t < |x| && k <= 64
  {
    Shr(x[t], k) + (if t + 1 < |x| then Shl(x[t + 1], 64 - k) else 0)
  }

  /** The bits limb `i` loses to the limb below it. */
  ghost function LowBits(x: Wide, k: nat, i: nat): nat {
    if i < |x| then x[i] % Pow2(k) else 0
  }

  lemma {:induction false} RightPrefix(x: Wide, z: Wide, k: nat, items: nat, j: nat)
    requires k <= 64 && items + j <= |x| == |z|
    requires forall t :: 0 <= t < j ==> z[t] == RightLimb(x, k, items + t)
    ensures Prefix(x, items + j) + LowBits(x, k, items + j) * Weight(items + j)
         == Prefix(z, j) * (Pow2(k) * Weight(items)) + Prefix(x, items) + LowBits(x, k, items) * Weight(items)
    decreases j
  {
    hide Pow2, LowBits, RightLimb;
    if j > 0 {
      RightPrefix(x, z, k, items, j - 1);
      RightPrefixStep(x, z, k, items, j - 1);
    }
  }

  lemma RightPrefixStep(x: Wide, z: Wide, k: nat, items: nat, j: nat)
    requires k <= 64 && items + j < |x| == |z|
    requires z[j] == RightLimb(x, k, items + j)
    requires Prefix(x, items + j) + LowBits(x, k, items + j) * Weight(items + j)
          == Prefix(z, j) * (Pow2(k) * Weight(items)) + Prefix(x, items) + LowBits(x, k, items) * Weight(items)
    ensures Prefix(x, items + j + 1) + LowBits(x, k, items + j + 1) * Weight(items + j + 1)
         == Prefix(z, j + 1) * (Pow2(k) * Weight(items)) + Prefix(x, items) + LowBits(x, k, items) * Weight(items)
  {
    hide Pow2, Prefix, Weight, Shl, Shr;
    var i := items + j;
    LimbParts(x, k, i);
    PrefixStep(x, i);
    PrefixStep(z, j);
    WeightAdd(items, j);
    WeightAdd(i, 1);
    WeightOne();
    RightAlgebra(x[i], z[j], Shr(x[i], k), LowBits(x, k, i), LowBits(x, k, i + 1), Pow2(k), Pow2(64 - k), Weight(items), Weight(j), Prefix(z, j));
  }

  /** A limb is its shifted part and its low bits; the result limb takes the low bits of the next. */
  lemma LimbParts(x: Wide, k: nat, i: nat)
    requires k <= 64 && i < |x|
    ensures x[i] == Shr(x[i], k) * Pow2(k) + LowBits(x, k, i)
    ensures RightLimb(x, k, i) == Shr(x[i], k) + LowBits(x, k, i + 1) * Pow2(64 - k)
    ensures Pow2(k) * Pow2(64 - k) == BASE
  {
    BaseSplit(k);
    var q, r := DivIdentity(x[i], Pow2(k));
    DivModUnique(x[i], Pow2(k), q, r);
    if i + 1 < |x| {
      ShlParts(x[i + 1], 64 - k);
    }
  }

  lemma RightAlgebra(x: int, z: int, hi: int, l0: int, l1: int, p: int, h: int, wi: int, wj: int, pz: int)
    requires x == hi * p + l0 && z == hi + l1 * h && p * h == BASE
    ensures x * (wi * wj) + l1 * (wi * wj * BASE) - l0 * (wi * wj) == (pz + z * wj) * (p * wi) - pz * (p * wi)
  {
    var w := wi * wj;
    assert (pz + z * wj) * (p * wi) - pz * (p * wi) == (z * p) * w;
    assert z * p == hi * p + l1 * BASE by { assert (l1 * h) * p == l1 * (p * h); }
    assert (hi * p + l0) * w - l0 * w == (hi * p) * w;
    assert (hi * p + l1 * BASE) * w == (hi * p) * w + l1 * (w * BASE);
  }

  /** Whatever the limbs at the top, the low ones hold the quotient. */
  lemma ShiftRightValue(x: Wide, z: Wide, n: nat)
    requires n / 64 < |x| == |z|
    requires forall t :: 0 <= t < |x| - n / 64 ==> z[t] == RightLimb(x, n % 64, n / 64 + t)
    ensures Prefix(z, |x| - n / 64) == Value(x) / Pow2(n)
  {
    hide Pow2, Prefix, Weight, RightLimb;
    var k, items := n % 64, n / 64;
    var j := |x| - items;
    RightPrefix(x, z, k, items, j);
    Pow2OfShift(n);
    PrefixBound(x, items);
    LowBitsBound(x, k, items);
    var r := Prefix(x, items) + LowBits(x, k, items) * Weight(items);
    RemainderBound(Prefix(x, items), LowBits(x, k, items), Weight(items), Pow2(k));
    assert LowBits(x, k, |x|) * Weight(|x|) == 0;
    DivModUnique(Value(x), Pow2(n), Prefix(z, j), r);
  }

  lemma LowBitsBound(x: Wide, k: nat, i: nat)
    ensures LowBits(x, k, i) < Pow2(k)
  {
  }

  lemma RemainderBound(p: nat, l: nat, w: nat, q: nat)
    requires p < w && l < q
    ensures 0 <= p + l * w < q * w
  {
    MulMonotone(l + 1, q, w);
  }

  lemma RightLimbOr(x: Wide, k: nat, t: nat)
    requires t + 1 < |x| && k <= 64
    ensures Or(Shr(x[t], k), Shl(x[t + 1], 64 - k)) == RightLimb(x, k, t) < BASE
  {
    OrOfParts(x[t + 1], x[t], 64 - k);
    OrSymmetric(Shr(x[t], k), Shl(x[t + 1], 64 - k));
  }

  lemma NoBitShiftRight(x: Wide, t: nat)
    requires t < |x|
    ensures RightLimb(x, 0, t) == x[t]
  {
    Pow2Words();
    if t + 1 < |x| {
      ModOfMultiple(0, x[t + 1], BASE);
    }
  }

  /** The limbs of `rhs >> n` before the vacated top is filled. */
  method ShiftRightLimbs(rhs: Wide, n: nat) returns (lhs: Wide)
    requires n < 64 * |rhs|
    ensures |lhs| == |rhs|
    ensures forall t :: 0 <= t < |rhs| - n / 64 ==> lhs[t] == RightLimb(rhs, n % 64, n / 64 + t)
  {
    hide Pow2, Shl, Shr, Or;
    var count, itemsShift, bitShift := |rhs|, n / 64, n % 64;
    lhs := seq(count, _ => 0);
    if bitShift != 0 {
      var overflowShift := 64 - bitShift;
      lhs := lhs[0 := Shr(rhs[itemsShift], bitShift)];
      var i := 1;
      while i < count - itemsShift
        invariant 1 <= i <= count - itemsShift && |lhs| == count
        invariant lhs[i - 1] == Shr(rhs[itemsShift + i - 1], bitShift)
        invariant forall t :: 0 <= t < i - 1 ==> lhs[t] == RightLimb(rhs, bitShift, itemsShift + t)
      {
        RightLimbOr(rhs, bitShift, itemsShift + i - 1);
        lhs := lhs[i - 1 := Or(lhs[i - 1], Shl(rhs[itemsShift + i], overflowShift))];
        lhs := lhs[i := Shr(rhs[itemsShift + i], bitShift)];
        i := i + 1;
      }
    } else {
      var i := 0;
      while i < count - itemsShift
        invariant 0 <= i <= count - itemsShift && |lhs| == count
        invariant forall t :: 0 <= t < i ==> lhs[t] == RightLimb(rhs, bitShift, itemsShift + t)
      {
        NoBitShiftRight(rhs, itemsShift + i);
        lhs := lhs[i := rhs[itemsShift + i]];
        i := i + 1;
      }
    }
  }

  // ---------------------------------------------------------------- signed values

  /** is_negative: the sign is the top bit. */
  predicate Negative(x: Wide) {
    |x| > 0 && x[|x| - 1] >= 0x8000_0000_0000_0000
  }

  /** The number an unsigned or a two's complement integer stands for. */
  function Meaning(x: Wide, signed: bool): int {
    if signed && Negative(x) then Value(x) - Modulus(x) else Value(x)
  }

  lemma NegativeValue(x: Wide)
    requires |x| > 0
    ensures Negative(x) <==> 2 * Value(x) >= Modulus(x)
  {
    var i := |x| - 1;
    var d: int, w := x[i], Weight(i);
    PrefixBound(x, i);
    PrefixStep(x, i);
    assert Modulus(x) == BASE * w;
    hide Weight, Prefix;
    if Negative(x) {
      MulMonotone(0x8000_0000_0000_0000, d, w);
    } else {
      MulMonotone(d + 1, 0x8000_0000_0000_0000, w);
      assert (d + 1) * w == d * w + w;
    }
  }

  /** Limbs of ones make up the difference of two weights. */
  lemma {:induction false} OnesPrefix(z: Wide, i: nat, j: nat)
    requires i <= j <= |z| && forall t :: i <= t < j ==> z[t] == BASE - 1
    ensures Prefix(z, j) == Prefix(z, i) + Weight(j) - Weight(i)
    decreases j
  {
    if i < j {
      OnesPrefix(z, i, j - 1);
      assert (BASE - 1) * Weight(j - 1) == BASE * Weight(j - 1) - Weight(j - 1);
    }
  }

  /** 2^(Bits - n), the weight of the first bit a right shift by `n` vacates. */
  lemma VacatedWeight(count: nat, n: nat)
    requires n < 64 * count
    ensures Pow2(64 - n % 64) * Weight(count - 1 - n / 64) * Pow2(n) == Weight(count)
  {
    var k, items := n % 64, n / 64;
    Pow2OfShift(n);
    BaseSplit(k);
    WeightAdd(items, count - 1 - items);
    assert Weight(count) == BASE * Weight(count - 1);
    hide Pow2, Weight;
    VacatedAlgebra(Pow2(64 - k), Pow2(k), Weight(items), Weight(count - 1 - items));
  }

  lemma VacatedAlgebra(h: int, p: int, u: int, v: int)
    requires p * h == BASE
    ensures (h * v) * (p * u) == BASE * (u * v)
  {
    assert (h * v) * (p * u) == (p * h) * (u * v);
  }

  /** The mask for the partly vacated limb. */
  lemma FillMask(x: Limb, k: nat)
    requires 0 < k < 64 && x < Pow2(64 - k)
    ensures Or(x, Shl(BASE - 1, 64 - k)) == x + BASE - Pow2(64 - k) < BASE
  {
    hide Pow2, Or, Shl;
    BaseSplit(k);
    ShlParts(BASE - 1, 64 - k);
    OnesDivided(Pow2(k), Pow2(64 - k));
    OrDisjoint(Pow2(k) - 1, x, 64 - k);
    OrSymmetric(x, (Pow2(k) - 1) * Pow2(64 - k));
  }

  lemma OnesDivided(p: nat, h: nat)
    requires p > 0 && h > 0 && p * h == BASE
    ensures (BASE - 1) % p == p - 1 && (p - 1) * h == BASE - h
  {
    assert (h - 1) * p == h * p - p;
    DivModUnique(BASE - 1, p, h - 1, p - 1);
    assert (p - 1) * h == p * h - h;
  }

  lemma TopLimbSmall(x: Wide, k: nat)
    requires 0 < k < 64 && |x| > 0
    ensures RightLimb(x, k, |x| - 1) < Pow2(64 - k)
  {
    var d := x[|x| - 1];
    BaseSplit(k);
    var q, r := DivIdentity(d, Pow2(k));
    DivModUnique(d, Pow2(k), q, r);
    if q >= Pow2(64 - k) {
      MulMonotone(Pow2(64 - k), q, Pow2(k));
    }
  }

  /** Filling with zeros: plain division. */
  lemma ZeroFill(x: Wide, z: Wide, n: nat)
    requires n < 64 * |x| && |z| == |x|
    requires forall t :: 0 <= t < |x| - n / 64 ==> z[t] == RightLimb(x, n % 64, n / 64 + t)
    requires forall t :: |x| - n / 64 <= t < |x| ==> z[t] == 0
    ensures Value(z) == Value(x) / Pow2(n)
  {
    ShiftRightValue(x, z, n);
    hide RightLimb, Pow2;
    ZeroTail(z, |x| - n / 64, |x|);
  }

  lemma {:induction false} ZeroTail(z: Wide, i: nat, j: nat)
    requires i <= j <= |z| && forall t :: i <= t < j ==> z[t] == 0
    ensures Prefix(z, j) == Prefix(z, i)
    decreases j
  {
    if i < j {
      ZeroTail(z, i, j - 1);
    }
  }

  /** Filling with ones adds 2^Bits - 2^(Bits - n). */
  lemma OnesFill(x: Wide, z: Wide, z': Wide, n: nat)
    requires n < 64 * |x| && |z| == |z'| == |x|
    requires forall t :: 0 <= t < |x| - n / 64 ==> z[t] == RightLimb(x, n % 64, n / 64 + t)
    requires forall t :: 0 <= t < |x| - 1 - n / 64 ==> z'[t] == z[t]
    requires z'[|x| - 1 - n / 64] == if n % 64 == 0 then z[|x| - 1 - n / 64]
                                    else Or(z[|x| - 1 - n / 64], Shl(BASE - 1, 64 - n % 64))
    requires forall t :: |x| - n / 64 <= t < |x| ==> z'[t] == BASE - 1
    ensures Value(z') == Value(x) / Pow2(n) + Weight(|x|) - Pow2(64 - n % 64) * Weight(|x| - 1 - n / 64)
  {
    hide Pow2, Weight, Prefix, RightLimb, Or, Shl;
    var k, top := n % 64, |x| - 1 - n / 64;
    ShiftRightValue(x, z, n);
    PrefixSame(z, z', top);
    OnesPrefix(z', top + 1, |x|);
    PrefixStep(z, top);
    PrefixStep(z', top);
    TopLimbFill(x, z[top], k);
    WeightAdd(top, 1);
    WeightOne();
    OnesAlgebra(z[top], z'[top], Pow2(64 - k), Weight(top));
  }

  lemma OnesAlgebra(d: int, d': int, h: int, w: int)
    requires d' == d + BASE - h
    ensures d' * w == d * w + w * BASE - h * w
  {
  }

  lemma TopLimbFill(x: Wide, d: Limb, k: nat)
    requires k < 64 && |x| > 0 && d == RightLimb(x, k, |x| - 1)
    ensures (if k == 0 then d as nat else Or(d, Shl(BASE - 1, 64 - k))) == d + BASE - Pow2(64 - k) < BASE
  {
    if k > 0 {
      TopLimbSmall(x, k);
      FillMask(d, k);
    } else {
      Pow2Words();
    }
  }

  /** `rhs >> n` divides, rounding down, for unsigned and two's complement integers alike. */
  method ShiftRight(rhs: Wide, n: nat, signed: bool) returns (lhs: Wide)
    requires n < 64 * |rhs|
    ensures |lhs| == |rhs|
    ensures Meaning(lhs, signed) == Meaning(rhs, signed) / Pow2(n)
  {
    hide Pow2, Shl, Or, RightLimb, Value, Modulus, Meaning;
    var count, itemsShift, bitShift := |rhs|, n / 64, n % 64;
    lhs := ShiftRightLimbs(rhs, n);
    ghost var low := lhs;
    if signed && Negative(rhs) {
      if bitShift != 0 {
        TopLimbFill(rhs, low[count - 1 - itemsShift], bitShift);
        Pow2Positive(64 - bitShift);
        lhs := lhs[Big(rhs, itemsShift) := Or(lhs[Big(rhs, itemsShift)], Shl(BASE - 1, 64 - bitShift))];
      }
      ghost var mid := lhs;
      var i := 0;
      while i < itemsShift
        invariant 0 <= i <= itemsShift && |lhs| == count
        invariant forall t :: count - i <= t < count ==> lhs[t] == BASE - 1
        invariant forall t :: 0 <= t < count - itemsShift ==> lhs[t] == mid[t]
      {
        lhs := lhs[Big(rhs, i) := BASE - 1];
        i := i + 1;
      }
      OnesFill(rhs, low, lhs, n);
      NegativeShift(rhs, lhs, n);
    } else {
      var i := 0;
      while i < itemsShift
        invariant 0 <= i <= itemsShift && |lhs| == count
        invariant forall t :: count - i <= t < count ==> lhs[t] == 0
        invariant forall t :: 0 <= t < count - itemsShift ==> lhs[t] == low[t]
      {
        lhs := lhs[Big(rhs, i) := 0];
        i := i + 1;
      }
      ZeroFill(rhs, lhs, n);
      NonNegativeShift(rhs, lhs, n, signed);
    }
  }

  lemma Pow2Positive(k: nat)
    ensures Pow2(k) > 0
  {
  }

  lemma NegativeShift(x: Wide, z: Wide, n: nat)
    requires n < 64 * |x| && |z| == |x| && Negative(x)
    requires Value(z) == Value(x) / Pow2(n) + Weight(|x|) - Pow2(64 - n % 64) * Weight(|x| - 1 - n / 64)
    ensures Meaning(z, true) == Meaning(x, true) / Pow2(n)
  {
    hide Pow2, Weight, Prefix, Value;
    var v := Pow2(64 - n % 64) * Weight(|x| - 1 - n / 64);
    VacatedWeight(|x|, n);
    NegativeValue(x);
    NegativeValue(z);
    var q, r := DivIdentity(Value(x), Pow2(n));
    DivModUnique(Value(x), Pow2(n), q, r);
    ModOfMultiple(Value(x), -v, Pow2(n));
    NegativeQuotient(Value(x), q, r, Pow2(n), v, Modulus(x));
  }

  /** At least half of the range before the shift, so at least half of it after. */
  lemma NegativeQuotient(x: int, q: int, r: int, p: int, v: int, m: int)
    requires p > 0 && x == q * p + r && 0 <= r < p && v * p == m && 2 * x >= m > 0
    ensures (-v) * p == -m
    ensures 2 * (q + m - v) >= m
  {
    if 2 * q + 2 <= v {
      MulMonotone(2 * q + 2, v, p);
      DoubleSuccessor(q, p);
    } else if v <= 0 {
      MulMonotone(v, 0, p);
    } else if p > 1 {
      MulMonotone(2, p, v);
    }
  }

  lemma DoubleSuccessor(q: int, p: int)
    ensures (2 * q + 2) * p == 2 * (q * p) + 2 * p
  {
  }

  lemma NonNegativeShift(x: Wide, z: Wide, n: nat, signed: bool)
    requires |z| == |x| > 0 && (signed ==> !Negative(x))
    requires Value(z) == Value(x) / Pow2(n)
    ensures Meaning(z, signed) == Meaning(x, signed) / Pow2(n)
  {
    hide Pow2, Weight, Prefix, Value;
    NegativeValue(x);
    NegativeValue(z);
    ShrSmall(Value(x), n);
  }
}
