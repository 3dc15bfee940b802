/** Wide integers as little-endian sequences of 64-bit limbs: value, addition, subtraction, comparison. */
module WideInteger {
  import opened Arith

  const BASE: nat := 0x1_0000_0000_0000_0000

  type Limb = x: nat | x < 0x1_0000_0000_0000_0000

  /** The `items` of an integer of `64 * |items|` bits. */
  type Wide = seq<Limb>

  function Weight(i: nat): (w: nat)
    ensures w > 0
  {
    if i == 0 then 1 else BASE * Weight(i - 1)
  }

  lemma {:induction false} WeightIsPow2(i: nat)
    ensures Weight(i) == Pow2(64 * i)
  {
    if i > 0 {
      WeightIsPow2(i - 1);
      Pow2Words();
      Pow2Add(64, 64 * (i - 1));
    }
  }

  /** The value of the `i` low limbs. */
  function Prefix(x: Wide, i: nat): nat
    requires i <= |x|
  {
    if i == 0 then 0 else Prefix(x, i - 1) + x[i - 1] * Weight(i - 1)
  }

  function Value(x: Wide): nat {
    Prefix(x, |x|)
  }

  /** 2^Bits */
  function Modulus(x: Wide): nat {
    Weight(|x|)
  }

  lemma PrefixStep(x: Wide, i: nat)
    requires i < |x|
    ensures Prefix(x, i + 1) == Prefix(x, i) + x[i] * Weight(i)
    ensures x[i] > 0 ==> x[i] * Weight(i) > 0
  {
    if x[i] > 0 {
      MulMonotone(1, x[i], Weight(i));
    }
  }

  lemma {:induction false} PrefixBound(x: Wide, i: nat)
    requires i <= |x|
    ensures Prefix(x, i) < Weight(i)
  {
    if i > 0 {
      PrefixBound(x, i - 1);
      var d: int := x[i - 1];
      MulMonotone(d + 1, BASE, Weight(i - 1));
      assert (d + 1) * Weight(i - 1) == d * Weight(i - 1) + Weight(i - 1);
    }
  }

  lemma {:induction false} PrefixSame(x: Wide, y: Wide, i: nat)
    requires i <= |x| && i <= |y|
    requires forall j :: 0 <= j < i ==> x[j] == y[j]
    ensures Prefix(x, i) == Prefix(y, i)
  {
    if i > 0 {
      PrefixSame(x, y, i - 1);
    }
  }

  /** get_item: limbs above a narrower operand read as zero. */
  function Item(x: Wide, i: nat): Limb {
    if i < |x| then x[i] else 0
  }

  /** `x` widened with zero limbs to `n` limbs. */
  function Extend(x: Wide, n: nat): (y: Wide)
    ensures |y| == n && forall i :: 0 <= i < n ==> y[i] == Item(x, i)
  {
    seq(n, i requires 0 <= i < n => Item(x, i))
  }

  lemma {:induction false} ExtendValue(x: Wide, n: nat, i: nat)
    requires |x| <= n && i <= n
    ensures Prefix(Extend(x, n), i) == Prefix(x, if i <= |x| then i else |x|)
  {
    if i > 0 {
      ExtendValue(x, n, i - 1);
    }
  }

  lemma ExtendKeepsValue(x: Wide, n: nat)
    requires |x| <= n
    ensures Value(Extend(x, n)) == Value(x)
  {
    ExtendValue(x, n, n);
  }

  // ---------------------------------------------------------------- plus

  /** 64-bit addition wraps; so does subtraction. */
  function AddLimb(x: Limb, y: Limb, carry: nat): Limb
    requires carry <= 1
  {
    var s: int := x as int + y as int + carry;
    if s >= BASE then s - BASE else s
  }

  function SubLimb(x: Limb, y: Limb, borrow: nat): Limb
    requires borrow <= 1
  {
    var s: int := x as int - y as int - borrow;
    if s < 0 then s + BASE else s
  }

  /** The carry into limb `i` of `x + y`. */
  ghost function Carry(x: Wide, y: Wide, i: nat): (c: nat)
    requires i <= |x| == |y|
    ensures c <= 1
  {
    if i == 0 then 0 else if x[i - 1] as int + y[i - 1] as int + Carry(x, y, i - 1) >= BASE then 1 else 0
  }

  lemma CarryNext(x: Wide, y: Wide, i: nat)
    requires i < |x| == |y|
    ensures Carry(x, y, 0) == 0
    ensures Carry(x, y, i + 1) == if x[i] as int + y[i] as int + Carry(x, y, i) >= BASE then 1 else 0
  {
  }

  lemma {:induction false} CarryValue(x: Wide, y: Wide, z: Wide, i: nat)
    requires i <= |x| == |y| == |z|
    requires forall j :: 0 <= j < i ==> z[j] == AddLimb(x[j], y[j], Carry(x, y, j))
    ensures Prefix(z, i) + Carry(x, y, i) * Weight(i) == Prefix(x, i) + Prefix(y, i)
  {
    if i > 0 {
      CarryValue(x, y, z, i - 1);
      var c := Carry(x, y, i);
      assert z[i - 1] as int + c * BASE == x[i - 1] as int + y[i - 1] as int + Carry(x, y, i - 1);
      DistributeLimb(z[i - 1], c, x[i - 1], y[i - 1], Carry(x, y, i - 1), Weight(i - 1));
    }
  }

  lemma DistributeLimb(z: int, c: int, x: int, y: int, c0: int, w: int)
    requires z + c * BASE == x + y + c0
    ensures z * w + c * (BASE * w) == x * w + y * w + c0 * w
  {
    assert (z + c * BASE) * w == z * w + c * (BASE * w);
    assert (x + y + c0) * w == x * w + y * w + c0 * w;
  }

  /** First pass: the sums of the limbs and which of them overflowed. */
  method AddLimbs(lhs: Wide, rhs: Wide, ghost y: Wide) returns (res: Wide, overflows: seq<bool>)
    requires |rhs| <= |lhs| && y == Extend(rhs, |lhs|)
    ensures |res| == |overflows| == |lhs|
    ensures forall j :: 0 <= j < |lhs| ==> res[j] == AddLimb(lhs[j], y[j], 0)
    ensures forall j :: 0 <= j < |lhs| ==> overflows[j] == (lhs[j] as int + y[j] as int >= BASE)
  {
    res := lhs;
    overflows := seq(|lhs|, _ => false);
    var i := 0;
    while i < |rhs|
      invariant 0 <= i <= |rhs| && |res| == |overflows| == |lhs|
      invariant forall j :: 0 <= j < i ==> res[j] == AddLimb(lhs[j], y[j], 0)
      invariant forall j :: 0 <= j < i ==> overflows[j] == (lhs[j] as int + y[j] as int >= BASE)
      invariant forall j :: i <= j < |lhs| ==> res[j] == lhs[j] && !overflows[j]
    {
      var sum := AddLimb(res[i], rhs[i], 0);
      res := res[i := sum];
      overflows := overflows[i := sum < rhs[i]];
      i := i + 1;
    }
  }

  /** Adding the carry afterwards; the limb wraps to zero exactly when that is a new overflow. */
  lemma CarryStep(x: Limb, y: Limb)
    ensures AddLimb(AddLimb(x, y, 0), 1, 0) == AddLimb(x, y, 1)
    ensures x as int + y as int + 1 >= BASE <==> x as int + y as int >= BASE || AddLimb(x, y, 1) == 0
  {
  }

  /** `lhs + rhs` in two passes: add the limbs, noting overflows, then ripple the carries. */
  method Plus(lhs: Wide, rhs: Wide) returns (res: Wide)
    requires |rhs| <= |lhs|
    ensures |res| == |lhs|
    ensures Value(res) == (Value(lhs) + Value(rhs)) % Modulus(lhs)
  {
    hide Prefix, Weight, Value, Modulus, Extend, AddLimb, Carry;
    var n := |lhs|;
    ghost var y := Extend(rhs, n);
    var overflows;
    res, overflows := AddLimbs(lhs, rhs, y);
    if n > 0 {
      CarryNext(lhs, y, 0);
    }
    var i := 1;
    while i < n
      invariant 0 < i && (i <= n || n == 0) && |res| == |overflows| == n
      invariant n > 0 ==> overflows[i - 1] == (Carry(lhs, y, i) == 1)
      invariant forall j :: 0 <= j < i && j < n ==> res[j] == AddLimb(lhs[j], y[j], Carry(lhs, y, j))
      invariant forall j :: i <= j < n ==> res[j] == AddLimb(lhs[j], y[j], 0)
      invariant forall j :: i <= j < n ==> overflows[j] == (lhs[j] as int + y[j] as int >= BASE)
    {
      CarryNext(lhs, y, i);
      CarryStep(lhs[i], y[i]);
      if overflows[i - 1] {
        res := res[i := AddLimb(res[i], 1, 0)];
        if res[i] == 0 {
          overflows := overflows[i := true];
        }
      }
      i := i + 1;
    }
    PlusValue(lhs, rhs, y, res);
  }

  lemma PlusValue(lhs: Wide, rhs: Wide, y: Wide, res: Wide)
    requires |rhs| <= |lhs| == |res| && y == Extend(rhs, |lhs|)
    requires forall j :: 0 <= j < |lhs| ==> res[j] == AddLimb(lhs[j], y[j], Carry(lhs, y, j))
    ensures Value(res) == (Value(lhs) + Value(rhs)) % Modulus(lhs)
  {
    hide Prefix, Weight, Carry, Borrow, AddLimb, SubLimb, Extend;
    var n := |lhs|;
    CarryValue(lhs, y, res, n);
    ExtendKeepsValue(rhs, n);
    PrefixBound(res, n);
    DivModUnique(Value(lhs) + Value(rhs), Modulus(lhs), Carry(lhs, y, n), Value(res));
  }

  // ---------------------------------------------------------------- minus

  /** The borrow out of limb `i` of `x - y`. */
  ghost function Borrow(x: Wide, y: Wide, i: nat): (b: nat)
    requires i <= |x| == |y|
    ensures b <= 1
  {
    if i == 0 then 0 else if x[i - 1] as int < y[i - 1] as int + Borrow(x, y, i - 1) then 1 else 0
  }

  lemma BorrowNext(x: Wide, y: Wide, i: nat)
    requires i < |x| == |y|
    ensures Borrow(x, y, 0) == 0
    ensures Borrow(x, y, i + 1) == if (x[i] as int) < y[i] as int + Borrow(x, y, i) then 1 else 0
  {
  }

  lemma {:induction false} BorrowValue(x: Wide, y: Wide, z: Wide, i: nat)
    requires i <= |x| == |y| == |z|
    requires forall j :: 0 <= j < i ==> z[j] == SubLimb(x[j], y[j], Borrow(x, y, j))
    ensures Prefix(z, i) + Prefix(y, i) == Prefix(x, i) + Borrow(x, y, i) * Weight(i)
  {
    if i > 0 {
      BorrowValue(x, y, z, i - 1);
      var b := Borrow(x, y, i);
      assert x[i - 1] as int + b * BASE == z[i - 1] as int + y[i - 1] as int + Borrow(x, y, i - 1);
      DistributeLimb(x[i - 1], b, z[i - 1], y[i - 1], Borrow(x, y, i - 1), Weight(i - 1));
    }
  }

  method SubLimbs(lhs: Wide, rhs: Wide, ghost y: Wide) returns (res: Wide, underflows: seq<bool>)
    requires |rhs| <= |lhs| && y == Extend(rhs, |lhs|)
    ensures |res| == |underflows| == |lhs|
    ensures forall j :: 0 <= j < |lhs| ==> res[j] == SubLimb(lhs[j], y[j], 0)
    ensures forall j :: 0 <= j < |lhs| ==> underflows[j] == (lhs[j] < y[j])
  {
    res := lhs;
    underflows := seq(|lhs|, _ => false);
    var i := 0;
    while i < |rhs|
      invariant 0 <= i <= |rhs| && |res| == |underflows| == |lhs|
      invariant forall j :: 0 <= j < i ==> res[j] == SubLimb(lhs[j], y[j], 0)
      invariant forall j :: 0 <= j < i ==> underflows[j] == (lhs[j] < y[j])
      invariant forall j :: i <= j < |lhs| ==> res[j] == lhs[j] && !underflows[j]
    {
      underflows := underflows[i := res[i] < rhs[i]];
      res := res[i := SubLimb(res[i], rhs[i], 0)];
      i := i + 1;
    }
  }

  lemma BorrowStep(x: Limb, y: Limb)
    ensures SubLimb(SubLimb(x, y, 0), 1, 0) == SubLimb(x, y, 1)
    ensures (x as int) < y as int + 1 <==> x < y || SubLimb(x, y, 0) == 0
  {
  }

  method Minus(lhs: Wide, rhs: Wide) returns (res: Wide)
    requires |rhs| <= |lhs|
    ensures |res| == |lhs|
    ensures Value(res) == (Value(lhs) - Value(rhs)) % Modulus(lhs)
  {
    hide Prefix, Weight, Value, Modulus, Extend, SubLimb, Borrow;
    var n := |lhs|;
    ghost var y := Extend(rhs, n);
    var underflows;
    res, underflows := SubLimbs(lhs, rhs, y);
    if n > 0 {
      BorrowNext(lhs, y, 0);
    }
    var i := 1;
    while i < n
      invariant 0 < i && (i <= n || n == 0) && |res| == |underflows| == n
      invariant n > 0 ==> underflows[i - 1] == (Borrow(lhs, y, i) == 1)
      invariant forall j :: 0 <= j < i && j < n ==> res[j] == SubLimb(lhs[j], y[j], Borrow(lhs, y, j))
      invariant forall j :: i <= j < n ==> res[j] == SubLimb(lhs[j], y[j], 0)
      invariant forall j :: i <= j < n ==> underflows[j] == (lhs[j] < y[j])
    {
      BorrowNext(lhs, y, i);
      BorrowStep(lhs[i], y[i]);
      if underflows[i - 1] {
        if res[i] == 0 {
          underflows := underflows[i := true];
        }
        res := res[i := SubLimb(res[i], 1, 0)];
      }
      i := i + 1;
    }
    MinusValue(lhs, rhs, y, res);
  }

  lemma MinusValue(lhs: Wide, rhs: Wide, y: Wide, res: Wide)
    requires |rhs| <= |lhs| == |res| && y == Extend(rhs, |lhs|)
    requires forall j :: 0 <= j < |lhs| ==> res[j] == SubLimb(lhs[j], y[j], Borrow(lhs, y, j))
    ensures Value(res) == (Value(lhs) - Value(rhs)) % Modulus(lhs)
  {
    hide Prefix, Weight, Carry, Borrow, AddLimb, SubLimb, Extend;
    var n := |lhs|;
    BorrowValue(lhs, y, res, n);
    ExtendKeepsValue(rhs, n);
    PrefixBound(res, n);
    var b: int := Borrow(lhs, y, n);
    DivModUnique(Value(lhs) - Value(rhs), Modulus(lhs), -b, Value(res));
  }

  // ---------------------------------------------------------------- comparison

  lemma {:induction false} PrefixLess(x: Wide, y: Wide, i: nat)
    requires i < |x| == |y| && x[i] < y[i]
    ensures Prefix(x, i + 1) < Prefix(y, i + 1)
  {
    PrefixBound(x, i);
    var d, e: int := x[i], y[i];
    MulMonotone(d + 1, e, Weight(i));
    assert (d + 1) * Weight(i) == d * Weight(i) + Weight(i);
  }

  /** Equal high limbs do not affect the order of the low ones. */
  lemma {:induction false} PrefixOrder(x: Wide, y: Wide, i: nat, j: nat)
    requires i <= j <= |x| == |y|
    requires forall k :: i <= k < j ==> x[k] == y[k]
    ensures Prefix(x, j) - Prefix(y, j) == Prefix(x, i) - Prefix(y, i)
  {
    if i < j {
      PrefixOrder(x, y, i, j - 1);
    }
  }

  /** Unsigned comparison from the most significant limb down. */
  method Greater(x: Wide, y: Wide) returns (r: bool)
    requires |x| == |y|
    ensures r <==> Value(x) > Value(y)
  {
    var n := |x|;
    var i := 0;
    while i < n
      invariant 0 <= i <= n
      invariant forall k :: n - i <= k < n ==> x[k] == y[k]
    {
      var big := n - 1 - i;
      if x[big] != y[big] {
        PrefixOrder(x, y, big + 1, n);
        if x[big] > y[big] {
          PrefixLess(y, x, big);
        } else {
          PrefixLess(x, y, big);
        }
        return x[big] > y[big];
      }
      i := i + 1;
    }
    PrefixOrder(x, y, 0, n);
    return false;
  }

  lemma ZeroValue(x: Wide)
    ensures Value(x) == 0 <==> forall i :: 0 <= i < |x| ==> x[i] == 0
  {
    var z := Extend([], |x|);
    ExtendKeepsValue([], |x|);
    if forall i :: 0 <= i < |x| ==> x[i] == 0 {
      PrefixSame(x, z, |x|);
    } else {
      var i :| 0 <= i < |x| && x[i] != 0;
      PrefixAtLeast(x, i, |x|);
    }
  }

  lemma {:induction false} PrefixAtLeast(x: Wide, i: nat, j: nat)
    requires i < j <= |x| && x[i] != 0
    ensures Prefix(x, j) > 0
  {
    PrefixStep(x, j - 1);
    if i + 1 < j {
      PrefixAtLeast(x, i, j - 1);
    }
  }

  method IsZero(x: Wide) returns (r: bool)
    ensures r <==> Value(x) == 0
  {
    ZeroValue(x);
    r := true;
    var i := 0;
    while i < |x|
      invariant 0 <= i <= |x|
      invariant r && forall k :: 0 <= k < i ==> x[k] == 0
    {
      if x[i] != 0 {
        return false;
      }
      i := i + 1;
    }
  }

  /** Limbs are determined by the value. */
  lemma ValueInjective(x: Wide, y: Wide)
    requires |x| == |y| && Value(x) == Value(y)
    ensures x == y
  {
    if x != y {
      var i := TopDifference(x, y);
      PrefixOrder(x, y, i + 1, |x|);
      if x[i] < y[i] {
        PrefixLess(x, y, i);
      } else {
        PrefixLess(y, x, i);
      }
    }
  }

  lemma TopDifference(x: Wide, y: Wide) returns (i: nat)
    requires |x| == |y| && x != y
    ensures i < |x| && x[i] != y[i] && forall k :: i < k < |x| ==> x[k] == y[k]
  {
    i := |x|;
    while i > 0 && x[i - 1] == y[i - 1]
      invariant 0 <= i <= |x|
      invariant forall k :: i <= k < |x| ==> x[k] == y[k]
    {
      i := i - 1;
    }
    i := i - 1;
  }
}
