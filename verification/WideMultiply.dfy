/** Multiplication of wide integers: the 256-bit form built from 128-bit halves and the generic
    shift-and-add form. */
module WideMultiply {
  import opened Arith
  import opened WideInteger
  import opened WideShift

  const HALF: nat := 0x1_0000_0000_0000_0000_0000_0000_0000_0000
  const FULL: nat := 0x1_0000_0000_0000_0000_0000_0000_0000_0000_0000_0000_0000_0000_0000_0000_0000_0000

  /** Arithmetic on `unsigned __int128` wraps. */
  function Add(x: nat, y: nat): (z: nat)
    ensures z < HALF
  {
    (x + y) % HALF
  }

  function Mul(x: nat, y: nat): (z: nat)
    ensures z < HALF
  {
    (x * y) % HALF
  }

  /** `x << 64` and `x >> 64` */
  function Up(x: nat): (z: nat)
    ensures z < HALF
  {
    (x * BASE) % HALF
  }

  function Down(x: nat): nat {
    x / BASE
  }

  lemma Value4(x: Wide)
    requires |x| == 4
    ensures Value(x) == x[0] + BASE * x[1] + HALF * (x[2] + BASE * x[3])
    ensures Modulus(x) == FULL
  {
    assert Weight(0) == 1 && Weight(1) == BASE && Weight(2) == HALF;
    assert Weight(3) == BASE * HALF && Weight(4) == FULL;
    assert Prefix(x, 1) == x[0];
    assert Prefix(x, 2) == x[0] + x[1] * BASE;
    assert Prefix(x, 3) == Prefix(x, 2) + x[2] * HALF;
    assert Prefix(x, 4) == Prefix(x, 3) + x[3] * (BASE * HALF);
  }

  lemma LimbProduct(x: nat, y: nat)
    requires x < BASE && y < BASE
    ensures 0 <= x * y < HALF
  {
    MulMonotone(x, BASE - 1, y);
    MulMonotone(0, x, y);
  }

  lemma MulExact(x: nat, y: nat)
    requires x < BASE && y < BASE
    ensures Mul(x, y) == x * y
  {
    LimbProduct(x, y);
    ModSmall(x * y, HALF);
  }

  /** The test `sum < addend` detects the overflow. */
  lemma OverflowTest(x: nat, y: nat)
    requires x < HALF && y < HALF
    ensures Add(x, y) == (if x + y >= HALF then x + y - HALF else x + y)
    ensures Add(x, y) < y <==> x + y >= HALF
  {
  }

  lemma SplitHalf(x: nat)
    requires x < HALF
    ensures Down(x) < BASE && x == BASE * Down(x) + x % BASE
  {
  }

  /** The middle column starts from the high part of `r01` and the low part of `r23`; nothing is lost. */
  lemma MiddleColumn(r01: nat, r23: nat)
    requires r01 < HALF && r23 < HALF
    ensures Add(Down(r01), Up(r23)) == Down(r01) + BASE * (r23 % BASE)
  {
    SplitHalf(r01);
    SplitHalf(r23);
    UpExact(r23);
    hide Up;
    ModSmall(Down(r01) + BASE * (r23 % BASE), HALF);
  }

  lemma UpExact(x: nat)
    requires x < HALF
    ensures Up(x) == BASE * (x % BASE)
  {
    SplitHalf(x);
    DivModUnique(x * BASE, HALF, Down(x), BASE * (x % BASE));
  }

  /** The sum of the three high products, reduced at every step, is the reduced sum. */
  lemma HighColumn(p: nat, q: nat, r: nat, s: nat, t: nat, u: nat)
    ensures Add(Add(Mul(p, q), Mul(r, s)), Mul(t, u)) == (p * q + r * s + t * u) % HALF
  {
    ModAdd(p * q, r * s, HALF);
    ModAdd(p * q + r * s, t * u, HALF);
  }

  /** The middle column, and what it carries into the highest limb. */
  method MiddleLimbs(r01: nat, r23: nat, a0: nat, a1: nat, b0: nat, b1: nat, two: bool)
    returns (r12: nat, res3: Limb, ghost carries: nat)
    requires r01 < HALF && r23 < HALF && a0 < BASE && (!two ==> b1 == 0)
    ensures r12 < HALF && r12 + carries * HALF == Down(r01) + BASE * (r23 % BASE) + Mul(a1, b0) + Mul(a0, b1)
    ensures carries <= 2 && res3 == (Down(r23) + carries) % BASE
  {
    hide Add, Mul, Up, Down;
    r12 := Add(Down(r01), Up(r23));
    var r12x := Mul(a1, b0);
    SplitHalf(r23);
    MiddleColumn(r01, r23);
    res3 := Down(r23);
    carries := 0;
    if two {
      var r12y := Mul(a0, b1);
      OverflowTest(r12x, r12y);
      r12x := Add(r12x, r12y);
      if r12x < r12y {
        res3 := AddLimb(res3, 1, 0);
        carries := carries + 1;
      }
    } else {
      MulExact(a0, 0);
    }
    OverflowTest(r12, r12x);
    r12 := Add(r12, r12x);
    if r12 < r12x {
      res3 := AddLimb(res3, 1, 0);
      carries := carries + 1;
    }
  }

  /** 256-bit product from 128-bit partial products; `rhs` has one, two or four limbs. */
  method Multiply256(lhs: Wide, rhs: Wide) returns (res: Wide)
    requires |lhs| == 4 && (|rhs| == 1 || |rhs| == 2 || |rhs| == 4)
    ensures |res| == 4
    ensures Value(res) == (Value(lhs) * Value(rhs)) % Modulus(lhs)
  {
    hide Add, Mul, Up, Down, Value, Modulus;
    var a01, a23 := lhs[1] * BASE + lhs[0], lhs[3] * BASE + lhs[2];
    var a0: nat, a1: nat := lhs[0], lhs[1];
    var b01 := Item(rhs, 1) * BASE + rhs[0];
    var b0: nat, b1: nat, b23 := rhs[0], 0, 0;
    if |rhs| > 1 {
      b1 := rhs[1];
    }
    if |rhs| > 2 {
      b23 := rhs[3] * BASE + rhs[2];
    }
    var r23 := Add(Add(Mul(a23, b01), Mul(a01, b23)), Mul(a1, b1));
    var r01 := Mul(a0, b0);
    var r12, res3;
    ghost var carries;
    r12, res3, carries := MiddleLimbs(r01, r23, a0, a1, b0, b1, |rhs| > 1);
    SplitHalf(r12);
    res := [r01 % BASE, r12 % BASE, Down(r12), res3];
    Columns(lhs, rhs, res, r01, r23, r12, carries, a0, a1, a01, a23, b0, b1, b01, b23);
  }

  /** The four columns add up to the product modulo 2^256. */
  lemma Columns(lhs: Wide, rhs: Wide, res: Wide, r01: nat, r23: nat, r12: nat, carries: nat,
                a0: nat, a1: nat, a01: nat, a23: nat, b0: nat, b1: nat, b01: nat, b23: nat)
    requires |lhs| == |res| == 4 && |rhs| <= 4
    requires a0 == lhs[0] && a1 == lhs[1] && a01 == a1 * BASE + a0 && a23 == lhs[3] * BASE + lhs[2]
    requires b0 == Item(rhs, 0) && b1 == Item(rhs, 1) && b01 == b1 * BASE + b0 && b23 == Item(rhs, 3) * BASE + Item(rhs, 2)
    requires r01 == Mul(a0, b0) && r23 == Add(Add(Mul(a23, b01), Mul(a01, b23)), Mul(a1, b1))
    requires r12 + carries * HALF == Down(r01) + BASE * (r23 % BASE) + Mul(a1, b0) + Mul(a0, b1)
    requires carries <= 2 && res[3] == (Down(r23) + carries) % BASE
    requires res[0] == r01 % BASE && res[1] == r12 % BASE && res[2] == Down(r12)
    ensures Value(res) == (Value(lhs) * Value(rhs)) % Modulus(lhs)
  {
    hide Add, Mul, Up, Down, Value, Modulus, Extend;
    ValueHalves(lhs, rhs, a01, a23, b01, b23);
    Value4(res);
    HighColumn(a23, b01, a01, b23, a1, b1);
    var big := a23 * b01 + a01 * b23 + a1 * b1;
    var k := ColumnSum(Mul(a0, b0), Mul(a1, b0) + Mul(a0, b1), big, r23, r12, carries, res);
    ValueBound(res);
    MulExact(a0, b0);
    MulExact(a1, b0);
    MulExact(a0, b1);
    ProductModulo(a0, a1, a01, a23, b0, b1, b01, b23, Value(res), k);
  }

  lemma ProductModulo(a0: int, a1: int, a01: int, a23: int, b0: int, b1: int, b01: int, b23: int, v: int, k: int)
    requires a01 == a1 * BASE + a0 && b01 == b1 * BASE + b0
    requires a0 * b0 + BASE * (a1 * b0 + a0 * b1) + HALF * (a23 * b01 + a01 * b23 + a1 * b1) == v + k * FULL
    requires 0 <= v < FULL
    ensures ((a01 + HALF * a23) * (b01 + HALF * b23)) % FULL == v
  {
    LowProduct(a0, a1, b0, b1);
    HighProduct(a01, a23, b01, b23);
    DivModUnique((a01 + HALF * a23) * (b01 + HALF * b23), FULL, a23 * b23 + k, v);
  }

  lemma ValueHalves(lhs: Wide, rhs: Wide, a01: nat, a23: nat, b01: nat, b23: nat)
    requires |lhs| == 4 && |rhs| <= 4
    requires a01 == lhs[1] * BASE + lhs[0] && a23 == lhs[3] * BASE + lhs[2]
    requires b01 == Item(rhs, 1) * BASE + Item(rhs, 0) && b23 == Item(rhs, 3) * BASE + Item(rhs, 2)
    ensures Value(lhs) == a01 + HALF * a23 && Value(rhs) == b01 + HALF * b23
    ensures Modulus(lhs) == FULL
  {
    var y := Extend(rhs, 4);
    Value4(lhs);
    Value4(y);
    ExtendKeepsValue(rhs, 4);
  }

  lemma ColumnSum(p: nat, mid: nat, big: nat, r23: nat, r12: nat, carries: nat, res: Wide) returns (k: nat)
    requires |res| == 4 && r23 == big % HALF
    requires r12 + carries * HALF == Down(p) + BASE * (r23 % BASE) + mid
    requires res[3] == (Down(r23) + carries) % BASE
    requires res[0] == p % BASE && res[1] == r12 % BASE && res[2] == Down(r12)
    ensures p + BASE * mid + HALF * big == res[0] + BASE * res[1] + HALF * (res[2] + BASE * res[3]) + k * FULL
  {
    k := big / HALF + (Down(r23) + carries) / BASE;
  }

  lemma ValueBound(x: Wide)
    ensures Value(x) < Modulus(x)
  {
    PrefixBound(x, |x|);
  }

  /** The product of two 256-bit numbers in terms of the partial products the code forms. */
  lemma LowProduct(a0: int, a1: int, b0: int, b1: int)
    ensures (a1 * BASE + a0) * (b1 * BASE + b0) == a0 * b0 + BASE * (a1 * b0 + a0 * b1) + HALF * (a1 * b1)
  {
  }

  lemma HighProduct(a01: int, a23: int, b01: int, b23: int)
    ensures (a01 + HALF * a23) * (b01 + HALF * b23) == a01 * b01 + HALF * (a23 * b01 + a01 * b23) + (a23 * b23) * FULL
  {
  }

  // ---------------------------------------------------------------- generic multiply

  method AddShifted(res0: Wide, x: Wide, pos: nat) returns (res: Wide)
    requires |x| == |res0| && pos < 64 * |x|
    ensures |res| == |x|
    ensures Value(res) == (Value(res0) + Value(x) * Pow2(pos)) % Modulus(x)
  {
    var shifted := ShiftLeft(x, pos);
    res := Plus(res0, shifted);
    hide Pow2, Value, Prefix, Weight;
    ModAdd(Value(x) * Pow2(pos), Value(res0), Modulus(x));
  }

  /** Taking `b` low bits `c` off the multiplier and adding `c` times the shifted multiplicand. */
  lemma MultiplyStep(m: nat, total: int, v: int, v': int, l: int, cl: int, c: int, h: int, item: int, q: int, p: int)
    requires m > 0
    requires (v + l * (item * p)) % m == total % m
    requires item == h * q + c && cl % m == (c * l) % m && v' == (v + cl * p) % m
    ensures (v' + l * (h * (p * q))) % m == total % m
  {
    var k := ModWitness(cl, c * l, m);
    StepAlgebra(v, l, cl, c, h, item, q, p, k, m);
    ModAdd(v + cl * p, l * (h * (p * q)), m);
    SameResidue(v + cl * p + l * (h * (p * q)), v + l * (item * p), k * p, m);
  }

  lemma StepAlgebra(v: int, l: int, cl: int, c: int, h: int, item: int, q: int, p: int, k: int, m: int)
    requires item == h * q + c && cl == c * l + k * m
    ensures v + cl * p + l * (h * (p * q)) == v + l * (item * p) + (k * p) * m
  {
    assert cl * p == l * (c * p) + (k * p) * m;
    assert l * (item * p) == l * ((h * q) * p) + l * (c * p);
    assert l * ((h * q) * p) == l * (h * (p * q));
  }

  /** One limb of the multiplier, three, two or one bits at a time. */
  method MultiplyLimb(res0: Wide, lhs: Wide, lhs2: Wide, lhs3: Wide, item0: Limb, pos0: nat) returns (res: Wide)
    requires |lhs| == |lhs2| == |lhs3| == |res0| > 0 && pos0 + 64 <= 64 * |lhs|
    requires Value(lhs2) % Modulus(lhs) == (3 * Value(lhs)) % Modulus(lhs)
    requires Value(lhs3) % Modulus(lhs) == (7 * Value(lhs)) % Modulus(lhs)
    ensures |res| == |lhs|
    ensures Value(res) == (Value(res0) + Value(lhs) * (item0 * Pow2(pos0))) % Modulus(lhs)
  {
    hide Pow2, Value, Prefix, Weight, Modulus;
    ghost var m, l := Modulus(lhs), Value(lhs);
    ghost var total := Value(res0) + l * (item0 * Pow2(pos0));
    res := res0;
    var item: nat, pos := item0, pos0;
    ModulusPositive(lhs);
    Pow2Words();
    while item != 0
      invariant |res| == |lhs| && pos0 <= pos <= pos0 + 64
      invariant m == Modulus(lhs) > 0 && l == Value(lhs)
      invariant item < Pow2(pos0 + 64 - pos)
      invariant (Value(res) + l * (item * Pow2(pos))) % m == total % m
      decreases item
    {
      ghost var v := Value(res);
      if item % 8 == 7 {
        BitsLeft(item, pos0 + 64 - pos, 3);
        res := AddShifted(res, lhs3, pos);
        SameModulus(lhs, lhs3);
        NextPosition(pos, 3);
        MultiplyStep(m, total, v, Value(res), l, Value(lhs3), 7, item / 8, item, 8, Pow2(pos));
        item, pos := item / 8, pos + 3;
      } else if item % 4 == 3 {
        BitsLeft(item, pos0 + 64 - pos, 2);
        res := AddShifted(res, lhs2, pos);
        SameModulus(lhs, lhs2);
        NextPosition(pos, 2);
        MultiplyStep(m, total, v, Value(res), l, Value(lhs2), 3, item / 4, item, 4, Pow2(pos));
        item, pos := item / 4, pos + 2;
      } else {
        BitsLeft(item, pos0 + 64 - pos, 1);
        NextPosition(pos, 1);
        if item % 2 == 1 {
          res := AddShifted(res, lhs, pos);
          MultiplyStep(m, total, v, Value(res), l, l, 1, item / 2, item, 2, Pow2(pos));
        } else {
          EvenStep(l, item, Pow2(pos));
        }
        item, pos := item / 2, pos + 1;
      }
    }
    NothingLeft(l, Pow2(pos));
    ValueBound(res);
    SameModulus(res, lhs);
    ModSmall(Value(res), m);
  }

  lemma NothingLeft(l: int, p: int)
    ensures l * (0 * p) == 0
  {
  }

  lemma EvenStep(l: int, item: int, p: int)
    requires item % 2 == 0
    ensures l * (item * p) == l * ((item / 2) * (p * 2))
  {
    var h := item / 2;
    assert (2 * h) * p == h * (p * 2);
  }

  lemma NextPosition(pos: nat, b: nat)
    requires 1 <= b <= 3
    ensures Pow2(pos + b) == Pow2(pos) * (if b == 1 then 2 else if b == 2 then 4 else 8)
  {
    Pow2Add(pos, b);
    assert Pow2(1) == 2 && Pow2(2) == 4 && Pow2(3) == 8;
  }

  /** A multiplier that ends in `b` ones has at least `b` bits to go. */
  lemma BitsLeft(item: nat, left: nat, b: nat)
    requires 1 <= b <= 3 && 0 < item < Pow2(left)
    requires b == 3 ==> item % 8 == 7
    requires b == 2 ==> item % 4 == 3
    ensures b <= left
    ensures b == 1 ==> item / 2 < Pow2(left - 1)
    ensures b == 2 ==> item / 4 < Pow2(left - 2)
    ensures b == 3 ==> item / 8 < Pow2(left - 3)
  {
    assert Pow2(0) == 1 && Pow2(1) == 2 && Pow2(2) == 4;
    if left >= 1 { assert Pow2(left) == 2 * Pow2(left - 1); }
    if left >= 2 { assert Pow2(left - 1) == 2 * Pow2(left - 2); }
    if left >= 3 { assert Pow2(left - 2) == 2 * Pow2(left - 3); }
  }

  /** The product for any width, from sums of shifted multiples 1x, 3x and 7x of `lhs`. */
  method MultiplyGeneric(lhs: Wide, rhs: Wide) returns (res: Wide)
    requires 0 < |lhs| && |rhs| <= |lhs|
    ensures |res| == |lhs|
    ensures Value(res) == (Value(lhs) * Value(rhs)) % Modulus(lhs)
  {
    hide Pow2, Value, Prefix, Weight, Modulus;
    var n := |lhs|;
    ghost var y := Extend(rhs, n);
    ghost var m, l := Modulus(lhs), Value(lhs);
    res := seq(n, _ => 0);
    ZeroValue(res);
    var lhs2 := AddShifted(lhs, lhs, 1);
    var lhs3 := AddShifted(lhs2, lhs, 2);
    ModulusPositive(lhs);
    Multiples(l, m, Value(lhs2), Value(lhs3));
    NoLimbs(lhs, y, m);
    var i := 0;
    while i < n
      invariant 0 <= i <= n && |res| == n
      invariant m == Modulus(lhs) > 0 && l == Value(lhs)
      invariant Value(res) == (l * Prefix(y, i)) % m
    {
      ghost var v := Value(res);
      res := MultiplyLimb(res, lhs, lhs2, lhs3, Item(rhs, i), 64 * i);
      PrefixStep(y, i);
      WeightIsPow2(i);
      LimbAdded(l, Prefix(y, i), y[i], Weight(i), m);
      i := i + 1;
    }
    ExtendKeepsValue(rhs, n);
    WholePrefix(y);
  }

  lemma Multiples(l: nat, m: nat, l2: nat, l3: nat)
    requires m > 0 && l2 == (l + l * Pow2(1)) % m && l3 == (l2 + l * Pow2(2)) % m
    ensures l2 % m == (3 * l) % m && l3 % m == (7 * l) % m
  {
    assert Pow2(1) == 2 && Pow2(2) == 4;
    hide Pow2;
    ModMod(3 * l, m);
    ModAdd(3 * l, 4 * l, m);
    ModMod(7 * l, m);
  }

  lemma NoLimbs(x: Wide, y: Wide, m: nat)
    requires m > 0
    ensures (Value(x) * Prefix(y, 0)) % m == 0
  {
    ModSmall(0, m);
  }

  lemma LimbAdded(l: int, p: int, d: int, w: int, m: nat)
    requires m > 0
    ensures ((l * p) % m + l * (d * w)) % m == (l * (p + d * w)) % m
  {
    ModAdd(l * p, l * (d * w), m);
    assert l * (p + d * w) == l * p + l * (d * w);
  }

  lemma WholePrefix(y: Wide)
    ensures Value(y) == Prefix(y, |y|)
  {
  }

  lemma ModulusPositive(x: Wide)
    ensures Modulus(x) > 0
  {
  }

  lemma SameModulus(x: Wide, y: Wide)
    requires |x| == |y|
    ensures Modulus(x) == Modulus(y)
  {
  }

  // ---------------------------------------------------------------- 128 bits in native words

  lemma Value2(x: Wide)
    requires |x| == 2
    ensures Value(x) == x[1] * BASE + x[0] < BASE * BASE && Modulus(x) == BASE * BASE
  {
    assert Weight(1) == BASE && Weight(2) == BASE * BASE;
    assert Prefix(x, 1) == x[0];
    PrefixBound(x, 2);
  }

  /** The two words of a 128-bit number. */
  function Words(v: nat): (x: Wide)
    requires v < BASE * BASE
    ensures |x| == 2
  {
    [v % BASE, v / BASE]
  }

  lemma WordsValue(v: nat)
    requires v < BASE * BASE
    ensures Value(Words(v)) == v
  {
    Value2(Words(v));
  }

  /** The 128-bit product of the compiler. */
  method Multiply128(lhs: Wide, rhs: Wide) returns (res: Wide)
    requires |lhs| == |rhs| == 2
    ensures |res| == 2 && Value(res) == (Value(lhs) * Value(rhs)) % Modulus(lhs)
  {
    hide Value, Modulus, Words;
    var a, b := lhs[1] * BASE + lhs[0], rhs[1] * BASE + rhs[0];
    Value2(lhs);
    Value2(rhs);
    var c := (a * b) % (BASE * BASE);
    WordsValue(c);
    res := Words(c);
  }
}
