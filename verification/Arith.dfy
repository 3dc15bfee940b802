/** Powers of two, division and congruences, and the bitwise operations of unsigned words. */
module Arith {

  function Pow2(k: nat): (p: nat)
    ensures p > 0
  {
    if k == 0 then 1 else 2 * Pow2(k - 1)
  }

  lemma MulAssociative(x: int, y: int, z: int)
    ensures x * (y * z) == (x * y) * z
  {
  }

  lemma {:induction false} Pow2Add(a: nat, b: nat)
    ensures Pow2(a + b) == Pow2(a) * Pow2(b)
  {
    if a > 0 {
      Pow2Add(a - 1, b);
      assert Pow2(a + b) == 2 * Pow2(a - 1 + b);
      MulAssociative(2, Pow2(a - 1), Pow2(b));
    }
  }

  lemma Pow2OfByte()
    ensures Pow2(8) == 0x100
  {
  }

  lemma Pow2Words()
    ensures Pow2(8) == 0x100
    ensures Pow2(16) == 0x1_0000
    ensures Pow2(32) == 0x1_0000_0000
    ensures Pow2(64) == 0x1_0000_0000_0000_0000
    ensures Pow2(128) == 0x1_0000_0000_0000_0000_0000_0000_0000_0000
  {
    hide Pow2;
    Pow2OfByte();
    Pow2Add(8, 8);
    Pow2Add(16, 16);
    Pow2Add(32, 32);
    Pow2Add(64, 64);
  }

  lemma {:induction false} Pow2Monotone(a: nat, b: nat)
    requires a <= b
    ensures Pow2(a) <= Pow2(b)
  {
    if a < b {
      Pow2Monotone(a, b - 1);
    }
  }

  lemma MulMonotone(x: int, y: int, d: int)
    requires x <= y && 0 <= d
    ensures x * d <= y * d
  {
  }

  /** Quotient and remainder are determined by the division identity. */
  lemma DivModUnique(x: int, d: int, q: int, r: int)
    requires d > 0 && x == q * d + r && 0 <= r < d
    ensures x / d == q && x % d == r
  {
    var q', r' := x / d, x % d;
    assert x == q' * d + r' && 0 <= r' < d;
    if q' < q {
      MulMonotone(q' + 1, q, d);
    } else if q < q' {
      MulMonotone(q + 1, q', d);
    }
  }

  lemma ModOfMultiple(x: int, k: int, d: int)
    requires d > 0
    ensures (x + k * d) % d == x % d
    ensures (x + k * d) / d == x / d + k
  {
    assert x + k * d == (x / d + k) * d + x % d;
    DivModUnique(x + k * d, d, x / d + k, x % d);
  }

  lemma ModSmall(x: int, d: int)
    requires 0 <= x < d
    ensures x % d == x && x / d == 0
  {
    DivModUnique(x, d, 0, x);
  }

  lemma QuotientBelow(x: nat, q: int, r: int, p: nat, k: nat)
    requires p > 0 && x == q * p + r && 0 <= r < p && x < k * p
    ensures 0 <= q < k
  {
    if q < 0 {
      MulMonotone(q, -1, p);
    } else if q >= k {
      MulMonotone(k, q, p);
    }
  }

  lemma DivIdentity(x: int, d: int) returns (q: int, r: int)
    requires d > 0
    ensures x == q * d + r && 0 <= r < d && r == x % d
  {
    q, r := x / d, x % d;
  }

  lemma SameResidue(x: int, y: int, k: int, d: int)
    requires d > 0 && x == y + k * d
    ensures x % d == y % d
  {
    ModOfMultiple(y, k, d);
  }

  lemma ProductOfParts(a: int, b: int, qa: int, ra: int, qb: int, rb: int, d: int) returns (k: int)
    requires a == qa * d + ra && b == qb * d + rb
    ensures a * b == ra * rb + k * d
  {
    k := qa * b + ra * qb;
    calc {
      a * b;
      (qa * d + ra) * b;
      (qa * d) * b + ra * (qb * d + rb);
      { assert (qa * d) * b == (qa * b) * d && ra * (qb * d) == (ra * qb) * d; }
      (qa * b) * d + (ra * qb) * d + ra * rb;
      ra * rb + k * d;
    }
  }

  lemma ModMul(a: int, b: int, d: int)
    requires d > 0
    ensures ((a % d) * (b % d)) % d == (a * b) % d
  {
    var qa, ra := DivIdentity(a, d);
    var qb, rb := DivIdentity(b, d);
    var k := ProductOfParts(a, b, qa, ra, qb, rb, d);
    SameResidue(a * b, ra * rb, k, d);
  }

  lemma ModAdd(a: int, b: int, d: int)
    requires d > 0
    ensures (a % d + b % d) % d == (a + b) % d
    ensures (a % d + b) % d == (a + b) % d
  {
    var qa, ra := DivIdentity(a, d);
    var qb, rb := DivIdentity(b, d);
    assert qa * d + qb * d == (qa + qb) * d;
    SameResidue(a + b, ra + rb, qa + qb, d);
    SameResidue(a + b, ra + b, qa, d);
  }

  /** A linear expression may be reduced before or after it is evaluated. */
  lemma ModLinear(a: int, b: int, c: int, d: int)
    requires d > 0
    ensures ((a % d) * (b % d) + c % d) % d == (a * b + c) % d
  {
    ModMul(a, b, d);
    ModAdd((a % d) * (b % d), c, d);
    ModAdd(a * b, c, d);
    ModAdd((a % d) * (b % d), c % d, d);
    ModMod(c, d);
  }

  lemma ModMod(x: int, d: int)
    requires d > 0
    ensures (x % d) % d == x % d
  {
    ModSmall(x % d, d);
  }

  /** Equal residues differ by a multiple. */
  lemma ModWitness(a: int, b: int, d: int) returns (k: int)
    requires d > 0 && a % d == b % d
    ensures a == b + k * d
  {
    k := a / d - b / d;
    assert a == (a / d) * d + a % d && b == (b / d) * d + b % d;
  }

  /** A congruence modulo a multiple holds modulo the divisor. */
  lemma ModOfModMultiple(x: int, d: int, m: int)
    requires d > 0 && m > 0
    ensures d * m > 0 && (x % (d * m)) % d == x % d
  {
    var n := d * m;
    assert n > 0;
    assert x == (x / n) * n + x % n;
    var k := (x / n) * m;
    assert (x / n) * (d * m) == k * d;
    assert x == x % n + k * d;
    ModOfMultiple(x % n, k, d);
  }

  lemma DivTwice(x: nat, h: nat)
    requires h > 0
    ensures (x / 2) / h == x / (2 * h)
  {
    var q, r := DivIdentity(x / 2, h);
    assert q * (2 * h) == 2 * (q * h);
    DivModUnique(x, 2 * h, q, 2 * r + x % 2);
    DivModUnique(x / 2, h, q, r);
  }

  // ---------------------------------------------------------------- bitwise operations on naturals

  function And(x: nat, y: nat): nat {
    if x == 0 then 0 else 2 * And(x / 2, y / 2) + (if x % 2 == 1 && y % 2 == 1 then 1 else 0)
  }

  function Or(x: nat, y: nat): nat
    decreases x + y
  {
    if x == 0 then y else if y == 0 then x
    else 2 * Or(x / 2, y / 2) + (if x % 2 == 1 || y % 2 == 1 then 1 else 0)
  }

  lemma ModOfDouble(x: nat, h: nat)
    requires h > 0
    ensures x % (2 * h) == 2 * ((x / 2) % h) + x % 2
  {
    var q, r := (x / 2) / h, (x / 2) % h;
    assert x / 2 == q * h + r;
    assert q * (2 * h) == 2 * (q * h);
    DivModUnique(x, 2 * h, q, 2 * r + x % 2);
  }

  lemma AndOdd(x: nat, y: nat)
    ensures And(x, 2 * y + 1) == 2 * And(x / 2, y) + x % 2
  {
    assert (2 * y + 1) / 2 == y && (2 * y + 1) % 2 == 1;
  }

  /** A mask of `k` low ones keeps the residue modulo 2^k. */
  lemma {:induction false} AndMask(x: nat, k: nat)
    ensures And(x, Pow2(k) - 1) == x % Pow2(k)
    decreases k
  {
    if k == 0 {
      AndZero(x);
    } else {
      var h := Pow2(k - 1);
      AndMask(x / 2, k - 1);
      AndOdd(x, h - 1);
      ModOfDouble(x, h);
    }
  }

  lemma {:induction false} AndZero(x: nat)
    ensures And(x, 0) == 0
  {
    if x > 0 {
      AndZero(x / 2);
    }
  }

  /** Setting a bit above all bits of `x` adds it. */
  lemma {:induction false} OrNewBit(x: nat, k: nat)
    requires x < Pow2(k)
    ensures Or(x, Pow2(k)) == x + Pow2(k)
    decreases k
  {
    if x > 0 {
      OrNewBit(x / 2, k - 1);
    }
  }

  /** `b` doubled `k` times. */
  function Doubled(b: nat, k: nat): nat {
    if k == 0 then b else 2 * Doubled(b, k - 1)
  }

  lemma {:induction false} DoubledIsTimes(b: nat, k: nat)
    ensures Doubled(b, k) == Pow2(k) * b
  {
    if k == 0 {
      assert Pow2(0) * b == b;
    } else {
      DoubledIsTimes(b, k - 1);
      MulAssociative(2, Pow2(k - 1), b);
    }
  }

  /** `|` works on the halves of a word independently. */
  lemma OrSplit(a: nat, b: nat, c: nat, d: nat, k: nat)
    requires a < Pow2(k) && c < Pow2(k)
    ensures Or(a + Pow2(k) * b, c + Pow2(k) * d) == Or(a, c) + Pow2(k) * Or(b, d)
  {
    hide Or, Pow2, Doubled;
    OrDoubled(a, b, c, d, k);
    DoubledIsTimes(b, k);
    DoubledIsTimes(d, k);
    DoubledIsTimes(Or(b, d), k);
  }

  lemma {:induction false} OrDoubled(a: nat, b: nat, c: nat, d: nat, k: nat)
    requires a < Pow2(k) && c < Pow2(k)
    ensures Or(a + Doubled(b, k), c + Doubled(d, k)) == Or(a, c) + Doubled(Or(b, d), k)
    decreases k
  {
    if k > 0 {
      OrDoubled(a / 2, b, c / 2, d, k - 1);
      OrDoubledStep(a, c, Doubled(b, k - 1), Doubled(d, k - 1), Doubled(Or(b, d), k - 1));
    }
  }

  lemma OrDoubledStep(a: nat, c: nat, x: nat, y: nat, z: nat)
    requires Or(a / 2 + x, c / 2 + y) == Or(a / 2, c / 2) + z
    ensures Or(a + 2 * x, c + 2 * y) == Or(a, c) + 2 * z
  {
    hide Or;
    OrHalves(a + 2 * x, c + 2 * y);
    OrHalves(a, c);
  }

  lemma OrHalves(x: nat, y: nat)
    ensures Or(x, y) == 2 * Or(x / 2, y / 2) + (if x % 2 == 1 || y % 2 == 1 then 1 else 0)
  {
  }

  /** Disjoint ranges of bits: `|` adds. */
  lemma OrDisjoint(q: nat, r: nat, k: nat)
    requires r < Pow2(k)
    ensures Or(q * Pow2(k), r) == q * Pow2(k) + r
  {
    assert Or(0, r) == r && Or(q, 0) == q;
    hide Or, Pow2;
    OrSplit(0, q, r, 0, k);
    assert Pow2(k) * 0 == 0;
  }

  // ---------------------------------------------------------------- single bits

  predicate Bit(x: nat, i: nat) {
    (x / Pow2(i)) % 2 == 1
  }

  lemma BitOfHalf(x: nat, i: nat)
    requires i > 0
    ensures Bit(x, i) == Bit(x / 2, i - 1)
  {
    DivTwice(x, Pow2(i - 1));
  }

  lemma LowestBit(x: nat)
    ensures Bit(x, 0) == (x % 2 == 1)
  {
  }

  lemma NoHighBit(x: nat, w: nat, i: nat)
    requires x < Pow2(w) && w <= i
    ensures !Bit(x, i)
  {
    Pow2Monotone(w, i);
    ModSmall(x, Pow2(i));
  }

  /** `|` and `&` are what they are on every bit. */
  lemma {:induction false} OrBit(x: nat, y: nat, i: nat)
    ensures Bit(Or(x, y), i) == (Bit(x, i) || Bit(y, i))
    decreases i
  {
    hide Pow2, Bit;
    OrHalves(x, y);
    if i == 0 {
      LowestBit(x);
      LowestBit(y);
      LowestBit(Or(x, y));
    } else {
      BitOfHalf(x, i);
      BitOfHalf(y, i);
      BitOfHalf(Or(x, y), i);
      OrBit(x / 2, y / 2, i - 1);
    }
  }

  lemma {:induction false} AndBit(x: nat, y: nat, i: nat)
    ensures Bit(And(x, y), i) == (Bit(x, i) && Bit(y, i))
    decreases i
  {
    hide Pow2, Bit;
    AndHalves(x, y);
    if i == 0 {
      LowestBit(x);
      LowestBit(y);
      LowestBit(And(x, y));
    } else {
      BitOfHalf(x, i);
      BitOfHalf(y, i);
      BitOfHalf(And(x, y), i);
      AndBit(x / 2, y / 2, i - 1);
    }
  }

  lemma AndHalves(x: nat, y: nat)
    ensures And(x, y) == 2 * And(x / 2, y / 2) + (if x % 2 == 1 && y % 2 == 1 then 1 else 0)
  {
  }

  lemma {:induction false} OrSymmetric(x: nat, y: nat)
    ensures Or(x, y) == Or(y, x)
    decreases x + y
  {
    if x > 0 && y > 0 {
      OrSymmetric(x / 2, y / 2);
    }
  }
}
