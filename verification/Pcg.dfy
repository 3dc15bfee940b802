/** The linear congruential core of the PCG engines: jump-ahead, backstep and distance. */
module Pcg {
  import opened Arith
  import opened XorShift

  /** An engine's arithmetic: `w`-bit words, `s -> s * mult + inc`. The multiplicative variant (mcg)
      has no increment and keeps the two low bits of the state at 3. */
  datatype Generator = Generator(w: nat, mult: nat, inc: nat, isMcg: bool) {
    ghost predicate Valid() {
      && 3 <= w
      && mult < Pow2(w) && inc < Pow2(w)
      && (if isMcg then mult % 8 == 5 && inc == 0 else mult % 4 == 1 && inc % 2 == 1)
    }

    function Modulus(): (n: nat)
      ensures n > 0
    {
      Pow2(w)
    }

    /** How many low bits of the state never change. */
    function FixedBits(): nat {
      if isMcg then 2 else 0
    }

    ghost predicate State(s: nat) {
      s < Modulus() && (isMcg ==> s % 4 == 3)
    }

    /** period_pow2() */
    ghost function Period(): nat
      requires Valid()
    {
      Pow2(w - FixedBits())
    }

    /** The state that marks the start of the cycle. */
    function Mark(): nat {
      if isMcg then 3 else 0
    }

    /** Word arithmetic wraps. */
    function Add(x: nat, y: nat): nat {
      (x + y) % Modulus()
    }

    function Mul(x: nat, y: nat): nat {
      (x * y) % Modulus()
    }

    lemma MulThenAdd(x: nat, y: nat, z: nat)
      ensures Add(Mul(x, y), z) == (x * y + z) % Modulus()
    {
      ModAdd(x * y, z, Modulus());
    }

    function Bump(s: nat): nat {
      Add(Mul(s, mult), inc)
    }

    /** `n` single steps. */
    ghost function Steps(s: nat, n: nat): nat {
      if n == 0 then s else Bump(Steps(s, n - 1))
    }

    // ---------------------------------------------------------------- n steps in closed form

    lemma {:induction false} StepsAdd(s: nat, a: nat, b: nat)
      ensures Steps(s, a + b) == Steps(Steps(s, a), b)
    {
      if b > 0 {
        StepsAdd(s, a, b - 1);
      }
    }

    lemma {:induction false} StepsAffine(s: nat, n: nat)
      requires s < Modulus()
      ensures Steps(s, n) == Orbit(mult, inc, s, n) % Modulus()
    {
      if n == 0 {
        ModSmall(s, Modulus());
      } else {
        StepsAffine(s, n - 1);
        var x := Orbit(mult, inc, s, n - 1);
        OrbitStep(mult, inc, s, n - 1);
        BumpReduced(x);
      }
    }

    lemma BumpReduced(x: int)
      requires 0 <= x % Modulus()
      ensures Bump(x % Modulus()) == (x * mult + inc) % Modulus()
    {
      MulThenAdd(x % Modulus(), mult, inc);
      ModLinear(x, mult, inc, Modulus());
      ModLinear(x % Modulus(), mult, inc, Modulus());
      ModMod(x, Modulus());
    }

    lemma StateClosed(s: nat)
      requires Valid() && State(s)
      ensures State(Bump(s))
    {
      if isMcg {
        MulThenAdd(s, mult, inc);
        LowBitsOfProduct(s, mult);
        LowBitsSurvive(s * mult, w);
      }
    }

    lemma {:induction false} StatesClosed(s: nat, n: nat)
      requires Valid() && State(s)
      ensures State(Steps(s, n))
    {
      if n > 0 {
        StatesClosed(s, n - 1);
        StateClosed(Steps(s, n - 1));
      }
    }
  }

  // ---------------------------------------------------------------- affine maps over the integers

  ghost function MultZ(m: int, n: nat): int {
    if n == 0 then 1 else MultZ(m, n - 1) * m
  }

  ghost function PlusZ(m: int, c: int, n: nat): int {
    if n == 0 then 0 else PlusZ(m, c, n - 1) * m + c
  }

  /** `n` steps without any reduction. */
  ghost function Orbit(m: int, c: int, x: int, n: nat): int {
    MultZ(m, n) * x + PlusZ(m, c, n)
  }

  lemma OrbitStep(m: int, c: int, x: int, n: nat)
    ensures Orbit(m, c, x, n + 1) == Orbit(m, c, x, n) * m + c
  {
    var a, b := MultZ(m, n), PlusZ(m, c, n);
    assert (a * m) * x == (a * x) * m;
    assert (a * x + b) * m == (a * x) * m + b * m;
  }

  /** Multiplying by 5 modulo 8 keeps an odd number's two low bits at 3. */
  lemma LowBitsOfProduct(s: nat, m: nat)
    requires s % 4 == 3 && m % 8 == 5
    ensures (s * m) % 4 == 3
  {
    var b := m / 4;
    TimesOneModFour(s, b);
    SameResidue(s * (4 * b + 1), s, s * b, 4);
  }

  lemma TimesOneModFour(s: int, b: int)
    ensures s * (4 * b + 1) == s + (s * b) * 4
  {
  }

  lemma LowBitsSurvive(x: nat, w: nat)
    requires w >= 2
    ensures (x % Pow2(w)) % 4 == x % 4
  {
    Pow2Add(2, w - 2);
    assert Pow2(2) == 4;
    ModOfModMultiple(x, 4, Pow2(w - 2));
  }

  lemma {:induction false} MultAdd(m: int, a: nat, b: nat)
    ensures MultZ(m, a + b) == MultZ(m, a) * MultZ(m, b)
  {
    if b > 0 {
      MultAdd(m, a, b - 1);
      assert MultZ(m, a + b) == MultZ(m, a + b - 1) * m;
      MulAssociative(MultZ(m, a), MultZ(m, b - 1), m);
    }
  }

  lemma {:induction false} PlusAdd(m: int, c: int, a: nat, b: nat)
    ensures PlusZ(m, c, a + b) == PlusZ(m, c, a) * MultZ(m, b) + PlusZ(m, c, b)
  {
    if b > 0 {
      PlusAdd(m, c, a, b - 1);
      assert PlusZ(m, c, a + b) == PlusZ(m, c, a + b - 1) * m + c;
      AffineAlgebra(PlusZ(m, c, a), MultZ(m, b - 1), PlusZ(m, c, b - 1), m);
    }
  }

  lemma AffineAlgebra(p: int, q: int, r: int, m: int)
    ensures (p * q + r) * m == p * (q * m) + r * m
  {
    MulAssociative(p, q, m);
  }

  lemma OrbitAdd(m: int, c: int, x: int, a: nat, b: nat)
    ensures Orbit(m, c, x, a + b) == Orbit(m, c, Orbit(m, c, x, a), b)
  {
    MultAdd(m, a, b);
    PlusAdd(m, c, a, b);
    AffineAlgebra(MultZ(m, a), x, PlusZ(m, c, a), MultZ(m, b));
    MulAssociative(MultZ(m, a), MultZ(m, b), x);
  }

  // ---------------------------------------------------------------- 2^i steps flip one bit

  /** 2^i steps of a full-period LCG multiply by 1 modulo 2^(i+2) and add an odd multiple of 2^i. */
  lemma {:induction false} LcgPowers(m: int, c: int, i: nat) returns (u: int, v: int)
    requires m % 4 == 1 && c % 2 == 1
    ensures MultZ(m, Pow2(i)) == 1 + 4 * (Pow2(i) * u)
    ensures PlusZ(m, c, Pow2(i)) == Pow2(i) * (1 + 2 * v)
  {
    if i == 0 {
      u, v := m / 4, c / 2;
      assert MultZ(m, 1) == MultZ(m, 0) * m && PlusZ(m, c, 1) == PlusZ(m, c, 0) * m + c;
    } else {
      var u0, v0 := LcgPowers(m, c, i - 1);
      var p := Pow2(i - 1);
      MultAdd(m, p, p);
      PlusAdd(m, c, p, p);
      u := u0 + 2 * (p * (u0 * u0));
      v := p * u0 + v0 + 2 * (p * (u0 * v0));
      LcgSquare(p, u0, v0);
    }
  }

  lemma LcgSquare(p: int, u: int, v: int)
    ensures (1 + 4 * (p * u)) * (1 + 4 * (p * u)) == 1 + 4 * ((2 * p) * (u + 2 * (p * (u * u))))
    ensures (p * (1 + 2 * v)) * (1 + 4 * (p * u)) + p * (1 + 2 * v) == (2 * p) * (1 + 2 * (p * u + v + 2 * (p * (u * v))))
  {
  }

  /** 2^i steps of an mcg multiply by one plus an odd multiple of 2^(i+2). */
  lemma {:induction false} McgPowers(m: int, i: nat) returns (u: int)
    requires m % 8 == 5
    ensures MultZ(m, Pow2(i)) == 1 + 4 * (Pow2(i) * (1 + 2 * u))
  {
    if i == 0 {
      u := m / 8;
      assert MultZ(m, 1) == MultZ(m, 0) * m;
    } else {
      var u0 := McgPowers(m, i - 1);
      var p, a := Pow2(i - 1), 1 + 2 * u0;
      MultAdd(m, p, p);
      u := u0 + p * (a * a);
      McgSquare(p, a);
    }
  }

  lemma McgSquare(p: int, a: int)
    ensures (1 + 4 * (p * a)) * (1 + 4 * (p * a)) == 1 + 4 * ((2 * p) * (a + 2 * (p * (a * a))))
  {
  }

  lemma {:induction false} NoIncrement(m: int, n: nat)
    ensures PlusZ(m, 0, n) == 0
  {
    if n > 0 {
      NoIncrement(m, n - 1);
    }
  }

  /** 2^i steps change the state by an odd multiple of 2^(i + FixedBits). */
  lemma Flip(g: Generator, x: int, i: nat) returns (k: int)
    requires g.Valid() && (g.isMcg ==> x % 2 == 1)
    ensures Orbit(g.mult, g.inc, x, Pow2(i)) == x + Pow2(i + g.FixedBits()) * (1 + 2 * k)
  {
    var p := Pow2(i);
    if g.isMcg {
      var u := McgPowers(g.mult, i);
      NoIncrement(g.mult, p);
      Pow2Add(i, 2);
      assert Pow2(2) == 4;
      var y := x / 2;
      k := u + y + 2 * (u * y);
      McgFlipAlgebra(p, u, y);
    } else {
      var u, v := LcgPowers(g.mult, g.inc, i);
      k := v + 2 * (u * x);
      LcgFlipAlgebra(p, u, v, x);
    }
  }

  lemma McgFlipAlgebra(p: int, u: int, y: int)
    ensures (1 + 4 * (p * (1 + 2 * u))) * (1 + 2 * y) == (1 + 2 * y) + (p * 4) * (1 + 2 * (u + y + 2 * (u * y)))
  {
  }

  lemma LcgFlipAlgebra(p: int, u: int, v: int, x: int)
    ensures (1 + 4 * (p * u)) * x + p * (1 + 2 * v) == x + p * (1 + 2 * (v + 2 * (u * x)))
  {
  }

  /** `q * 2^i` steps change the state by `q * 2^(i + FixedBits)`, up to a multiple of twice that. */
  lemma {:induction false} FlipMany(g: Generator, x: int, i: nat, q: nat) returns (k: int)
    requires g.Valid() && (g.isMcg ==> x % 2 == 1)
    ensures Orbit(g.mult, g.inc, x, Pow2(i) * q) == x + Pow2(i + g.FixedBits()) * (q + 2 * k)
    decreases q
  {
    var p, b := Pow2(i), Pow2(i + g.FixedBits());
    if q == 0 {
      k := 0;
      OrbitStart(g.mult, g.inc, x);
    } else {
      hide Orbit, Pow2;
      var k0 := FlipMany(g, x, i, q - 1);
      var y := Orbit(g.mult, g.inc, x, p * (q - 1));
      if g.isMcg {
        StaysOdd(x, i, q - 1 + 2 * k0);
      }
      var k1 := Flip(g, y, i);
      assert p * q == p * (q - 1) + p;
      OrbitAdd(g.mult, g.inc, x, p * (q - 1), p);
      k := k0 + k1;
      AddMultiples(b, q - 1 + 2 * k0, 1 + 2 * k1);
    }
  }

  lemma OrbitStart(m: int, c: int, x: int)
    ensures Orbit(m, c, x, 0) == x
  {
  }

  lemma StaysOdd(x: int, i: nat, t: int)
    requires x % 2 == 1
    ensures (x + Pow2(i + 2) * t) % 2 == 1
  {
    assert Pow2(i + 2) == 2 * Pow2(i + 1);
    hide Pow2;
    MulAssociative(2, Pow2(i + 1), t);
    OddPlusEven(x, Pow2(i + 1) * t);
  }

  lemma OddPlusEven(x: int, c: int)
    requires x % 2 == 1
    ensures (x + 2 * c) % 2 == 1
  {
  }

  lemma AddMultiples(b: int, s: int, t: int)
    ensures b * s + b * t == b * (s + t)
  {
  }

  // ---------------------------------------------------------------- the period

  lemma {:induction false} OddPart(d: nat) returns (i: nat, q: nat)
    requires d > 0
    ensures d == Pow2(i) * (2 * q + 1)
  {
    if d % 2 == 1 {
      i, q := 0, d / 2;
    } else {
      i, q := OddPart(d / 2);
      MulAssociative(2, Pow2(i), 2 * q + 1);
      i := i + 1;
    }
  }

  lemma CancelFactor(p: int, x: int, y: int)
    requires p > 0 && p * x == p * y
    ensures x == y
  {
  }

  lemma Reorder(k: int, p: int, r: int)
    ensures k * (p * (2 * r)) == p * (2 * (k * r))
  {
  }

  /** An odd multiple of 2^a is no multiple of a higher power of two. */
  lemma OddMultiple(a: nat, b: nat, t: int, k: int)
    requires a < b
    ensures Pow2(a) * (1 + 2 * t) != k * Pow2(b)
  {
    if Pow2(a) * (1 + 2 * t) == k * Pow2(b) {
      var r := Pow2(b - a - 1);
      assert Pow2(b - a) == 2 * r;
      hide Pow2;
      Pow2Add(a, b - a);
      Reorder(k, Pow2(a), r);
      CancelFactor(Pow2(a), 1 + 2 * t, 2 * (k * r));
    }
  }

  lemma ValidWidth(g: Generator)
    requires g.Valid()
    ensures g.w >= 3 && g.FixedBits() <= 2
  {
  }

  lemma PeriodReturns(g: Generator, s: nat, q: nat)
    requires g.Valid() && g.State(s)
    ensures g.Steps(s, g.Period() * q) == s
  {
    hide Orbit, Pow2, Generator.Steps, Generator.Valid;
    ValidWidth(g);
    g.StepsAffine(s, g.Period() * q);
    ModSmall(s, g.Modulus());
    var k := FlipMany(g, s, g.w - g.FixedBits(), q);
    SameResidue(Orbit(g.mult, g.inc, s, g.Period() * q), s, q + 2 * k, g.Modulus());
  }

  lemma OddRunMoves(g: Generator, s: nat, i: nat, q: nat, j: nat)
    requires g.Valid() && g.State(s) && i + g.FixedBits() < j <= g.w
    ensures g.Steps(s, Pow2(i) * (2 * q + 1)) % Pow2(j) != s % Pow2(j)
  {
    hide Orbit, Pow2, Generator.Steps, Generator.Valid;
    var d := Pow2(i) * (2 * q + 1);
    var z := Orbit(g.mult, g.inc, s, d);
    g.StepsAffine(s, d);
    ReduceFurther(z, j, g.w);
    var k := FlipMany(g, s, i, 2 * q + 1);
    if z % Pow2(j) == s % Pow2(j) {
      var l := ModWitness(z, s, Pow2(j));
      OddMultiple(i + g.FixedBits(), j, q + k, l);
    }
  }

  /** The orbit of every state closes after exactly `Period()` steps: the 2^w-fold map is the identity,
      and no shorter run returns. */
  lemma FullPeriod(g: Generator, s: nat, d: nat)
    requires g.Valid() && g.State(s)
    ensures g.Steps(s, d) == s <==> d % g.Period() == 0
  {
    var e := g.w - g.FixedBits();
    assert e >= 0 && g.Period() == Pow2(e);
    hide *;
    var q, r := DivIdentity(d, Pow2(e));
    if r == 0 {
      PeriodReturns(g, s, q);
    } else {
      ValidWidth(g);
      NoEarlyReturn(g, s, d, g.w);
    }
  }

  /** A run that is no multiple of the period of the `j` low bits changes them. */
  lemma NoEarlyReturn(g: Generator, s: nat, d: nat, j: nat)
    requires g.Valid() && g.State(s) && g.FixedBits() <= j <= g.w && d % Pow2(j - g.FixedBits()) != 0
    ensures g.Steps(s, d) % Pow2(j) != s % Pow2(j)
  {
    hide Pow2, Generator.Steps, Generator.Valid, Generator.State;
    var e := j - g.FixedBits();
    assert d > 0;
    var i, q := OddPart(d);
    if e <= i {
      DivisibleByLower(d, e, i, 2 * q + 1);
    } else {
      OddRunMoves(g, s, i, q, j);
    }
  }

  /** So the number of steps between two states is unique up to the period, already by their `j` low bits. */
  lemma LowBitsInjective(g: Generator, s: nat, a: nat, b: nat, j: nat)
    requires g.Valid() && g.State(s) && g.FixedBits() <= j <= g.w
    requires a < Pow2(j - g.FixedBits()) && b < Pow2(j - g.FixedBits())
    requires g.Steps(s, a) % Pow2(j) == g.Steps(s, b) % Pow2(j)
    ensures a == b
  {
    hide Generator.Steps, Generator.Valid, Generator.State, Pow2;
    var lo, hi := if a <= b then a else b, if a <= b then b else a;
    g.StepsAdd(s, lo, hi - lo);
    g.StatesClosed(s, lo);
    ModSmall(hi - lo, Pow2(j - g.FixedBits()));
    if lo < hi {
      NoEarlyReturn(g, g.Steps(s, lo), hi - lo, j);
    }
  }

  /** `-delta` on a `w`-bit word. */
  function Negated(g: Generator, delta: nat): nat
    requires delta < g.Modulus()
  {
    (g.Modulus() - delta) % g.Modulus()
  }

  /** Going forward by `delta` and by its negation, in either order, returns to the start. */
  lemma ForwardAndBack(g: Generator, s: nat, delta: nat)
    requires g.Valid() && g.State(s) && delta < g.Modulus()
    ensures g.Steps(g.Steps(s, delta), Negated(g, delta)) == s
    ensures g.Steps(g.Steps(s, Negated(g, delta)), delta) == s
  {
    var n := g.Modulus();
    if delta == 0 {
      ModOfMultiple(0, 1, n);
    } else {
      ModSmall(n - delta, n);
      g.StepsAdd(s, delta, n - delta);
      g.StepsAdd(s, n - delta, delta);
      Pow2Add(g.w - g.FixedBits(), g.FixedBits());
      PeriodReturns(g, s, Pow2(g.FixedBits()));
    }
  }

  lemma DivisibleByLower(d: nat, a: nat, b: nat, t: nat)
    requires a <= b && d == Pow2(b) * t
    ensures d % Pow2(a) == 0
  {
    Pow2Add(a, b - a);
    MulAssociative(Pow2(a), Pow2(b - a), t);
    ModOfMultiple(0, Pow2(b - a) * t, Pow2(a));
  }

  // ---------------------------------------------------------------- advance

  /** Composing two runs: the accumulator update of `advance`, on reduced words. */
  lemma ComposeReduced(g: Generator, a: nat, b: nat)
    ensures g.Mul(MultW(g, a), MultW(g, b)) == MultW(g, a + b)
    ensures g.Add(g.Mul(PlusW(g, a), MultW(g, b)), PlusW(g, b)) == PlusW(g, a + b)
  {
    hide MultZ, PlusZ, Pow2;
    MultAdd(g.mult, a, b);
    PlusAdd(g.mult, g.inc, a, b);
    ModMul(MultZ(g.mult, a), MultZ(g.mult, b), g.Modulus());
    g.MulThenAdd(PlusW(g, a), MultW(g, b), PlusW(g, b));
    ModLinear(PlusZ(g.mult, g.inc, a), MultZ(g.mult, b), PlusZ(g.mult, g.inc, b), g.Modulus());
  }

  /** The map for `n` steps, as words. */
  ghost function MultW(g: Generator, n: nat): nat {
    MultZ(g.mult, n) % g.Modulus()
  }

  ghost function PlusW(g: Generator, n: nat): nat {
    PlusZ(g.mult, g.inc, n) % g.Modulus()
  }

  /** Doubling a run: the update of `cur_mult` and `cur_plus`, on reduced words. */
  lemma DoubleReduced(g: Generator, a: nat)
    ensures g.Mul(MultW(g, a), MultW(g, a)) == MultW(g, 2 * a)
    ensures g.Mul(g.Add(MultW(g, a), 1), PlusW(g, a)) == PlusW(g, 2 * a)
  {
    hide MultZ, PlusZ, Pow2;
    var x, y := MultZ(g.mult, a), PlusZ(g.mult, g.inc, a);
    MultAdd(g.mult, a, a);
    PlusAdd(g.mult, g.inc, a, a);
    ModMul(x, x, g.Modulus());
    SuccessorTimes(x, y, g.Modulus());
  }

  lemma SuccessorTimes(x: int, y: int, n: nat)
    requires n > 0
    ensures (((x % n + 1) % n) * (y % n)) % n == (y * x + y) % n
  {
    ModAdd(x, 1, n);
    ModMul(x + 1, y, n);
    SuccessorProduct(x, y);
  }

  lemma SuccessorProduct(x: int, y: int)
    ensures (x + 1) * y == y * x + y
  {
  }

  /** `x & 1` of a word, and the split of a count into the part done and the part to come. */
  lemma SplitCount(total: nat, low: nat, k: nat, rest: nat)
    requires total == low + k * rest
    ensures rest % 2 == 1 ==> total == (low + k) + (2 * k) * (rest / 2)
    ensures rest % 2 == 0 ==> total == low + (2 * k) * (rest / 2)
  {
    var h := rest / 2;
    assert rest == 2 * h + rest % 2;
    assert k * (2 * h) == (2 * k) * h;
    assert k * (2 * h + 1) == k * (2 * h) + k;
  }

  /** Jump-ahead in logarithmically many iterations equals `delta` single steps. */
  method AdvanceState(g: Generator, state: nat, delta0: nat) returns (r: nat)
    requires 0 < g.w && g.mult < g.Modulus() && g.inc < g.Modulus()
    requires state < g.Modulus() && delta0 < g.Modulus()
    ensures r == g.Steps(state, delta0)
  {
    hide *;
    var accMult, accPlus, curMult, curPlus, delta := 1, 0, g.mult, g.inc, delta0;
    ghost var low: nat, k: nat := 0, 1;
    StartReduced(g);
    while delta > 0
      invariant delta0 == low + k * delta
      invariant accMult == MultW(g, low) && accPlus == PlusW(g, low)
      invariant curMult == MultW(g, k) && curPlus == PlusW(g, k)
    {
      SplitCount(delta0, low, k, delta);
      if delta % 2 == 1 {
        ComposeReduced(g, low, k);
        accMult, accPlus := g.Mul(accMult, curMult), g.Add(g.Mul(accPlus, curMult), curPlus);
        low := low + k;
      }
      DoubleReduced(g, k);
      curPlus := g.Mul(g.Add(curMult, 1), curPlus);
      curMult := g.Mul(curMult, curMult);
      k := 2 * k;
      delta := delta / 2;
    }
    r := g.Add(g.Mul(accMult, state), accPlus);
    FinishReduced(g, state, low);
  }

  lemma StartReduced(g: Generator)
    requires 0 < g.w && g.mult < g.Modulus() && g.inc < g.Modulus()
    ensures MultW(g, 0) == 1 && PlusW(g, 0) == 0
    ensures g.mult == MultW(g, 1) && g.inc == PlusW(g, 1)
  {
    ModSmall(0, g.Modulus());
    ModSmall(1, g.Modulus());
    ModSmall(g.mult, g.Modulus());
    ModSmall(g.inc, g.Modulus());
    assert MultZ(g.mult, 1) == MultZ(g.mult, 0) * g.mult;
    assert PlusZ(g.mult, g.inc, 1) == PlusZ(g.mult, g.inc, 0) * g.mult + g.inc;
  }

  lemma FinishReduced(g: Generator, state: nat, d: nat)
    requires state < g.Modulus()
    ensures g.Add(g.Mul(MultW(g, d), state), PlusW(g, d)) == g.Steps(state, d)
  {
    hide MultZ, PlusZ, Pow2, Generator.Steps;
    g.StepsAffine(state, d);
    ModSmall(state, g.Modulus());
    g.MulThenAdd(MultW(g, d), state, PlusW(g, d));
    ModLinear(MultZ(g.mult, d), state, PlusZ(g.mult, g.inc, d), g.Modulus());
  }

  // ---------------------------------------------------------------- distance

  /** Bit `k` of a word. */
  function Bit(x: nat, k: nat): nat {
    (x / Pow2(k)) % 2
  }

  lemma {:induction false} AndSingleBit(x: nat, k: nat)
    ensures And(x, Pow2(k)) == Bit(x, k) * Pow2(k)
    decreases k
  {
    if k == 0 {
      AndOdd(x, 0);
      AndZero(x / 2);
    } else {
      AndSingleBit(x / 2, k - 1);
      AndEven(x, Pow2(k - 1));
      DivTwice(x, Pow2(k - 1));
      MulAssociative(2, Bit(x, k), Pow2(k - 1));
    }
  }

  lemma AndEven(x: nat, y: nat)
    ensures And(x, 2 * y) == 2 * And(x / 2, y)
  {
    assert (2 * y) / 2 == y && (2 * y) % 2 == 0;
  }

  /** One more bit of a residue. */
  lemma NextBit(x: nat, k: nat)
    ensures x % Pow2(k + 1) == x % Pow2(k) + Bit(x, k) * Pow2(k)
  {
    var p := Pow2(k);
    var q, r := DivIdentity(x, p);
    DivModUnique(x, p, q, r);
    var h, b := q / 2, q % 2;
    assert q == 2 * h + b;
    NextBitAlgebra(x, p, h, b, r);
    DivModUnique(x, 2 * p, h, b * p + r);
  }

  lemma NextBitAlgebra(x: nat, p: nat, h: nat, b: nat, r: nat)
    requires x == (2 * h + b) * p + r && b < 2 && r < p
    ensures x == h * (2 * p) + (b * p + r) && 0 <= b * p + r < 2 * p
  {
    assert (2 * h + b) * p == h * (2 * p) + b * p;
    assert b == 0 || b == 1;
  }

  /** Words that agree below bit `k` and differ at it: adding 2^k to one makes them agree at it too. */
  lemma DifferAtBit(x: nat, y: nat, k: nat)
    requires x % Pow2(k) == y % Pow2(k) && Bit(x, k) != Bit(y, k)
    ensures (x + Pow2(k)) % Pow2(k + 1) == y % Pow2(k + 1)
  {
    var p := Pow2(k);
    NextBit(x, k);
    NextBit(y, k);
    var r := x % p;
    ModAdd(x, p, 2 * p);
    if Bit(x, k) == 0 {
      ModSmall(r + p, 2 * p);
    } else {
      ModOfMultiple(r, 1, 2 * p);
      ModSmall(r, 2 * p);
    }
  }

  /** 2^i steps flip bit i + FixedBits and leave the bits below it alone. */
  lemma StepsFlipBit(g: Generator, s: nat, i: nat)
    requires g.Valid() && g.State(s) && i + g.FixedBits() < g.w
    ensures g.Steps(s, Pow2(i)) % Pow2(i + g.FixedBits() + 1) == (s + Pow2(i + g.FixedBits())) % Pow2(i + g.FixedBits() + 1)
  {
    hide Pow2, Orbit, Generator.Valid, Generator.Steps, Generator.State;
    var b := i + g.FixedBits();
    var z := Orbit(g.mult, g.inc, s, Pow2(i));
    StateOdd(g, s);
    var k := Flip(g, s, i);
    g.StepsAffine(s, Pow2(i));
    FlipResidue(z, s, b, k);
    ReduceFurther(z, b + 1, g.w);
  }

  lemma StateOdd(g: Generator, s: nat)
    requires g.State(s)
    ensures s < g.Modulus() && (g.isMcg ==> s % 2 == 1)
  {
  }

  lemma FlipResidue(z: int, s: int, b: nat, k: int)
    requires z == s + Pow2(b) * (1 + 2 * k)
    ensures z % Pow2(b + 1) == (s + Pow2(b)) % Pow2(b + 1)
  {
    var p := Pow2(b);
    assert p * (1 + 2 * k) == p + k * (2 * p);
    SameResidue(z, s + p, k, 2 * p);
  }

  lemma ReduceFurther(z: int, a: nat, b: nat)
    requires a <= b
    ensures (z % Pow2(b)) % Pow2(a) == z % Pow2(a)
  {
    Pow2Add(a, b - a);
    ModOfModMultiple(z, Pow2(a), Pow2(b - a));
  }

  /** What the loop of `distance` maintains: after `done` steps the states agree below the next bit. */
  ghost predicate Closing(g: Generator, start: nat, cur: nat, target: nat, i: nat, done: nat) {
    && i + g.FixedBits() <= g.w
    && done < Pow2(i)
    && cur == g.Steps(start, done)
    && g.State(cur)
    && cur % Pow2(i + g.FixedBits()) == target % Pow2(i + g.FixedBits())
  }

  lemma ClosingStart(g: Generator, start: nat, target: nat)
    requires g.Valid() && g.State(start) && g.State(target)
    ensures Closing(g, start, start, target, 0, 0)
  {
    assert Pow2(2) == 4;
  }

  lemma ClosingStep(g: Generator, start: nat, cur: nat, target: nat, i: nat, done: nat)
    requires g.Valid() && g.State(start) && g.State(target)
    requires Closing(g, start, cur, target, i, done) && i + g.FixedBits() < g.w
    ensures var b := i + g.FixedBits();
            if Bit(cur, b) == Bit(target, b) then Closing(g, start, cur, target, i + 1, done)
            else Closing(g, start, g.Steps(cur, Pow2(i)), target, i + 1, done + Pow2(i))
                 && Bit(g.Steps(cur, Pow2(i)), b) == Bit(target, b)
  {
    hide Generator.Valid, Generator.State, Bit;
    var b := i + g.FixedBits();
    if Bit(cur, b) == Bit(target, b) {
      NextBit(cur, b);
      NextBit(target, b);
    } else {
      var next := g.Steps(cur, Pow2(i));
      g.StepsAdd(start, done, Pow2(i));
      g.StatesClosed(cur, Pow2(i));
      StepsFlipBit(g, cur, i);
      DifferAtBit(cur, target, b);
      AgreeAtBit(next, target, b);
    }
  }

  lemma AgreeAtBit(x: nat, y: nat, k: nat)
    requires x % Pow2(k + 1) == y % Pow2(k + 1)
    ensures x % Pow2(k) == y % Pow2(k) && Bit(x, k) == Bit(y, k)
  {
    var p := Pow2(k);
    ReduceFurther(x, k, k + 1);
    ReduceFurther(y, k, k + 1);
    NextBit(x, k);
    NextBit(y, k);
    CancelFactor(p, Bit(x, k), Bit(y, k));
  }

  lemma ClosingDone(g: Generator, start: nat, cur: nat, target: nat, i: nat, done: nat)
    requires Closing(g, start, cur, target, i, done) && g.State(target) && i + g.FixedBits() == g.w
    ensures cur == target
  {
    ModSmall(cur, g.Modulus());
    ModSmall(target, g.Modulus());
  }

  /** The words the loop doubles each round: the bit it looks at and the map for 2^i steps. */
  ghost predicate Doubling(g: Generator, i: nat, theBit: nat, curMult: nat, curPlus: nat) {
    && theBit == Pow2(i + g.FixedBits()) % g.Modulus()
    && curMult == MultW(g, Pow2(i))
    && curPlus == PlusW(g, Pow2(i))
  }

  lemma DoublingStart(g: Generator)
    requires g.Valid()
    ensures Doubling(g, 0, if g.isMcg then 4 else 1, g.mult, g.inc)
  {
    StartReduced(g);
    assert Pow2(2) == 4;
    Pow2Monotone(3, g.w);
    assert Pow2(3) == 8;
    ModSmall(Pow2(g.FixedBits()), g.Modulus());
  }

  lemma DoublingStep(g: Generator, i: nat, theBit: nat, curMult: nat, curPlus: nat)
    requires Doubling(g, i, theBit, curMult, curPlus)
    ensures Doubling(g, i + 1, g.Add(theBit, theBit), g.Mul(curMult, curMult), g.Mul(g.Add(curMult, 1), curPlus))
  {
    hide MultW, PlusW;
    DoubleReduced(g, Pow2(i));
    ModAdd(Pow2(i + g.FixedBits()), Pow2(i + g.FixedBits()), g.Modulus());
  }

  /** The step of the loop is 2^i steps of the generator. */
  lemma JumpIsSteps(g: Generator, i: nat, theBit: nat, curMult: nat, curPlus: nat, cur: nat)
    requires Doubling(g, i, theBit, curMult, curPlus) && cur < g.Modulus()
    ensures g.Add(g.Mul(cur, curMult), curPlus) == g.Steps(cur, Pow2(i))
  {
    hide Generator.Steps, Pow2, MultW, PlusW;
    FinishReduced(g, cur, Pow2(i));
    assert cur * curMult == curMult * cur;
  }

  /** The test of the loop compares one bit. */
  lemma TestIsBit(g: Generator, i: nat, theBit: nat, curMult: nat, curPlus: nat, x: nat, y: nat)
    requires Doubling(g, i, theBit, curMult, curPlus) && i + g.FixedBits() < g.w
    ensures theBit == Pow2(i + g.FixedBits())
    ensures And(x, theBit) == And(y, theBit) <==> Bit(x, i + g.FixedBits()) == Bit(y, i + g.FixedBits())
  {
    var b := i + g.FixedBits();
    Pow2Monotone(b + 1, g.w);
    ModSmall(Pow2(b), g.Modulus());
    AndSingleBit(x, b);
    AndSingleBit(y, b);
    BitsCompare(Bit(x, b), Bit(y, b), Pow2(b));
  }

  lemma BitsCompare(x: nat, y: nat, p: nat)
    requires p > 0
    ensures x * p == y * p <==> x == y
  {
  }

  /** While the states differ there is still a bit to settle. */
  lemma RoundFacts(g: Generator, start: nat, cur: nat, target: nat, i: nat, done: nat)
    requires Closing(g, start, cur, target, i, done) && g.State(target) && cur != target
    ensures i + g.FixedBits() < g.w && cur < g.Modulus() && done < Pow2(i)
  {
    if i + g.FixedBits() == g.w {
      ClosingDone(g, start, cur, target, i, done);
    }
  }

  /** `mask` selects just the `j` low bits, the fixed ones among them. */
  ghost predicate LowMask(g: Generator, mask: nat, j: nat) {
    g.FixedBits() <= j <= g.w && mask == Pow2(j) - 1
  }

  /** While the masked states differ, the next bit to settle is one of the mask's. */
  lemma RoundsLeft(g: Generator, start: nat, cur: nat, target: nat, i: nat, done: nat, mask: nat, j: nat)
    requires Closing(g, start, cur, target, i, done) && LowMask(g, mask, j) && And(cur, mask) != And(target, mask)
    ensures i + g.FixedBits() < j
  {
    hide Generator.Steps, Generator.State, And, Pow2;
    AndMask(cur, j);
    AndMask(target, j);
    if i + g.FixedBits() >= j {
      ReduceFurther(cur, j, i + g.FixedBits());
      ReduceFurther(target, j, i + g.FixedBits());
    }
  }

  /** The number of steps from one state to another, found bit by bit in at most one round for each bit that changes.
      `mask` selects the bits that have to agree. */
  method DistanceOf(g: Generator, start: nat, target: nat, mask: nat) returns (r: nat, ghost rounds: nat)
    requires g.Valid() && g.State(start) && g.State(target)
    ensures And(g.Steps(start, r), mask) == And(target, mask)
    ensures r < g.Period() && r < Pow2(rounds) && rounds + g.FixedBits() <= g.w
    ensures forall j: nat :: LowMask(g, mask, j) ==> rounds + g.FixedBits() <= j && r < Pow2(j - g.FixedBits())
    ensures forall j: nat, d: nat :: LowMask(g, mask, j) && d < Pow2(j - g.FixedBits()) ==>
      (And(g.Steps(start, d), mask) == And(target, mask) <==> d == r)
  {
    hide *;
    var theBit, distance := if g.isMcg then 4 else 1, 0;
    var cur, curMult, curPlus := start, g.mult, g.inc;
    ghost var done: nat := 0;
    rounds := 0;
    ClosingStart(g, start, target);
    DoublingStart(g);
    NoRounds(g, mask);
    while And(cur, mask) != And(target, mask)
      invariant Closing(g, start, cur, target, rounds, done)
      invariant Doubling(g, rounds, theBit, curMult, curPlus)
      invariant distance == done * Pow2(g.FixedBits())
      invariant forall j: nat :: LowMask(g, mask, j) ==> rounds + g.FixedBits() <= j
      decreases g.w - rounds
    {
      RoundFacts(g, start, cur, target, rounds, done);
      forall j: nat | LowMask(g, mask, j)
        ensures rounds + g.FixedBits() < j
      {
        RoundsLeft(g, start, cur, target, rounds, done, mask, j);
      }
      ClosingStep(g, start, cur, target, rounds, done);
      TestIsBit(g, rounds, theBit, curMult, curPlus, cur, target);
      if And(cur, theBit) != And(target, theBit) {
        JumpIsSteps(g, rounds, theBit, curMult, curPlus, cur);
        cur := g.Add(g.Mul(cur, curMult), curPlus);
        SetBit(done, rounds, g.FixedBits());
        distance := Or(distance, theBit);
        done := done + Pow2(rounds);
        TestIsBit(g, rounds, theBit, curMult, curPlus, cur, target);
      }
      assert And(cur, theBit) == And(target, theBit);
      DoublingStep(g, rounds, theBit, curMult, curPlus);
      theBit := g.Add(theBit, theBit);
      curPlus := g.Mul(g.Add(curMult, 1), curPlus);
      curMult := g.Mul(curMult, curMult);
      rounds := rounds + 1;
    }
    ClosingResult(g, start, cur, target, rounds, done);
    r := if g.isMcg then distance / 4 else distance;
    forall j: nat | LowMask(g, mask, j)
      ensures r < Pow2(j - g.FixedBits())
      ensures forall d: nat :: d < Pow2(j - g.FixedBits()) ==>
        (And(g.Steps(start, d), mask) == And(target, mask) <==> d == r)
    {
      Pow2Monotone(rounds, j - g.FixedBits());
      forall d: nat | d < Pow2(j - g.FixedBits())
        ensures And(g.Steps(start, d), mask) == And(target, mask) <==> d == r
      {
        DistanceExact(g, start, target, mask, j, r, d);
      }
    }
  }

  lemma NoRounds(g: Generator, mask: nat)
    ensures forall j: nat :: LowMask(g, mask, j) ==> g.FixedBits() <= j <= g.w
  {
  }

  lemma ScaledBelow(x: nat, p: nat, f: nat)
    requires x < p && 0 < f
    ensures 0 <= x * f < p * f && (x + p) * f == x * f + p * f
  {
    MulMonotone(x + 1, p, f);
  }

  /** `distance |= the_bit` counts 2^i more steps. */
  lemma SetBit(done: nat, i: nat, fixed: nat)
    requires done < Pow2(i)
    ensures Or(done * Pow2(fixed), Pow2(i + fixed)) == (done + Pow2(i)) * Pow2(fixed)
  {
    hide Pow2, Or;
    Pow2Add(i, fixed);
    ScaledBelow(done, Pow2(i), Pow2(fixed));
    OrNewBit(done * Pow2(fixed), i + fixed);
  }

  lemma ClosingResult(g: Generator, start: nat, cur: nat, target: nat, i: nat, done: nat)
    requires g.Valid() && Closing(g, start, cur, target, i, done)
    ensures cur == g.Steps(start, done) && done < g.Period() && done < Pow2(i) && i + g.FixedBits() <= g.w
    ensures (if g.isMcg then (done * Pow2(g.FixedBits())) / 4 else done * Pow2(g.FixedBits())) == done
  {
    Pow2Monotone(i, g.w - g.FixedBits());
    assert Pow2(2) == 4;
  }

  /** With a mask of low bits the distance is below their period, and the only such count that fits. */
  lemma DistanceExact(g: Generator, start: nat, target: nat, mask: nat, j: nat, r: nat, d: nat)
    requires g.Valid() && g.State(start) && g.State(target) && LowMask(g, mask, j)
    requires And(g.Steps(start, r), mask) == And(target, mask)
    requires r < Pow2(j - g.FixedBits()) && d < Pow2(j - g.FixedBits())
    ensures And(g.Steps(start, d), mask) == And(target, mask) <==> d == r
  {
    hide Generator.Steps, Generator.Valid, Generator.State, And;
    AndMask(g.Steps(start, r), j);
    AndMask(g.Steps(start, d), j);
    AndMask(target, j);
    if And(g.Steps(start, d), mask) == And(target, mask) {
      LowBitsInjective(g, start, d, r, j);
    }
  }

  lemma FullMask(g: Generator, x: nat, y: nat)
    requires g.Valid() && g.State(x) && g.State(y)
    ensures LowMask(g, g.Modulus() - 1, g.w)
    ensures And(x, g.Modulus() - 1) == And(y, g.Modulus() - 1) <==> x == y
  {
    AndMask(x, g.w);
    AndMask(y, g.w);
    ModSmall(x, g.Modulus());
    ModSmall(y, g.Modulus());
  }

  // ---------------------------------------------------------------- the engine object

  class Engine {
    const g: Generator
    var state: nat

    ghost predicate Valid()
      reads this
    {
      g.Valid() && g.State(state)
    }

    constructor (g: Generator, seed: nat)
      requires g.Valid() && seed < g.Modulus()
      ensures Valid() && this.g == g
      ensures g.isMcg ==> state == Or(seed, 3)
      ensures !g.isMcg ==> state == g.Bump(g.Add(seed, g.inc))
    {
      this.g := g;
      state := if g.isMcg then Or(seed, 3) else g.Bump(g.Add(seed, g.inc));
      SeedIsState(g, seed);
    }

    method Advance(delta: nat)
      requires Valid() && delta < g.Modulus()
      modifies this
      ensures Valid() && state == g.Steps(old(state), delta)
    {
      state := AdvanceState(g, state, delta);
      g.StatesClosed(old(state), delta);
    }

    /** Goes back: stepping forward again from here reaches the old state. */
    method Backstep(delta: nat)
      requires Valid() && delta < g.Modulus()
      modifies this
      ensures Valid() && g.Steps(state, delta) == old(state)
    {
      ForwardAndBack(g, state, delta);
      Advance(Negated(g, delta));
    }

    /** The state has gone round: true exactly when a run from the mark has taken whole periods. */
    method Wrapped() returns (b: bool)
      requires Valid()
      ensures b <==> state == if g.isMcg then 3 else 0
      ensures forall d: nat :: state == g.Steps(g.Mark(), d) ==> (b <==> d % g.Period() == 0)
    {
      b := if g.isMcg then state == 3 else state == 0;
      MarkIsState(g);
      forall d: nat | state == g.Steps(g.Mark(), d)
        ensures b <==> d % g.Period() == 0
      {
        FullPeriod(g, g.Mark(), d);
      }
    }

    /** `newstate - *this`: how far ahead `newstate` is, the unique count below the period. */
    method Distance(newstate: nat) returns (d: nat)
      requires Valid() && g.State(newstate)
      ensures d < g.Period() && g.Steps(state, d) == newstate
      ensures forall e: nat :: e < g.Period() && g.Steps(state, e) == newstate ==> e == d
    {
      hide And, Pow2, Generator.Steps, Generator.State, Generator.Bump;
      ghost var rounds;
      FullMask(g, state, newstate);
      d, rounds := DistanceOf(g, state, newstate, g.Modulus() - 1);
      forall e: nat | e < g.Period()
        ensures g.Steps(state, e) == newstate <==> e == d
      {
        g.StatesClosed(state, e);
        FullMask(g, g.Steps(state, e), newstate);
      }
    }
  }

  lemma MarkIsState(g: Generator)
    requires g.Valid()
    ensures g.State(g.Mark())
  {
    Pow2Monotone(3, g.w);
    assert Pow2(3) == 8;
  }

  lemma SeedIsState(g: Generator, seed: nat)
    requires g.Valid() && seed < g.Modulus()
    ensures g.isMcg ==> g.State(Or(seed, 3))
    ensures !g.isMcg ==> g.State(g.Bump(g.Add(seed, g.inc)))
  {
    if g.isMcg {
      OrThree(seed);
      assert Pow2(3) == 8;
      Pow2Monotone(3, g.w);
      assert Pow2(g.w) == 4 * Pow2(g.w - 2);
    }
  }

  lemma OrThree(x: nat)
    ensures Or(x, 3) == 4 * (x / 4) + 3
  {
    if x > 1 {
      assert Or(x / 2, 1) == 2 * Or(x / 4, 0) + 1 by { assert (x / 2) / 2 == x / 4; }
      assert Or(x / 4, 0) == x / 4;
    }
  }

  // ---------------------------------------------------------------- the constants the library ships

  function DefaultMultiplier(w: nat): nat
    requires IsWordSize(w)
  {
    if w == 8 then 141 else if w == 16 then 12829 else if w == 32 then 747796405
    else if w == 64 then 6364136223846793005
    else 2549297995355413924 * 0x1_0000_0000_0000_0000 + 4865540595714422341
  }

  function DefaultIncrement(w: nat): nat
    requires IsWordSize(w)
  {
    if w == 8 then 77 else if w == 16 then 47989 else if w == 32 then 2891336453
    else if w == 64 then 1442695040888963407
    else 6364136223846793005 * 0x1_0000_0000_0000_0000 + 1442695040888963407
  }

  /** `set_stream`: any stream number gives an odd increment. */
  function StreamIncrement(w: nat, specificSeq: nat): nat {
    Or((2 * specificSeq) % Pow2(w), 1)
  }

  lemma StreamIncrementOdd(w: nat, specificSeq: nat)
    requires 0 < w
    ensures StreamIncrement(w, specificSeq) % 2 == 1 && StreamIncrement(w, specificSeq) < Pow2(w)
    ensures StreamIncrement(w, specificSeq) == (2 * specificSeq + 1) % Pow2(w)
  {
    assert Pow2(w) == 2 * Pow2(w - 1);
    hide Pow2, Or;
    ModOfModMultiple(2 * specificSeq, 2, Pow2(w - 1));
    OddBelow((2 * specificSeq) % Pow2(w), Pow2(w), Pow2(w - 1));
    NextResidue(2 * specificSeq, Pow2(w));
  }

  lemma NextResidue(x: nat, m: nat)
    requires m > 0 && x % m + 1 < m
    ensures (x + 1) % m == x % m + 1
  {
    var q, r := DivIdentity(x, m);
    DivModUnique(x + 1, m, q, r + 1);
  }

  /** Distinct streams have distinct increments. */
  lemma StreamsDistinct(w: nat, s: nat, t: nat)
    requires 0 < w && s < Pow2(w - 1) && t < Pow2(w - 1)
    ensures StreamIncrement(w, s) == StreamIncrement(w, t) <==> s == t
  {
    assert Pow2(w) == 2 * Pow2(w - 1);
    hide Pow2, StreamIncrement;
    StreamIncrementOdd(w, s);
    StreamIncrementOdd(w, t);
    ModSmall(2 * s + 1, Pow2(w));
    ModSmall(2 * t + 1, Pow2(w));
  }

  lemma OddBelow(x: nat, m: nat, h: nat)
    requires x % 2 == 0 && x < m == 2 * h
    ensures Or(x, 1) % 2 == 1 && Or(x, 1) == x + 1 < m
  {
    hide Or;
    OrOne(x);
  }

  lemma OrOne(x: nat)
    requires x % 2 == 0
    ensures Or(x, 1) == x + 1
  {
  }

  /** All of them are generators the theorems above apply to. */
  lemma ShippedGeneratorsValid(w: nat, specificSeq: nat)
    requires IsWordSize(w) && specificSeq < Pow2(w)
    ensures Generator(w, DefaultMultiplier(w), DefaultIncrement(w), false).Valid()
    ensures Generator(w, DefaultMultiplier(w), 0, true).Valid()
    ensures Generator(w, DefaultMultiplier(w), StreamIncrement(w, specificSeq), false).Valid()
  {
    hide Pow2, StreamIncrement;
    Pow2Words();
    StreamIncrementOdd(w, specificSeq);
  }
}
