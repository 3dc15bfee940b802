/** Negation and the signed and unsigned operators `*`, `/`, `%`, `<` on operands of equal width. */
module WideSigned {
  import opened Arith
  import opened WideInteger
  import opened WideShift
  import opened WideMultiply
  import opened WideDivide

  datatype Result = DivideError | Undefined | Ok(value: Wide)

  // ---------------------------------------------------------------- numbers and their words

  ghost predicate InRange(v: int, m: int, signed: bool) {
    if signed then -m <= 2 * v < m else 0 <= v < m
  }

  lemma MeaningInRange(x: Wide, signed: bool)
    requires |x| > 0
    ensures InRange(Meaning(x, signed), Modulus(x), signed)
    ensures Meaning(x, signed) % Modulus(x) == Value(x)
  {
    hide Value, Modulus;
    NegativeValue(x);
    ValueBound(x);
    ModulusPositive(x);
    ModSmall(Value(x), Modulus(x));
    ModOfMultiple(Value(x), -1, Modulus(x));
  }

  /** A word stands for the one number of its range with its residue. */
  lemma MeaningUnique(x: Wide, signed: bool, v: int)
    requires |x| > 0 && InRange(v, Modulus(x), signed) && Value(x) == v % Modulus(x)
    ensures Meaning(x, signed) == v
  {
    hide Value, Modulus;
    MeaningInRange(x, signed);
    hide Meaning;
    ResidueUnique(Meaning(x, signed), v, Modulus(x), signed);
  }

  lemma ResidueUnique(v: int, w: int, m: int, signed: bool)
    requires m > 0 && InRange(v, m, signed) && InRange(w, m, signed) && v % m == w % m
    ensures v == w
  {
    var k := ModWitness(v, w, m);
    if k >= 1 {
      MulMonotone(1, k, m);
    } else if k <= -1 {
      MulMonotone(k, -1, m);
    }
  }

  // ---------------------------------------------------------------- negation

  method Tilde(x: Wide) returns (res: Wide)
    ensures |res| == |x| && Value(res) == Modulus(x) - 1 - Value(x)
  {
    res := seq(|x|, _ => 0);
    var i := 0;
    while i < |x|
      invariant 0 <= i <= |x| == |res|
      invariant forall j :: 0 <= j < i ==> res[j] == BASE - 1 - x[j]
    {
      res := res[i := BASE - 1 - x[i]];
      i := i + 1;
    }
    TildePrefix(x, res, |x|);
  }

  lemma {:induction false} TildePrefix(x: Wide, z: Wide, i: nat)
    requires i <= |x| == |z| && forall j :: 0 <= j < i ==> z[j] == BASE - 1 - x[j]
    ensures Prefix(z, i) == Weight(i) - 1 - Prefix(x, i)
  {
    if i > 0 {
      TildePrefix(x, z, i - 1);
      TildeAlgebra(x[i - 1], z[i - 1], Weight(i - 1));
    }
  }

  lemma TildeAlgebra(x: int, z: int, w: int)
    requires z == BASE - 1 - x
    ensures z * w == BASE * w - w - x * w
  {
  }

  method UnaryMinus(x: Wide) returns (res: Wide)
    requires |x| > 0
    ensures |res| == |x| && Value(res) == (0 - Value(x)) % Modulus(x)
  {
    hide Value, Modulus;
    var t := Tilde(x);
    res := Plus(t, [1]);
    OneLimb(1);
    SameModulus(t, x);
    ModulusPositive(x);
    ModOfMultiple(0 - Value(x), 1, Modulus(x));
  }

  lemma OneLimb(d: Limb)
    ensures Value([d]) == d
  {
    assert Prefix([d], 1) == d;
  }

  function Abs(v: int): nat {
    if v < 0 then -v else v
  }

  /** The magnitude, even of the most negative number, as an unsigned word. */
  method MakePositive(x: Wide, signed: bool) returns (res: Wide)
    requires |x| > 0
    ensures |res| == |x| && Value(res) == Abs(Meaning(x, signed))
  {
    if signed && Negative(x) {
      res := UnaryMinus(x);
      hide Value, Modulus;
      NegativeValue(x);
      ValueBound(x);
      ModOfMultiple(0 - Value(x), 1, Modulus(x));
      ModSmall(Modulus(x) - Value(x), Modulus(x));
    } else {
      res := x;
    }
  }

  // ---------------------------------------------------------------- multiplication

  /** The width selects the algorithm. */
  method Multiply(lhs: Wide, rhs: Wide) returns (res: Wide)
    requires |lhs| == |rhs| > 0
    ensures |res| == |lhs| && Value(res) == (Value(lhs) * Value(rhs)) % Modulus(lhs)
  {
    if |lhs| == 4 {
      res := Multiply256(lhs, rhs);
    } else if |lhs| == 2 {
      res := Multiply128(lhs, rhs);
    } else {
      res := MultiplyGeneric(lhs, rhs);
    }
  }

  /** operator_star: magnitudes are multiplied, then the sign is put back. */
  method Star(lhs: Wide, rhs: Wide, signed: bool) returns (res: Wide)
    requires |lhs| == |rhs| > 0
    ensures |res| == |lhs|
    ensures Value(res) == (Meaning(lhs, signed) * Meaning(rhs, signed)) % Modulus(lhs)
  {
    hide Value, Modulus, Meaning;
    ghost var a, b, m := Meaning(lhs, signed), Meaning(rhs, signed), Modulus(lhs);
    var x := MakePositive(lhs, signed);
    var y := MakePositive(rhs, signed);
    SameModulus(x, lhs);
    res := Multiply(x, y);
    SameModulus(res, lhs);
    ModulusPositive(lhs);
    SignsOf(lhs, signed);
    SignsOf(rhs, signed);
    SignedProduct(a, b, m);
    if signed && Negative(lhs) != Negative(rhs) {
      res := UnaryMinus(res);
    }
  }

  lemma SignsOf(x: Wide, signed: bool)
    requires |x| > 0
    ensures Meaning(x, signed) < 0 <==> signed && Negative(x)
  {
    ValueBound(x);
  }

  lemma SignedProduct(a: int, b: int, m: nat)
    requires m > 0
    ensures (a < 0) == (b < 0) ==> (Abs(a) * Abs(b)) % m == (a * b) % m
    ensures (a < 0) != (b < 0) ==> (-((Abs(a) * Abs(b)) % m)) % m == (a * b) % m
  {
    if (a < 0) == (b < 0) {
      assert Abs(a) * Abs(b) == a * b;
    } else {
      assert Abs(a) * Abs(b) == -(a * b);
      NegateResidue(Abs(a) * Abs(b), m);
    }
  }

  lemma NegateResidue(v: int, m: nat)
    requires m > 0
    ensures (-(v % m)) % m == (-v) % m
  {
    var q, r := DivIdentity(v, m);
    assert -r == -v + q * m;
    SameResidue(-r, -v, q, m);
  }

  // ---------------------------------------------------------------- division

  /** Division that truncates toward zero, and its remainder. */
  function TruncDiv(a: int, b: int): int
    requires b != 0
  {
    if (a < 0) == (b < 0) then Abs(a) / Abs(b) else -(Abs(a) / Abs(b))
  }

  function TruncRem(a: int, b: int): int
    requires b != 0
  {
    if a < 0 then -(Abs(a) % Abs(b)) else Abs(a) % Abs(b)
  }

  lemma TruncIdentity(a: int, b: int)
    requires b != 0
    ensures a == TruncDiv(a, b) * b + TruncRem(a, b)
    ensures Abs(TruncRem(a, b)) < Abs(b) && (TruncRem(a, b) == 0 || (TruncRem(a, b) < 0 <==> a < 0))
    ensures Abs(TruncDiv(a, b) * b) <= Abs(a)
  {
    var q, r := DivIdentity(Abs(a), Abs(b));
    DivModUnique(Abs(a), Abs(b), q, r);
    SignAlgebra(a, b, q, r);
  }

  lemma SignAlgebra(a: int, b: int, q: int, r: int)
    requires b != 0 && Abs(a) == q * Abs(b) + r && 0 <= r < Abs(b)
    ensures a == (if (a < 0) == (b < 0) then q else -q) * b + (if a < 0 then -r else r)
    ensures Abs((if (a < 0) == (b < 0) then q else -q) * b) <= Abs(a)
  {
    assert (-q) * b == -(q * b) && q * (-b) == -(q * b);
    if q < 0 {
      MulMonotone(q, -1, Abs(b));
    } else {
      MulMonotone(0, q, Abs(b));
    }
  }

  /** Magnitudes of quotient and remainder. */
  method DivideMagnitudes(lhs: Wide, rhs: Wide, signed: bool) returns (r: DivResult)
    requires |lhs| == |rhs| > 0
    ensures r.DivisionByZero? <==> Meaning(rhs, signed) == 0 && |lhs| != 2
    ensures r.Undefined? <==> Meaning(rhs, signed) == 0 && |lhs| == 2
    ensures r.Divided? ==> |r.quotient| == |r.remainder| == |lhs|
    ensures r.Divided? ==> Value(r.quotient) == Abs(Meaning(lhs, signed)) / Abs(Meaning(rhs, signed))
    ensures r.Divided? ==> Value(r.remainder) == Abs(Meaning(lhs, signed)) % Abs(Meaning(rhs, signed))
  {
    hide Value, Modulus, Meaning;
    var x := MakePositive(lhs, signed);
    var y := MakePositive(rhs, signed);
    ZeroMeaning(rhs, signed);
    r := Divide(x, y);
    if r.Divided? {
      DivModUnique(Value(x), Value(y), Value(r.quotient), Value(r.remainder));
    }
  }

  lemma ZeroMeaning(x: Wide, signed: bool)
    requires |x| > 0
    ensures Meaning(x, signed) == 0 <==> Value(x) == 0
  {
    MeaningInRange(x, signed);
    ModSmall(0, Modulus(x));
    if Value(x) == 0 {
      MeaningUnique(x, signed, 0);
    }
  }

  /** operator_slash */
  method Slash(lhs: Wide, rhs: Wide, signed: bool) returns (r: Result)
    requires |lhs| == |rhs| > 0
    ensures r.DivideError? <==> Meaning(rhs, signed) == 0 && |lhs| != 2
    ensures r.Undefined? <==> Meaning(rhs, signed) == 0 && |lhs| == 2
    ensures r.Ok? ==> |r.value| == |lhs|
    ensures r.Ok? ==> Value(r.value) == TruncDiv(Meaning(lhs, signed), Meaning(rhs, signed)) % Modulus(lhs)
  {
    hide Value, Modulus, Meaning;
    var d := DivideMagnitudes(lhs, rhs, signed);
    if !d.Divided? {
      return if d.DivisionByZero? then DivideError else Result.Undefined;
    }
    var q := d.quotient;
    SignsOf(lhs, signed);
    SignsOf(rhs, signed);
    ValueBound(q);
    SameModulus(q, lhs);
    ModSmall(Value(q), Modulus(lhs));
    if signed && Negative(rhs) != Negative(lhs) {
      q := UnaryMinus(q);
    }
    return Ok(q);
  }

  /** operator_percent: the remainder takes the sign of the dividend. */
  method Percent(lhs: Wide, rhs: Wide, signed: bool) returns (r: Result)
    requires |lhs| == |rhs| > 0
    ensures r.DivideError? <==> Meaning(rhs, signed) == 0 && |lhs| != 2
    ensures r.Undefined? <==> Meaning(rhs, signed) == 0 && |lhs| == 2
    ensures r.Ok? ==> |r.value| == |lhs|
    ensures r.Ok? ==> Meaning(r.value, signed) == TruncRem(Meaning(lhs, signed), Meaning(rhs, signed))
  {
    hide Value, Modulus, Meaning;
    var d := DivideMagnitudes(lhs, rhs, signed);
    if !d.Divided? {
      return if d.DivisionByZero? then DivideError else Result.Undefined;
    }
    var rem := d.remainder;
    SignsOf(lhs, signed);
    ValueBound(rem);
    SameModulus(rem, lhs);
    ModSmall(Value(rem), Modulus(lhs));
    if signed && Negative(lhs) {
      rem := UnaryMinus(rem);
    }
    RemainderInRange(lhs, rhs, signed);
    SameModulus(rem, lhs);
    MeaningUnique(rem, signed, TruncRem(Meaning(lhs, signed), Meaning(rhs, signed)));
    return Ok(rem);
  }

  lemma RemainderInRange(lhs: Wide, rhs: Wide, signed: bool)
    requires |lhs| == |rhs| > 0 && Meaning(rhs, signed) != 0
    ensures InRange(TruncRem(Meaning(lhs, signed), Meaning(rhs, signed)), Modulus(lhs), signed)
  {
    hide Value, Modulus, Meaning, TruncRem, TruncDiv;
    MeaningInRange(lhs, signed);
    MeaningInRange(rhs, signed);
    SameModulus(lhs, rhs);
    SignsOf(lhs, signed);
    TruncIdentity(Meaning(lhs, signed), Meaning(rhs, signed));
  }

  /** `(a / b) * b + a % b == a` on words, overflow of the quotient included. */
  lemma DivisionIdentity(lhs: Wide, rhs: Wide, q: Wide, r: Wide, signed: bool)
    requires |lhs| == |rhs| == |q| == |r| > 0 && Meaning(rhs, signed) != 0
    requires Value(q) == TruncDiv(Meaning(lhs, signed), Meaning(rhs, signed)) % Modulus(lhs)
    requires Meaning(r, signed) == TruncRem(Meaning(lhs, signed), Meaning(rhs, signed))
    ensures (Value(q) * Value(rhs) + Value(r)) % Modulus(lhs) == Value(lhs)
  {
    hide Value, Modulus, Meaning, TruncRem, TruncDiv;
    var a, b, m := Meaning(lhs, signed), Meaning(rhs, signed), Modulus(lhs);
    SameModulus(lhs, rhs);
    SameModulus(lhs, r);
    MeaningInRange(lhs, signed);
    MeaningInRange(rhs, signed);
    MeaningInRange(r, signed);
    TruncIdentity(a, b);
    ModulusPositive(lhs);
    ModLinear(TruncDiv(a, b), b, TruncRem(a, b), m);
  }

  /** Divides, takes the remainder, multiplies back and adds: the operators together give the dividend, limb by limb. */
  method DivideAndRestore(lhs: Wide, rhs: Wide, signed: bool) returns (r: Result)
    requires |lhs| == |rhs| > 0
    ensures r.DivideError? <==> Meaning(rhs, signed) == 0 && |lhs| != 2
    ensures r.Undefined? <==> Meaning(rhs, signed) == 0 && |lhs| == 2
    ensures r.Ok? ==> r.value == lhs
  {
    hide *;
    var q := Slash(lhs, rhs, signed);
    if !q.Ok? {
      return q;
    }
    var rest := Percent(lhs, rhs, signed);
    var product := Star(q.value, rhs, signed);
    var sum := Plus(product, rest.value);
    DivisionIdentity(lhs, rhs, q.value, rest.value, signed);
    Restored(lhs, rhs, q.value, rest.value, product, signed);
    ValueInjective(sum, lhs);
    r := Ok(sum);
  }

  lemma Restored(lhs: Wide, rhs: Wide, q: Wide, r: Wide, product: Wide, signed: bool)
    requires |lhs| == |rhs| == |q| == |r| == |product| > 0
    requires Value(product) == (Meaning(q, signed) * Meaning(rhs, signed)) % Modulus(q)
    ensures (Value(product) + Value(r)) % Modulus(product) == (Value(q) * Value(rhs) + Value(r)) % Modulus(lhs)
  {
    hide Value, Modulus, Meaning;
    SameModulus(lhs, q);
    SameModulus(lhs, rhs);
    SameModulus(lhs, product);
    ModulusPositive(lhs);
    MeaningInRange(q, signed);
    MeaningInRange(rhs, signed);
    ModMul(Meaning(q, signed), Meaning(rhs, signed), Modulus(lhs));
    ModAdd(Value(q) * Value(rhs), Value(r), Modulus(lhs));
  }

  /** The quotient is the truncated quotient itself, except for the one case that does not fit:
      the most negative number divided by minus one, which wraps to the dividend. */
  lemma QuotientMeaning(lhs: Wide, rhs: Wide, q: Wide, signed: bool)
    requires |lhs| == |rhs| == |q| > 0 && Meaning(rhs, signed) != 0
    requires Value(q) == TruncDiv(Meaning(lhs, signed), Meaning(rhs, signed)) % Modulus(lhs)
    ensures Meaning(q, signed) == TruncDiv(Meaning(lhs, signed), Meaning(rhs, signed))
       <==> !(2 * Meaning(lhs, signed) == 0 - Modulus(lhs) && Meaning(rhs, signed) == -1)
  {
    hide Value, Modulus, Meaning;
    var a, b, m := Meaning(lhs, signed), Meaning(rhs, signed), Modulus(lhs);
    SameModulus(lhs, q);
    SameModulus(lhs, rhs);
    MeaningInRange(lhs, signed);
    MeaningInRange(rhs, signed);
    MeaningInRange(q, signed);
    SignsOf(lhs, signed);
    SignsOf(rhs, signed);
    QuotientRange(a, b, m, signed);
    if !(2 * a + m == 0 && b == -1) {
      MeaningUnique(q, signed, TruncDiv(a, b));
    }
  }

  function MinimumWord(n: nat): Wide
    requires n > 0
  {
    seq(n - 1, _ => 0) + [0x8000_0000_0000_0000]
  }

  function MinusOneWord(n: nat): Wide {
    seq(n, _ => BASE - 1)
  }

  lemma MinimumWordValue(n: nat)
    requires n > 0
    ensures |MinimumWord(n)| == n && 2 * Value(MinimumWord(n)) == Modulus(MinimumWord(n)) && Negative(MinimumWord(n))
  {
    var x := MinimumWord(n);
    ZeroPrefix(x, n - 1);
    PrefixStep(x, n - 1);
  }

  lemma MinusOneWordValue(n: nat)
    requires n > 0
    ensures |MinusOneWord(n)| == n && Value(MinusOneWord(n)) == Modulus(MinusOneWord(n)) - 1
    ensures Meaning(MinusOneWord(n), true) == -1
  {
    OnesPrefix(MinusOneWord(n), 0, n);
  }

  /** The exception at every width: the minimum divided by -1 gives the word of the minimum again. */
  lemma MinimumOverMinusOne(n: nat, q: Wide)
    requires n > 0 && |q| == n
    ensures Meaning(MinusOneWord(n), true) == -1 && 2 * Meaning(MinimumWord(n), true) == 0 - Weight(n)
    ensures Value(q) == TruncDiv(Meaning(MinimumWord(n), true), -1) % Weight(n) <==> q == MinimumWord(n)
    ensures Meaning(MinimumWord(n), true) != TruncDiv(Meaning(MinimumWord(n), true), -1)
  {
    MinusOneWordValue(n);
    MinimumWordValue(n);
    var x := MinimumWord(n);
    hide Value, Weight, MinimumWord;
    var h: int := Value(x);
    assert TruncDiv(-h, -1) == h;
    ModSmall(h, Weight(n));
    if Value(q) == h {
      ValueInjective(q, x);
    }
  }

  /** At 128 bits a zero divisor reaches the native division. */
  method NativeByZero() returns (quotient: Result, remainder: Result)
    ensures quotient == remainder == Result.Undefined
  {
    var zero: Wide := [0, 0];
    ZeroValue(zero);
    ZeroMeaning(zero, true);
    quotient := Slash([1, 0], zero, true);
    remainder := Percent([1, 0], zero, true);
  }

  lemma QuotientRange(a: int, b: int, m: int, signed: bool)
    requires b != 0 && InRange(a, m, signed) && InRange(b, m, signed)
    ensures InRange(TruncDiv(a, b), m, signed) <==> !(2 * a == 0 - m && b == -1)
  {
    var t := TruncDiv(a, b);
    TruncIdentity(a, b);
    if Abs(b) >= 2 {
      HalfOrLess(t, b, a);
    } else {
      assert b == 1 || b == -1;
    }
  }

  lemma HalfOrLess(t: int, b: int, a: int)
    requires Abs(b) >= 2 && Abs(t * b) <= Abs(a)
    ensures 2 * Abs(t) <= Abs(a)
  {
    MulMonotone(2, Abs(b), Abs(t));
    assert Abs(b) * Abs(t) == Abs(t * b);
  }

  // ---------------------------------------------------------------- comparison

  /** operator_greater on equal widths: the sign decides, then the limbs. */
  method GreaterThan(lhs: Wide, rhs: Wide, signed: bool) returns (r: bool)
    requires |lhs| == |rhs| > 0
    ensures r <==> Meaning(lhs, signed) > Meaning(rhs, signed)
  {
    ValueBound(lhs);
    ValueBound(rhs);
    hide Value, Modulus;
    SameModulus(lhs, rhs);
    if signed && Negative(lhs) != Negative(rhs) {
      return Negative(rhs);
    }
    r := Greater(lhs, rhs);
  }

  method LessThan(lhs: Wide, rhs: Wide, signed: bool) returns (r: bool)
    requires |lhs| == |rhs| > 0
    ensures r <==> Meaning(lhs, signed) < Meaning(rhs, signed)
  {
    ValueBound(lhs);
    ValueBound(rhs);
    hide Value, Modulus;
    SameModulus(lhs, rhs);
    if signed && Negative(lhs) != Negative(rhs) {
      return Negative(lhs);
    }
    r := Greater(rhs, lhs);
  }
}
