/** Division of unsigned wide integers: by shifting and subtracting, and natively at 128 bits. */
module WideDivide {
  import opened Arith
  import opened WideInteger
  import opened WideShift
  import opened WideMultiply

  /** `Undefined`: a native division by zero, which C++ gives no meaning to. */
  datatype DivResult = DivisionByZero | Undefined | Divided(quotient: Wide, remainder: Wide)

  // ---------------------------------------------------------------- bitwise operators

  lemma {:induction false} OrFits(x: nat, y: nat, k: nat)
    requires x < Pow2(k) && y < Pow2(k)
    ensures Or(x, y) < Pow2(k)
    decreases k
  {
    if x > 0 && y > 0 {
      OrFits(x / 2, y / 2, k - 1);
    }
  }

  lemma OrIsLimb(x: Limb, y: Limb)
    ensures Or(x, y) < BASE
  {
    Pow2Words();
    OrFits(x, y, 64);
  }

  /** operator_pipe */
  method Pipe(lhs: Wide, rhs: Wide) returns (res: Wide)
    requires |lhs| == |rhs|
    ensures |res| == |lhs|
    ensures Value(res) == Or(Value(lhs), Value(rhs))
  {
    hide Or, Value;
    res := seq(|lhs|, _ => 0);
    var i := 0;
    while i < |lhs|
      invariant 0 <= i <= |lhs| == |res|
      invariant forall j :: 0 <= j < i ==> res[j] == Or(lhs[j], rhs[j])
    {
      OrIsLimb(lhs[i], rhs[i]);
      res := res[i := Or(lhs[i], rhs[i])];
      i := i + 1;
    }
    PipeValue(lhs, rhs, res, |lhs|);
    WholePrefix(lhs);
    WholePrefix(rhs);
    WholePrefix(res);
  }

  lemma {:induction false} PipeValue(x: Wide, y: Wide, z: Wide, i: nat)
    requires i <= |x| == |y| == |z|
    requires forall j :: 0 <= j < i ==> z[j] == Or(x[j], y[j])
    ensures Prefix(z, i) == Or(Prefix(x, i), Prefix(y, i))
  {
    if i > 0 {
      PipeValue(x, y, z, i - 1);
      PipeStep(x, y, z, i - 1);
    }
  }

  lemma PrefixSplit(x: Wide, i: nat)
    requires i < |x|
    ensures Prefix(x, i) < Pow2(64 * i) && Prefix(x, i + 1) == Prefix(x, i) + Pow2(64 * i) * x[i]
  {
    hide *;
    PrefixStep(x, i);
    PrefixBound(x, i);
    WeightIsPow2(i);
  }

  lemma PipeStep(x: Wide, y: Wide, z: Wide, i: nat)
    requires i < |x| == |y| == |z|
    requires z[i] == Or(x[i], y[i]) && Prefix(z, i) == Or(Prefix(x, i), Prefix(y, i))
    ensures Prefix(z, i + 1) == Or(Prefix(x, i + 1), Prefix(y, i + 1))
  {
    hide *;
    PrefixSplit(x, i);
    PrefixSplit(y, i);
    PrefixSplit(z, i);
    OrSplit(Prefix(x, i), x[i], Prefix(y, i), y[i], 64 * i);
  }

  /** The test of the normalising loop: `is_zero(amp(shift_right(x, Bits - 1), 1))`. */
  method TopBitClear(x: Wide) returns (clear: bool)
    requires |x| > 0
    ensures clear <==> 2 * Value(x) < Modulus(x)
  {
    hide Pow2, Value, Prefix, Weight, Modulus, And;
    var top := ShiftRight(x, 64 * |x| - 1, false);
    var masked := Amp(top, [1]);
    clear := IsZero(masked);
    TopBit(x, top);
    MaskedBit(top, masked);
  }

  /** operator_amp */
  method Amp(lhs: Wide, rhs: Wide) returns (res: Wide)
    ensures |res| == |lhs|
    ensures forall i :: 0 <= i < |lhs| ==> res[i] == And(lhs[i], Item(rhs, i))
  {
    hide And;
    res := seq(|lhs|, _ => 0);
    var i := 0;
    while i < |lhs|
      invariant 0 <= i <= |lhs| == |res|
      invariant forall j :: 0 <= j < i ==> res[j] == And(lhs[j], Item(rhs, j))
    {
      AndSmaller(lhs[i], Item(rhs, i));
      res := res[i := And(lhs[i], Item(rhs, i))];
      i := i + 1;
    }
  }

  lemma {:induction false} AndSmaller(x: nat, y: nat)
    ensures And(x, y) <= x
  {
    if x > 0 {
      AndSmaller(x / 2, y / 2);
    }
  }

  lemma TopBit(x: Wide, top: Wide)
    requires |top| == |x| > 0
    requires Meaning(top, false) == Meaning(x, false) / Pow2(64 * |x| - 1)
    ensures Value(top) == if 2 * Value(x) < Modulus(x) then 0 else 1
  {
    var h := Pow2(64 * |x| - 1);
    WeightIsPow2(|x|);
    assert Modulus(x) == 2 * h;
    ValueBound(x);
    hide Pow2, Value, Weight, Modulus;
    if 2 * Value(x) < Modulus(x) {
      DivModUnique(Value(x), h, 0, Value(x));
    } else {
      DivModUnique(Value(x), h, 1, Value(x) - h);
    }
  }

  lemma MaskedBit(top: Wide, masked: Wide)
    requires |top| == |masked| > 0 && Value(top) <= 1
    requires forall i :: 0 <= i < |top| ==> masked[i] == And(top[i], Item([1], i))
    ensures Value(masked) == Value(top)
  {
    var unit := Extend([Value(top)], |top|);
    ExtendKeepsValue([Value(top)], |top|);
    assert Prefix([Value(top)], 1) == Value(top);
    ValueInjective(top, unit);
    forall i | 0 <= i < |top| ensures masked[i] == top[i] {
      if i == 0 {
        AndOdd(top[0], 0);
        AndZero(top[0] / 2);
      } else {
        assert And(0, 0) == 0;
      }
    }
    assert masked == top;
  }

  // ---------------------------------------------------------------- divide

  /** Both loops keep `denominator == d * x` with `x` a power of two. */
  ghost predicate Scaled(den: Wide, x: Wide, d: nat, k: nat) {
    && |den| == |x| > 0 && d > 0
    && Value(x) == Pow2(k) && Value(den) == d * Pow2(k)
  }

  lemma ScaleUp(den: Wide, x: Wide, den': Wide, x': Wide, d: nat, k: nat)
    requires Scaled(den, x, d, k) && |den'| == |x'| == |den| && 2 * Value(den) < Modulus(den)
    requires Value(x') == (Value(x) * Pow2(1)) % Modulus(x)
    requires Value(den') == (Value(den) * Pow2(1)) % Modulus(den)
    ensures Scaled(den', x', d, k + 1) && Value(den') == 2 * Value(den)
  {
    hide Value, Modulus, Pow2;
    Doubling(d, k);
    SameModulus(den, x);
    ModSmall(2 * Value(x), Modulus(den));
    ModSmall(2 * Value(den), Modulus(den));
  }

  lemma Doubling(d: nat, k: nat)
    requires d > 0
    ensures Pow2(1) == 2 && Pow2(k + 1) == 2 * Pow2(k)
    ensures d * Pow2(k + 1) == 2 * (d * Pow2(k)) && Pow2(k) <= d * Pow2(k)
  {
    assert Pow2(1) == 2 && Pow2(k + 1) == 2 * Pow2(k);
    MulMonotone(1, d, Pow2(k));
    var p := Pow2(k);
    assert d * (2 * p) == 2 * (d * p);
  }

  lemma ScaleDown(den: Wide, x: Wide, den': Wide, x': Wide, d: nat, k: nat)
    requires Scaled(den, x, d, k) && |den'| == |x'| == |den|
    requires Value(x') == Value(x) / Pow2(1) && Value(den') == Value(den) / Pow2(1)
    ensures k > 0 ==> Scaled(den', x', d, k - 1) && 2 * Value(den') == Value(den)
    ensures k == 0 ==> Value(x') == 0
  {
    if k > 0 {
      hide Pow2, Value;
      Doubling(d, k - 1);
    } else {
      assert Pow2(1) == 2 && Pow2(0) == 1;
    }
  }

  /** First loop: the largest doubling of the denominator that still fits. */
  method Normalise(num: Wide, den0: Wide) returns (den: Wide, x: Wide, ghost k: nat)
    requires |num| == |den0| > 0 && Value(den0) > 0
    ensures Scaled(den, x, Value(den0), k) && |den| == |x| == |num|
    ensures Value(num) < 2 * Value(den)
  {
    hide Pow2, Value, Prefix, Weight, Modulus, Scaled;
    den := den0;
    x := One(|num|);
    k := 0;
    StartScale(den0, x);
    while true
      invariant |den| == |x| == |num|
      invariant Scaled(den, x, Value(den0), k) && Value(den) > 0
      decreases Modulus(num) - Value(den)
    {
      ValueBound(num);
      SameModulus(num, den);
      var greater := Greater(den, num);
      if greater {
        break;
      }
      var clear := TopBitClear(den);
      if !clear {
        break;
      }
      var x' := ShiftLeft(x, 1);
      var den' := ShiftLeft(den, 1);
      ScaleUp(den, x, den', x', Value(den0), k);
      x, den, k := x', den', k + 1;
    }
  }

  method One(n: nat) returns (x: Wide)
    requires n > 0
    ensures |x| == n && Value(x) == 1
  {
    x := Extend([1], n);
    ExtendKeepsValue([1], n);
    assert Prefix([1], 1) == 1;
  }

  lemma StartScale(den: Wide, x: Wide)
    requires |den| == |x| > 0 && Value(den) > 0 && Value(x) == 1
    ensures Scaled(den, x, Value(den), 0)
  {
    assert Pow2(0) == 1;
  }

  /** What the subtracting loop keeps, while `x` is the power `k` and after it has run out. */
  ghost predicate Dividing(n: nat, d: nat, num: nat, den: nat, x: nat, q: nat, k: nat) {
    && n == q * d + num
    && (x != 0 ==> num < 2 * den && q % (2 * Pow2(k)) == 0)
    && (x == 0 ==> num < d)
  }

  lemma DividingStep(n: nat, d: nat, num: nat, den: nat, x: nat, q: nat, k: nat)
    requires d > 0 && x == Pow2(k) && den == d * Pow2(k)
    requires Dividing(n, d, num, den, x, q, k)
    ensures num < 2 * den && n == q * d + num
    ensures num >= den ==> Or(q, x) == q + x && n == (q + x) * d + (num - den)
    ensures num >= den ==> (q + x) % Pow2(k) == 0
    ensures num < den ==> q % Pow2(k) == 0
  {
    var p := Pow2(k);
    var h, r := DivIdentity(q, 2 * p);
    assert Pow2(k + 1) == 2 * p;
    hide Pow2, Or;
    MultipleOfDouble(h, p, d, q);
    ModOfMultiple(0, 2 * h, p);
    ModOfMultiple(0, 2 * h + 1, p);
    if num >= den {
      QuotientNat(h, p, q);
      OrDisjoint(h, p, k + 1);
    }
  }

  lemma MultipleOfDouble(h: int, p: int, d: int, q: int)
    requires q == h * (2 * p)
    ensures q == (2 * h) * p && q + p == (2 * h + 1) * p && (q + p) * d == q * d + d * p
  {
  }

  lemma QuotientNat(h: int, p: nat, q: nat)
    requires p > 0 && q == h * (2 * p)
    ensures h >= 0
  {
    if h < 0 {
      MulMonotone(h, -1, 2 * p);
    }
  }

  lemma DividingNext(n: nat, d: nat, num: nat, den: nat, q: nat, k: nat, den': nat, x': nat)
    requires n == q * d + num && num < den && den == d * Pow2(k) && q % Pow2(k) == 0
    requires k > 0 ==> x' == Pow2(k - 1) && 2 * den' == den
    requires k == 0 ==> x' == 0
    ensures Dividing(n, d, num, den', x', q, if k > 0 then k - 1 else 0)
  {
    if k > 0 {
      assert Pow2(k) == 2 * Pow2(k - 1);
    } else {
      assert Pow2(0) == 1;
    }
  }

  lemma DividingStart(num: Wide, den: Wide, x: Wide, d: nat, k: nat)
    requires Scaled(den, x, d, k) && Value(num) < 2 * Value(den)
    ensures Value(x) != 0
    ensures Dividing(Value(num), d, Value(num), Value(den), Value(x), 0, k)
  {
    ModSmall(0, 2 * Pow2(k));
  }

  lemma ScaledValues(den: Wide, x: Wide, d: nat, k: nat)
    requires Scaled(den, x, d, k)
    ensures Value(x) == Pow2(k) > 0 && Value(den) == d * Pow2(k) && d > 0
  {
  }

  method Subtract(num: Wide, den: Wide) returns (res: Wide)
    requires |num| == |den| && Value(den) <= Value(num)
    ensures |res| == |num| && Value(res) == Value(num) - Value(den)
  {
    res := Minus(num, den);
    hide Value, Modulus;
    ValueBound(num);
    ModSmall(Value(num) - Value(den), Modulus(num));
  }

  lemma Halved(x: Wide, x': Wide)
    requires Meaning(x', false) == Meaning(x, false) / Pow2(1)
    ensures Value(x') == Value(x) / Pow2(1) && (Value(x) > 0 ==> Value(x') < Value(x))
  {
    assert Pow2(1) == 2;
  }

  lemma DividingEnd(n: nat, d: nat, num: nat, den: nat, q: nat, k: nat)
    requires Dividing(n, d, num, den, 0, q, k)
    ensures n == q * d + num && num < d
  {
  }

  /** The division by shifting and subtracting. */
  method DivideByShifts(numerator: Wide, denominator: Wide) returns (r: DivResult)
    requires |numerator| == |denominator| > 0
    ensures r.DivisionByZero? <==> Value(denominator) == 0
    ensures !r.Undefined?
    ensures r.Divided? ==> |r.quotient| == |r.remainder| == |numerator|
    ensures r.Divided? ==> Value(numerator) == Value(r.quotient) * Value(denominator) + Value(r.remainder)
    ensures r.Divided? ==> Value(r.remainder) < Value(denominator)
  {
    hide Pow2, Value, Prefix, Weight, Modulus, Scaled, Or, Dividing;
    var zero := IsZero(denominator);
    if zero {
      return DivisionByZero;
    }
    ghost var n, d := Value(numerator), Value(denominator);
    var num := numerator;
    var quotient := seq(|numerator|, _ => 0);
    ZeroValue(quotient);
    ghost var k;
    var den, x;
    den, x, k := Normalise(num, denominator);
    ghost var live := true;
    DividingStart(num, den, x, d, k);
    while true
      invariant |num| == |den| == |x| == |quotient| == |numerator|
      invariant live ==> Scaled(den, x, d, k)
      invariant live <==> Value(x) != 0
      invariant Dividing(n, d, Value(num), Value(den), Value(x), Value(quotient), k)
      decreases Value(x)
    {
      var done := IsZero(x);
      if done {
        break;
      }
      ghost var num0, q0 := Value(num), Value(quotient);
      ScaledValues(den, x, d, k);
      DividingStep(n, d, num0, Value(den), Value(x), q0, k);
      var greater := Greater(den, num);
      if !greater {
        num := Subtract(num, den);
        quotient := Pipe(quotient, x);
      }
      var x' := ShiftRight(x, 1, false);
      var den' := ShiftRight(den, 1, false);
      Halved(x, x');
      Halved(den, den');
      ScaleDown(den, x, den', x', d, k);
      if k > 0 {
        ScaledValues(den', x', d, k - 1);
      }
      DividingNext(n, d, Value(num), Value(den), Value(quotient), k, Value(den'), Value(x'));
      live := k > 0;
      x, den, k := x', den', if k > 0 then k - 1 else 0;
    }
    DividingEnd(n, d, Value(num), Value(den), Value(quotient), k);
    return Divided(quotient, num);
  }

  /** The 128-bit division of the compiler; nothing tests the denominator. */
  method DivideNative(numerator: Wide, denominator: Wide) returns (r: DivResult)
    requires |numerator| == |denominator| == 2
    ensures r.Undefined? <==> Value(denominator) == 0
    ensures !r.DivisionByZero?
    ensures r.Divided? ==> |r.quotient| == |r.remainder| == 2
    ensures r.Divided? ==> Value(numerator) == Value(r.quotient) * Value(denominator) + Value(r.remainder)
    ensures r.Divided? ==> Value(r.remainder) < Value(denominator)
  {
    hide Value, Modulus, Words;
    Value2(numerator);
    Value2(denominator);
    var a, b := numerator[1] * BASE + numerator[0], denominator[1] * BASE + denominator[0];
    if b == 0 {
      return Undefined;
    }
    NativeQuotient(a, b);
    var c := a / b;
    var remainder := a - b * c;
    WordsValue(c);
    WordsValue(remainder);
    r := Divided(Words(c), Words(remainder));
  }

  lemma NativeQuotient(a: nat, b: nat)
    requires b > 0
    ensures 0 <= a / b <= a && 0 <= a - b * (a / b) < b && a - b * (a / b) <= a && a == (a / b) * b + (a - b * (a / b))
  {
    var q, r := DivIdentity(a, b);
    DivModUnique(a, b, q, r);
    if q > a {
      MulMonotone(a + 1, q, b);
      MulMonotone(1, b, a + 1);
    }
    if q < 0 {
      MulMonotone(q, -1, b);
    }
    if q >= 0 {
      MulMonotone(0, q, b);
    }
  }

  /** Quotient and remainder of unsigned wide integers: a zero denominator is refused if and only if the width is not
      128 bits. */
  method Divide(numerator: Wide, denominator: Wide) returns (r: DivResult)
    requires |numerator| == |denominator| > 0
    ensures r.DivisionByZero? <==> Value(denominator) == 0 && |numerator| != 2
    ensures r.Undefined? <==> Value(denominator) == 0 && |numerator| == 2
    ensures r.Divided? ==> |r.quotient| == |r.remainder| == |numerator|
    ensures r.Divided? ==> Value(numerator) == Value(r.quotient) * Value(denominator) + Value(r.remainder)
    ensures r.Divided? ==> Value(r.remainder) < Value(denominator)
  {
    hide Value;
    if |numerator| == 2 {
      r := DivideNative(numerator, denominator);
    } else {
      r := DivideByShifts(numerator, denominator);
    }
  }
}
