/** Exact comparison of a floating point number, given by its IEEE 754 binary encoding, with an integer. */
module DecomposedFloat {
  import opened Arith

  // ---------------------------------------------------------------- encodings

  datatype Format = Format(exponentBits: nat, mantissaBits: nat) {
    predicate Valid() {
      exponentBits >= 2 && mantissaBits >= 1
    }

    function Bits(): nat {
      exponentBits + mantissaBits + 1
    }

    function Bias(): nat
      requires Valid()
    {
      BiasPositive();
      Pow2(exponentBits - 1) - 1
    }

    lemma BiasPositive()
      requires Valid()
      ensures Pow2(exponentBits - 1) >= 2
    {
      Pow2Monotone(1, exponentBits - 1);
    }
  }

  const FLOAT32 := Format(8, 23)
  const FLOAT64 := Format(11, 52)

  function Quotient(x: nat, d: nat): nat
    requires d > 0
  {
    x / d
  }

  function ShiftRight(x: nat, k: nat): nat {
    Quotient(x, Pow2(k))
  }

  predicate IsNegative(f: Format, x: nat) {
    ShiftRight(x, f.Bits() - 1) != 0
  }

  function ExponentMask(f: Format): nat {
    (Pow2(f.exponentBits + 1) - 1) / 2
  }

  function Exponent(f: Format, x: nat): nat {
    And(ShiftRight(x, f.mantissaBits), ExponentMask(f))
  }

  function NormalizedExponent(f: Format, x: nat): int
    requires f.Valid()
  {
    Exponent(f, x) - f.Bias()
  }

  function Mantissa(f: Format, x: nat): nat {
    And(x, Pow2(f.mantissaBits) - 1)
  }

  /** Zero for both zeros. */
  function Signum(f: Format, x: nat): int {
    if Exponent(f, x) == 0 && Mantissa(f, x) == 0 then 0 else if IsNegative(f, x) then -1 else 1
  }

  // ---------------------------------------------------------------- integers

  /** The integer types: `width` bits, signed or not. */
  ghost predicate InType(v: int, width: nat, signed: bool) {
    width > 0 && if signed then 0 - Pow2(width - 1) <= v < Pow2(width - 1) else 0 <= v < Pow2(width)
  }

  function MagnitudeBits(width: nat, signed: bool): nat
    requires width > 0
  {
    if signed then width - 1 else width
  }

  // ---------------------------------------------------------------- compare

  /** Both magnitudes between the same powers of two. */
  function CompareOctave(f: Format, negative: bool, exponent: nat, mantissa: nat, magnitude: nat): int {
    var large := exponent >= f.mantissaBits;
    var a := if large then mantissa * Pow2(exponent - f.mantissaBits) else mantissa / Pow2(f.mantissaBits - exponent);
    var b := magnitude - Pow2(exponent);
    if a < b then if negative then 1 else -1
    else if a > b then if negative then -1 else 1
    else if large || And(mantissa, Pow2(f.mantissaBits - exponent) - 1) == 0 then 0
    else if negative then -1 else 1
  }

  function Compare(f: Format, x: nat, rhs: int, width: nat, signed: bool): int
    requires f.Valid() && width > 0
  {
    var n, bits := NormalizedExponent(f, x), MagnitudeBits(width, signed);
    var negative := IsNegative(f, x);
    if rhs == 0 then Signum(f, x)
    else if negative && rhs > 0 then -1
    else if !negative && rhs < 0 then 1
    else if n < 0 then
      if !negative then if rhs > 0 then -1 else 1
      else if rhs >= 0 then -1 else 1
    else if signed && rhs == 0 - Pow2(width - 1) then
      if n < bits then 1
      else if n > bits then -1
      else if Mantissa(f, x) == 0 then 0 else -1
    else if n >= bits then if negative then -1 else 1
    else
      var magnitude := if rhs < 0 then -rhs else rhs;
      if magnitude < Pow2(n) then if negative then -1 else 1
      else if n + 1 < bits && magnitude >= Pow2(n + 1) then if negative then 1 else -1
      else CompareOctave(f, negative, n, Mantissa(f, x), magnitude)
  }

  // ---------------------------------------------------------------- what it should compute

  function Sign(v: int): int {
    if v < 0 then -1 else if v > 0 then 1 else 0
  }

  /** The unit the values below are counted in: one, as a multiple of the smallest subnormal number. */
  function Unit(f: Format): nat
    requires f.Valid()
  {
    f.BiasPositive();
    Pow2(f.Bias() - 1 + f.mantissaBits)
  }

  /** The magnitude, as a multiple of the smallest subnormal number; the largest exponent counts as one more octave. */
  function Magnitude(f: Format, exponent: nat, mantissa: nat): nat {
    if exponent == 0 then mantissa else (Pow2(f.mantissaBits) + mantissa) * Pow2(exponent - 1)
  }

  function ValueOf(f: Format, x: nat): int {
    var magnitude := Magnitude(f, Exponent(f, x), Mantissa(f, x));
    if IsNegative(f, x) then 0 - magnitude else magnitude
  }

  // ---------------------------------------------------------------- arithmetic of octaves

  lemma SignScale(v: int, k: nat)
    requires k > 0
    ensures Sign(v * k) == Sign(v)
  {
    if v > 0 {
      MulMonotone(1, v, k);
    } else if v < 0 {
      MulMonotone(v, -1, k);
    }
  }

  /** The smaller octave: `r < n` against `(p + m) * n / p`. */
  lemma SmallerOctave(p: nat, m: nat, n: nat, r: nat)
    requires r < n && p > 0
    ensures Sign((p + m) * n - r * p) == 1
  {
    MulMonotone(r + 1, n, p);
    assert (p + m) * n == n * p + m * n;
  }

  lemma LargerOctave(p: nat, m: nat, n: nat, r: nat)
    requires r >= 2 * n && m < p && n > 0
    ensures Sign((p + m) * n - r * p) == -1
  {
    MulMonotone(2 * n, r, p);
    MulMonotone(m + 1, p, n);
    assert (p + m) * n == n * p + m * n && (2 * n) * p == n * p + n * p && (m + 1) * n == m * n + n;
  }

  /** The same octave: only what is above `n` matters. */
  lemma SameOctave(p: nat, m: nat, n: nat, r: int, b: int)
    requires r == n + b
    ensures (p + m) * n - r * p == m * n - b * p
  {
    assert (p + m) * n == n * p + m * n && r * p == n * p + b * p;
  }

  lemma IntegerOctave(p: nat, m: nat, n: nat, d: nat, b: int)
    requires n == d * p && p > 0
    ensures Sign(m * n - b * p) == Sign(m * d - b)
  {
    assert m * n == (m * d) * p;
    assert m * n - b * p == (m * d - b) * p;
    SignScale(m * d - b, p);
  }

  lemma FractionOctave(p: nat, m: nat, n: nat, d: nat, b: int, a: int, rest: int)
    requires p == d * n && d > 0 && n > 0 && m == a * d + rest && 0 <= rest < d
    ensures Sign(m * n - b * p) == if a < b then -1 else if a > b || rest > 0 then 1 else 0
  {
    assert b * p == (b * d) * n;
    assert m * n - b * p == (m - b * d) * n;
    SignScale(m - b * d, n);
    if a < b {
      MulMonotone(a + 1, b, d);
    } else if a > b {
      MulMonotone(b + 1, a, d);
    }
  }

  function Signed(negative: bool, sign: int): int {
    if negative then 0 - sign else sign
  }

  lemma CompareOctaveExact(f: Format, negative: bool, n: nat, m: nat, r: nat)
    requires Pow2(n) <= r < 2 * Pow2(n) && m < Pow2(f.mantissaBits)
    ensures CompareOctave(f, negative, n, m, r)
         == Signed(negative, Sign((Pow2(f.mantissaBits) + m) * Pow2(n) - r * Pow2(f.mantissaBits)))
  {
    hide Pow2, And;
    var p, b := Pow2(f.mantissaBits), r - Pow2(n);
    SameOctave(p, m, Pow2(n), r, b);
    if n >= f.mantissaBits {
      var d := Pow2(n - f.mantissaBits);
      Pow2Add(n - f.mantissaBits, f.mantissaBits);
      IntegerOctave(p, m, Pow2(n), d, b);
    } else {
      var d := Pow2(f.mantissaBits - n);
      Pow2Add(f.mantissaBits - n, n);
      AndMask(m, f.mantissaBits - n);
      var a, rest := DivIdentity(m, d);
      DivModUnique(m, d, a, rest);
      FractionOctave(p, m, Pow2(n), d, b, a, rest);
    }
  }

  // ---------------------------------------------------------------- compare is exact

  lemma Fields(f: Format, x: nat)
    ensures Exponent(f, x) < Pow2(f.exponentBits) && Mantissa(f, x) < Pow2(f.mantissaBits)
  {
    hide And;
    MaskIs(f);
    hide Pow2, ExponentMask, ShiftRight;
    AndMask(ShiftRight(x, f.mantissaBits), f.exponentBits);
    AndMask(x, f.mantissaBits);
  }

  /** Numbers below one. */
  lemma BelowOne(f: Format, e: nat, m: nat)
    requires f.Valid() && e < f.Bias() && m < Pow2(f.mantissaBits)
    ensures Magnitude(f, e, m) < Unit(f)
  {
    var mb, unitBits := f.mantissaBits, f.Bias() - 1 + f.mantissaBits;
    hide Pow2, Format.Bias;
    if e == 0 {
      Pow2Monotone(mb, unitBits);
    } else {
      Pow2Add(mb, e - 1);
      Pow2Add(1 + mb, e - 1);
      Pow2Monotone(1 + mb + (e - 1), unitBits);
      TwicePower(mb);
      MulMonotone(Pow2(mb) + m + 1, Pow2(1 + mb), Pow2(e - 1));
      assert (Pow2(mb) + m + 1) * Pow2(e - 1) == (Pow2(mb) + m) * Pow2(e - 1) + Pow2(e - 1);
    }
  }

  lemma TwicePower(k: nat)
    ensures Pow2(1 + k) == 2 * Pow2(k)
  {
  }

  /** Numbers from one on: the difference has the sign of `(p + m) * 2^n - r * p`. */
  lemma FromOne(f: Format, n: nat, m: nat, r: nat, e: nat)
    requires f.Valid() && e == n + f.Bias()
    ensures Sign(Magnitude(f, e, m) - r * Unit(f)) == Sign((Pow2(f.mantissaBits) + m) * Pow2(n) - r * Pow2(f.mantissaBits))
  {
    f.BiasPositive();
    var k, p := f.Bias() - 1, Pow2(f.mantissaBits);
    hide Pow2, Format.Bias;
    assert e - 1 == n + k;
    Pow2Add(n, k);
    Pow2Add(f.mantissaBits, k);
    CommonFactor(p + m, Pow2(n), r, p, Pow2(k));
    SignScale((p + m) * Pow2(n) - r * p, Pow2(k));
  }

  lemma CommonFactor(x: int, n: int, r: int, p: int, k: int)
    ensures x * (n * k) - r * (p * k) == (x * n - r * p) * k
  {
    MulAssociative(x, n, k);
    MulAssociative(r, p, k);
  }

  /** The comparison of magnitudes that `Compare` makes once the signs agree. */
  lemma SameSigns(f: Format, x: nat, rhs: int, width: nat, signed: bool, r: nat, n: nat, m: nat)
    requires f.Valid() && InType(rhs, width, signed)
    requires rhs != 0 && IsNegative(f, x) == (rhs < 0) && r == if rhs < 0 then -rhs else rhs
    requires n == NormalizedExponent(f, x) && m == Mantissa(f, x) && m < Pow2(f.mantissaBits)
    ensures Compare(f, x, rhs, width, signed)
         == Signed(rhs < 0, Sign((Pow2(f.mantissaBits) + m) * Pow2(n) - r * Pow2(f.mantissaBits)))
  {
    hide Pow2, NormalizedExponent, Mantissa, IsNegative, CompareOctave, Sign;
    var p, bits := Pow2(f.mantissaBits), MagnitudeBits(width, signed);
    TwicePower(n);
    if n < bits {
      Pow2Monotone(n + 1, bits);
    } else {
      Pow2Monotone(bits, n);
    }
    if n > bits {
      Pow2Monotone(bits + 1, n);
      TwicePower(bits);
    }
    if r < Pow2(n) {
      SmallerOctave(p, m, Pow2(n), r);
    } else if r >= 2 * Pow2(n) {
      LargerOctave(p, m, Pow2(n), r);
    } else {
      CompareOctaveExact(f, rhs < 0, n, m, r);
      AtLowest(p, m, Pow2(n), r);
    }
  }

  lemma AtLowest(p: nat, m: nat, n: nat, r: nat)
    requires n > 0
    ensures r == n ==> Sign((p + m) * n - r * p) == if m == 0 then 0 else 1
  {
    if r == n {
      SameOctave(p, m, n, r, 0);
      SignScale(m, n);
    }
  }

  lemma MagnitudeZero(f: Format, e: nat, m: nat)
    ensures Magnitude(f, e, m) == 0 <==> e == 0 && m == 0
  {
    if e > 0 {
      MulMonotone(1, Pow2(f.mantissaBits) + m, Pow2(e - 1));
    }
  }

  lemma UnitMultiple(rhs: int, unit: nat)
    requires unit > 0
    ensures rhs > 0 ==> rhs * unit >= unit
    ensures rhs < 0 ==> rhs * unit <= 0 - unit
    ensures (0 - rhs) * unit == 0 - rhs * unit
    ensures rhs == 0 ==> rhs * unit == 0
  {
    if rhs > 0 {
      MulMonotone(1, rhs, unit);
    } else if rhs < 0 {
      MulMonotone(rhs, -1, unit);
    }
  }

  lemma BelowOneCase(f: Format, x: nat, rhs: int, width: nat, signed: bool)
    requires f.Valid() && width > 0 && NormalizedExponent(f, x) < 0 && rhs != 0 && IsNegative(f, x) == (rhs < 0)
    ensures Compare(f, x, rhs, width, signed) == Signed(rhs < 0, -1)
  {
    hide Pow2, NormalizedExponent, Mantissa, IsNegative, CompareOctave;
  }

  /** The difference of magnitudes decides once the signs agree. */
  lemma SameSignsExact(f: Format, x: nat, rhs: int, width: nat, signed: bool, r: nat)
    requires f.Valid() && InType(rhs, width, signed)
    requires rhs != 0 && IsNegative(f, x) == (rhs < 0) && r == if rhs < 0 then -rhs else rhs
    ensures Compare(f, x, rhs, width, signed)
         == Signed(rhs < 0, Sign(Magnitude(f, Exponent(f, x), Mantissa(f, x)) - r * Unit(f)))
  {
    hide Pow2, Exponent, Mantissa, IsNegative, Magnitude, Unit, Compare, Format.Bias;
    var e, m, n := Exponent(f, x), Mantissa(f, x), NormalizedExponent(f, x);
    Fields(f, x);
    if n < 0 {
      BelowOne(f, e, m);
      UnitMultiple(r, Unit(f));
      BelowOneCase(f, x, rhs, width, signed);
    } else {
      SameSigns(f, x, rhs, width, signed, r, n, m);
      FromOne(f, n, m, r, e);
    }
  }

  lemma OtherSigns(f: Format, x: nat, rhs: int, width: nat, signed: bool)
    requires f.Valid() && width > 0 && (rhs == 0 || IsNegative(f, x) != (rhs < 0))
    ensures Compare(f, x, rhs, width, signed) == if rhs == 0 then Signum(f, x) else if rhs > 0 then -1 else 1
  {
    hide Pow2, NormalizedExponent, Mantissa, IsNegative, CompareOctave, Signum;
  }

  lemma UnitPositive(f: Format)
    requires f.Valid()
    ensures Unit(f) > 0
  {
  }

  /** For every encoding and every integer of every width, signed or not:
      the sign of the exact difference, with the largest exponent read as one more octave. */
  lemma CompareExact(f: Format, x: nat, rhs: int, width: nat, signed: bool)
    requires f.Valid() && InType(rhs, width, signed)
    ensures Compare(f, x, rhs, width, signed) == Sign(ValueOf(f, x) - rhs * Unit(f))
  {
    hide Pow2, Exponent, Mantissa, IsNegative, Magnitude, Unit, Compare;
    UnitPositive(f);
    UnitMultiple(rhs, Unit(f));
    if rhs == 0 || IsNegative(f, x) != (rhs < 0) {
      OtherSigns(f, x, rhs, width, signed);
      MagnitudeZero(f, Exponent(f, x), Mantissa(f, x));
    } else {
      SameSignsExact(f, x, rhs, width, signed, if rhs < 0 then -rhs else rhs);
    }
  }

  // ---------------------------------------------------------------- the fields of an encoding

  /** The IEEE 754 layout: the sign in the highest bit, then the exponent, then the mantissa. */
  function Encode(f: Format, negative: bool, e: nat, m: nat): nat {
    (if negative then Pow2(f.exponentBits + f.mantissaBits) else 0) + (e * Pow2(f.mantissaBits) + m)
  }

  lemma EncodeParts(f: Format, negative: bool, e: nat, m: nat)
    requires e < Pow2(f.exponentBits) && m < Pow2(f.mantissaBits)
    ensures var sign := if negative then 1 else 0;
      && Encode(f, negative, e, m) == sign * Pow2(f.exponentBits + f.mantissaBits) + (e * Pow2(f.mantissaBits) + m)
      && Encode(f, negative, e, m) == (sign * Pow2(f.exponentBits) + e) * Pow2(f.mantissaBits) + m
      && e * Pow2(f.mantissaBits) + m < Pow2(f.exponentBits + f.mantissaBits)
  {
    hide Pow2;
    Pow2Add(f.exponentBits, f.mantissaBits);
    MulMonotone(e + 1, Pow2(f.exponentBits), Pow2(f.mantissaBits));
    SumTimes(if negative then 1 else 0, Pow2(f.exponentBits), e, Pow2(f.mantissaBits));
  }

  lemma SumTimes(sign: int, k: int, e: int, p: int)
    ensures (sign * k + e) * p == sign * (k * p) + e * p
    ensures (e + 1) * p == e * p + p
  {
    MulAssociative(sign, k, p);
  }

  lemma SignOf(f: Format, x: nat, sign: nat, rest: nat)
    requires f.Valid() && x == sign * Pow2(f.exponentBits + f.mantissaBits) + rest && rest < Pow2(f.exponentBits + f.mantissaBits)
    ensures IsNegative(f, x) <==> sign != 0
  {
    hide Pow2;
    DivModUnique(x, Pow2(f.exponentBits + f.mantissaBits), sign, rest);
  }

  lemma ExponentOf(f: Format, x: nat, sign: nat, e: nat, m: nat)
    requires x == (sign * Pow2(f.exponentBits) + e) * Pow2(f.mantissaBits) + m && e < Pow2(f.exponentBits) && m < Pow2(f.mantissaBits)
    ensures Exponent(f, x) == e && Mantissa(f, x) == m
  {
    hide And, Pow2, ExponentMask, ShiftRight;
    var high := sign * Pow2(f.exponentBits) + e;
    MaskIs(f);
    ShiftedOut(x, f.mantissaBits, high, m);
    ShiftedOut(high, f.exponentBits, sign, e);
  }

  lemma MaskIs(f: Format)
    ensures ExponentMask(f) == Pow2(f.exponentBits) - 1
  {
  }

  /** A shift and a mask take a word apart. */
  lemma ShiftedOut(x: nat, k: nat, high: nat, low: nat)
    requires x == high * Pow2(k) + low && low < Pow2(k)
    ensures ShiftRight(x, k) == high && And(x, Pow2(k) - 1) == low
  {
    hide And, Pow2;
    DivModUnique(x, Pow2(k), high, low);
    AndMask(x, k);
  }

  /** The three accessors read exactly these fields. */
  lemma FieldsOfEncoding(f: Format, negative: bool, e: nat, m: nat)
    requires f.Valid() && e < Pow2(f.exponentBits) && m < Pow2(f.mantissaBits)
    ensures var x := Encode(f, negative, e, m);
      (IsNegative(f, x) <==> negative) && Exponent(f, x) == e && Mantissa(f, x) == m
  {
    hide IsNegative, Exponent, Mantissa, Encode, Pow2;
    var x, sign := Encode(f, negative, e, m), if negative then 1 else 0;
    EncodeParts(f, negative, e, m);
    SignOf(f, x, sign, x - sign * Pow2(f.exponentBits + f.mantissaBits));
    ExponentOf(f, x, sign, e, m);
  }

  /** Every word of the format has such fields. */
  lemma EveryWordEncodes(f: Format, x: nat) returns (negative: bool, e: nat, m: nat)
    requires f.Valid() && x < Pow2(f.Bits())
    ensures e < Pow2(f.exponentBits) && m < Pow2(f.mantissaBits) && x == Encode(f, negative, e, m)
  {
    hide Pow2;
    var p, k := Pow2(f.mantissaBits), Pow2(f.exponentBits);
    Pow2Add(f.exponentBits, f.mantissaBits);
    TwicePower(f.exponentBits + f.mantissaBits);
    negative := x >= k * p;
    var rest := if negative then x - k * p else x;
    var q, r := DivIdentity(rest, p);
    QuotientBelow(rest, q, r, p, k);
    e, m := q, r;
  }

  /** On the fields themselves: the sign of the exact difference between the IEEE 754 number and the integer, both
      counted in the smallest subnormal number. */
  lemma CompareEncoded(f: Format, negative: bool, e: nat, m: nat, rhs: int, width: nat, signed: bool)
    requires f.Valid() && e < Pow2(f.exponentBits) && m < Pow2(f.mantissaBits) && InType(rhs, width, signed)
    ensures Pow2(f.exponentBits - 1) >= 2
    ensures var magnitude := if e == 0 then m else (Pow2(f.mantissaBits) + m) * Pow2(e - 1);
      Compare(f, Encode(f, negative, e, m), rhs, width, signed)
      == Sign((if negative then 0 - magnitude else magnitude) - rhs * Pow2(Pow2(f.exponentBits - 1) - 2 + f.mantissaBits))
  {
    f.BiasPositive();
    hide Pow2, Exponent, Mantissa, IsNegative, Compare, Encode, InType, Sign;
    FieldsOfEncoding(f, negative, e, m);
    CompareExact(f, Encode(f, negative, e, m), rhs, width, signed);
  }

  // ---------------------------------------------------------------- infinities

  ghost predicate IsInfinite(f: Format, x: nat) {
    Exponent(f, x) == Pow2(f.exponentBits) - 1 && Mantissa(f, x) == 0
  }

  /** The value of an infinite encoding, read as one more octave. */
  lemma InfinityOctave(f: Format, x: nat)
    requires f.Valid() && IsInfinite(f, x)
    ensures ValueOf(f, x) == Signed(IsNegative(f, x), Pow2(Pow2(f.exponentBits - 1)) * Unit(f))
  {
    f.BiasPositive();
    TwicePower(f.exponentBits - 1);
    var e, b := Exponent(f, x), f.Bias();
    assert e == 2 * b + 1;
    hide Pow2, Exponent, Mantissa, IsNegative, Format.Bias;
    assert e - 1 == b + 1 + (b - 1);
    Pow2Add(b + 1, b - 1);
    Pow2Add(b - 1, f.mantissaBits);
    RegroupFactors(Pow2(f.mantissaBits), Pow2(b + 1), Pow2(b - 1));
  }

  lemma RegroupFactors(p: int, n: int, k: int)
    ensures p * (n * k) == n * (k * p)
  {
    assert p * (n * k) == (n * k) * p;
    MulAssociative(n, k, p);
  }

  /** An infinity compares as it should if and only if the integer has another sign or is below `2^2^(exponentBits-1)`. */
  lemma InfinityExactly(f: Format, x: nat, rhs: int, width: nat, signed: bool)
    requires f.Valid() && InType(rhs, width, signed) && IsInfinite(f, x)
    ensures Compare(f, x, rhs, width, signed) == Signed(IsNegative(f, x), 1)
      <==> Signed(IsNegative(f, x), rhs) < Pow2(Pow2(f.exponentBits - 1))
  {
    hide Pow2, Exponent, Mantissa, IsNegative, Unit, Compare, ValueOf, Sign, Signed, InType, IsInfinite;
    CompareExact(f, x, rhs, width, signed);
    InfinityOctave(f, x);
    UnitPositive(f);
    ScaledSign(ValueOf(f, x), Pow2(Pow2(f.exponentBits - 1)), rhs, Unit(f), IsNegative(f, x));
  }

  lemma ScaledSign(v: int, k: nat, rhs: int, unit: nat, negative: bool)
    requires unit > 0 && v == Signed(negative, k * unit)
    ensures Sign(v - rhs * unit) == Signed(negative, 1) <==> Signed(negative, rhs) < k
  {
    var w := Signed(negative, k);
    assert w * unit == v;
    assert (w - rhs) * unit == v - rhs * unit;
    SignScale(w - rhs, unit);
  }

  /** So every integer type of no more than `2^(exponentBits-1)` bits compares right with infinities:
      all of them for doubles, all up to 128 bits for floats. */
  lemma InfinityAlways(f: Format, x: nat, rhs: int, width: nat, signed: bool)
    requires f.Valid() && InType(rhs, width, signed) && IsInfinite(f, x)
    requires width <= Pow2(f.exponentBits - 1)
    ensures Compare(f, x, rhs, width, signed) == Signed(IsNegative(f, x), 1)
  {
    InfinityExactly(f, x, rhs, width, signed);
    Pow2Monotone(width, Pow2(f.exponentBits - 1));
    if signed {
      TwicePower(width - 1);
    }
    hide Compare, IsNegative, IsInfinite;
  }

  /** Doubles with every integer type, floats with the types of up to 128 bits. */
  lemma InfinityShipped(x: nat, rhs: int, width: nat, signed: bool)
    requires width <= 256 && InType(rhs, width, signed)
    ensures IsInfinite(FLOAT64, x) ==> Compare(FLOAT64, x, rhs, width, signed) == Signed(IsNegative(FLOAT64, x), 1)
    ensures IsInfinite(FLOAT32, x) && width <= 128 ==>
      Compare(FLOAT32, x, rhs, width, signed) == Signed(IsNegative(FLOAT32, x), 1)
  {
    hide Pow2, Compare, IsInfinite, IsNegative, InType;
    FloatPowers();
    Pow2Monotone(8, 10);
    if IsInfinite(FLOAT64, x) {
      InfinityAlways(FLOAT64, x, rhs, width, signed);
    }
    if IsInfinite(FLOAT32, x) && width <= 128 {
      InfinityAlways(FLOAT32, x, rhs, width, signed);
    }
  }

  /** The promise about infinities fails for floats and 256-bit integers: 2^128 compares equal to infinity. */
  lemma InfinityEquals()
    ensures IsInfinite(FLOAT32, 0x7F80_0000) && !IsNegative(FLOAT32, 0x7F80_0000)
    ensures InType(Pow2(128), 256, false) && Compare(FLOAT32, 0x7F80_0000, Pow2(128), 256, false) == 0
  {
    InfinityFields();
    Pow2Words();
    assert Pow2(7) == 128;
    hide Pow2, Exponent, Mantissa, IsNegative, Compare, Unit;
    Pow2Monotone(129, 256);
    TwicePower(128);
    CompareExact(FLOAT32, 0x7F80_0000, Pow2(128), 256, false);
    InfinityOctave(FLOAT32, 0x7F80_0000);
  }

  lemma FloatPowers()
    ensures Pow2(7) == 128 && Pow2(8) == 256 && Pow2(23) == 0x80_0000 && Pow2(31) == 0x8000_0000
  {
    Pow2Words();
    assert Pow2(7) == 128;
    hide Pow2;
    Pow2Add(16, 7);
    TwicePower(31);
  }

  lemma InfinityFields()
    ensures IsInfinite(FLOAT32, 0x7F80_0000) && !IsNegative(FLOAT32, 0x7F80_0000)
  {
    hide Pow2, And;
    FloatPowers();
    TwicePower(8);
    assert ExponentMask(FLOAT32) == Pow2(8) - 1;
    AndMask(0xFF, 8);
    AndMask(0x7F80_0000, 23);
  }

  // ---------------------------------------------------------------- not a number

  ghost predicate IsNaN(f: Format, x: nat) {
    Exponent(f, x) == Pow2(f.exponentBits) - 1 && Mantissa(f, x) > 0
  }

  /** The value of an encoding with the largest exponent, scaled to clear the fraction. */
  lemma NaNOctave(f: Format, x: nat)
    requires f.Valid() && IsNaN(f, x)
    ensures ValueOf(f, x) * Pow2(f.mantissaBits)
      == Signed(IsNegative(f, x), ((Pow2(f.mantissaBits) + Mantissa(f, x)) * Pow2(Pow2(f.exponentBits - 1))) * Unit(f))
  {
    f.BiasPositive();
    TwicePower(f.exponentBits - 1);
    var e, b, m, p := Exponent(f, x), f.Bias(), Mantissa(f, x), Pow2(f.mantissaBits);
    assert e == 2 * b + 1;
    hide Pow2, Exponent, Mantissa, IsNegative, Format.Bias;
    assert e - 1 == b + 1 + (b - 1);
    Pow2Add(b + 1, b - 1);
    Pow2Add(b - 1, f.mantissaBits);
    NaNFactors(p + m, Pow2(b + 1), Pow2(b - 1), p);
  }

  lemma NaNFactors(q: int, n: int, k: int, p: int)
    ensures (q * (n * k)) * p == (q * n) * (k * p)
    ensures (0 - q * (n * k)) * p == 0 - (q * n) * (k * p)
  {
    assert q * (n * k) == (q * n) * k;
    MulAssociative(q * n, k, p);
  }

  /** A NaN compares like the infinity of its sign if and only if the integer has another sign or is small enough;
      the larger the payload, the larger the integers that are. */
  lemma NaNExactly(f: Format, x: nat, rhs: int, width: nat, signed: bool)
    requires f.Valid() && InType(rhs, width, signed) && IsNaN(f, x)
    ensures Compare(f, x, rhs, width, signed) == Signed(IsNegative(f, x), 1)
      <==> Signed(IsNegative(f, x), rhs) * Pow2(f.mantissaBits)
           < (Pow2(f.mantissaBits) + Mantissa(f, x)) * Pow2(Pow2(f.exponentBits - 1))
  {
    hide Pow2, Exponent, Mantissa, IsNegative, Unit, Compare, ValueOf, Sign, Signed, InType, IsNaN;
    CompareExact(f, x, rhs, width, signed);
    NaNOctave(f, x);
    UnitPositive(f);
    var p, k := Pow2(f.mantissaBits), (Pow2(f.mantissaBits) + Mantissa(f, x)) * Pow2(Pow2(f.exponentBits - 1));
    NaNSign(ValueOf(f, x), p, k, rhs, Unit(f), IsNegative(f, x));
  }

  lemma NaNSign(v: int, p: nat, k: nat, rhs: int, unit: nat, negative: bool)
    requires unit > 0 && p > 0 && v * p == Signed(negative, k * unit)
    ensures Sign(v - rhs * unit) == Signed(negative, 1) <==> Signed(negative, rhs) * p < k
  {
    hide Sign, Signed;
    SignScale(v - rhs * unit, p);
    DifferenceScaled(v, rhs, unit, p);
    ScaledSign(v * p, k, rhs * p, unit, negative);
    SignedScale(negative, rhs, p);
  }

  lemma DifferenceScaled(v: int, rhs: int, unit: int, p: int)
    ensures (v - rhs * unit) * p == v * p - (rhs * p) * unit
  {
    assert (rhs * unit) * p == (rhs * p) * unit;
  }

  lemma SignedScale(negative: bool, r: int, p: int)
    ensures Signed(negative, r * p) == Signed(negative, r) * p
  {
  }

  /** So with every integer type of no more than `2^(exponentBits-1)` bits a NaN is like the infinity of its sign. */
  lemma NaNAlways(f: Format, x: nat, rhs: int, width: nat, signed: bool)
    requires f.Valid() && InType(rhs, width, signed) && IsNaN(f, x)
    requires width <= Pow2(f.exponentBits - 1)
    ensures Compare(f, x, rhs, width, signed) == Signed(IsNegative(f, x), 1)
  {
    hide Compare, IsNegative, IsNaN, Mantissa;
    NaNExactly(f, x, rhs, width, signed);
    Pow2Monotone(width, Pow2(f.exponentBits - 1));
    if signed {
      TwicePower(width - 1);
    }
    NaNRoom(Signed(IsNegative(f, x), rhs), Pow2(f.mantissaBits), Mantissa(f, x), Pow2(Pow2(f.exponentBits - 1)));
  }

  lemma NaNRoom(r: int, p: nat, m: nat, k: nat)
    requires r < k && p > 0
    ensures r * p < (p + m) * k
  {
    MulMonotone(r + 1, k, p);
    assert (p + m) * k == k * p + m * k;
    MulMonotone(0, m, k);
  }
}
