/** Wide integers to decimal text and back: `to_string` and `from_str`. */
module WideText {
  import opened Arith
  import opened Decimal
  import opened WideInteger
  import opened WideShift
  import opened WideMultiply
  import opened WideSigned
  import Itoa

  // ---------------------------------------------------------------- to_string

  /** `value` as an integer of `n` limbs. */
  function Small(value: Limb, n: nat): (x: Wide)
    requires n > 0
    ensures |x| == n
  {
    Extend([value], n)
  }

  lemma SmallValue(value: Limb, n: nat, signed: bool)
    requires n > 0 && value < 0x8000_0000_0000_0000
    ensures Value(Small(value, n)) == value && Meaning(Small(value, n), signed) == value
  {
    ExtendKeepsValue([value], n);
    OneLimb(value);
  }

  /** One decimal digit off the bottom. */
  method DivideByTen(t: Wide) returns (quotient: Wide, digit: nat)
    requires |t| > 0
    ensures |quotient| == |t| && Value(quotient) == Value(t) / 10 && digit == Value(t) % 10
  {
    hide Value, Modulus, TruncDiv, TruncRem, Small, Meaning, Prefix;
    var ten := Small(10, |t|);
    SmallValue(10, |t|, false);
    Unsigned(t);
    Unsigned(ten);
    var r := Percent(t, ten, false);
    var q := Slash(t, ten, false);
    TruncByTen(Value(t));
    Unsigned(r.value);
    ValueBound(t);
    ModSmall(Value(t) / 10, Modulus(t));
    quotient := q.value;
    digit := r.value[0];
    LowLimb(r.value);
  }

  lemma Unsigned(x: Wide)
    ensures Meaning(x, false) == Value(x)
  {
  }

  lemma TruncByTen(v: nat)
    ensures TruncDiv(v, 10) == v / 10 && TruncRem(v, 10) == v % 10
  {
  }

  /** A value below 2^64 is its lowest limb. */
  lemma LowLimb(x: Wide)
    requires |x| > 0 && Value(x) < BASE
    ensures x[0] == Value(x)
  {
    var y := Extend([Value(x)], |x|);
    ExtendKeepsValue([Value(x)], |x|);
    OneLimb(Value(x));
    ValueInjective(x, y);
  }

  method ToString(n: Wide, signed: bool) returns (res: string)
    requires |n| > 0
    ensures res == SignedDigits(Meaning(n, signed))
  {
    hide Value, Digits, Meaning, Modulus;
    var zero := IsZero(n);
    ZeroMeaning(n, signed);
    if zero {
      DigitsOfZero();
      return "0";
    }
    var isNegative := signed && Negative(n);
    SignsOf(n, signed);
    var t := MakePositive(n, signed);
    ghost var v := Value(t);
    res := "";
    var done := IsZero(t);
    while !done
      invariant |t| == |n| && done == (Value(t) == 0)
      invariant if done then res == Digits(v) else Digits(v) == Digits(Value(t)) + res
      decreases Value(t)
    {
      var q, d := DivideByTen(t);
      FrontDigit(Value(t), res);
      res := [DigitChar(d)] + res;
      t := q;
      done := IsZero(t);
    }
    if isNegative {
      res := "-" + res;
    }
  }

  lemma DigitsOfZero()
    ensures Digits(0) == "0"
  {
  }

  lemma FrontDigit(x: nat, res: string)
    requires x > 0
    ensures Digits(x) + res == if x / 10 == 0 then [DigitChar(x % 10)] + res else Digits(x / 10) + ([DigitChar(x % 10)] + res)
  {
    hide *;
    if x < 10 {
      OneDigit(x);
    } else {
      DigitsStep(x);
      assert (Digits(x / 10) + [DigitChar(x % 10)]) + res == Digits(x / 10) + ([DigitChar(x % 10)] + res);
    }
  }

  lemma OneDigit(x: nat)
    requires x < 10
    ensures Digits(x) == [DigitChar(x)] && x % 10 == x && x / 10 == 0
  {
  }

  // ---------------------------------------------------------------- from_str

  /** The characters before the terminating NUL. */
  type CString = s: string | '\0' !in s witness ""

  datatype Parsed = InvalidChar | Integer(value: Wide)

  /** The character at `i`; reading at the end gives the NUL. */
  function At(s: CString, i: nat): char {
    if i < |s| then s[i] else '\0'
  }

  predicate ValidIn(c: char, hex: bool) {
    IsDigit(c) || (hex && ('a' <= c <= 'f' || 'A' <= c <= 'F'))
  }

  function ValueIn(c: char): nat
    requires ValidIn(c, true)
  {
    if IsDigit(c) then DigitValue(c) else if 'a' <= c <= 'f' then c as int - 'a' as int + 10 else c as int - 'A' as int + 10
  }

  predicate AllValid(s: string, hex: bool) {
    forall i :: 0 <= i < |s| ==> ValidIn(s[i], hex)
  }

  /** The number a sequence of digits stands for. */
  function Number(s: string, hex: bool): nat
    requires AllValid(s, hex)
  {
    if s == [] then 0 else (if hex then 16 else 10) * Number(s[..|s| - 1], hex) + ValueIn(s[|s| - 1])
  }

  predicate HasMinus(s: CString, signed: bool) {
    signed && At(s, 0) == '-'
  }

  function AfterMinus(s: CString, signed: bool): nat {
    if HasMinus(s, signed) then 1 else 0
  }

  predicate IsHex(s: CString, signed: bool) {
    var i := AfterMinus(s, signed);
    At(s, i) == '0' && (At(s, i + 1) == 'x' || At(s, i + 1) == 'X')
  }

  /** The digits, after a minus sign and a hexadecimal prefix. */
  function Body(s: CString, signed: bool): string {
    s[AfterMinus(s, signed) + (if IsHex(s, signed) then 2 else 0)..]
  }

  /** The integer a text denotes. */
  function Denotes(s: CString, signed: bool): int
    requires AllValid(Body(s, signed), IsHex(s, signed))
  {
    var number := Number(Body(s, signed), IsHex(s, signed));
    if HasMinus(s, signed) then 0 - number else number
  }

  /** `res = multiply(res, base); res = plus(res, digit)` */
  method AppendDigit(x: Wide, base: Limb, digit: Limb) returns (res: Wide)
    requires |x| > 0
    ensures |res| == |x| && Value(res) == (base * Value(x) + digit) % Modulus(x)
  {
    hide Value, Modulus;
    OneLimb(base);
    OneLimb(digit);
    ModulusPositive(x);
    var product;
    if |x| == 4 {
      product := Multiply256(x, [base]);
    } else {
      product := MultiplyGeneric(x, [base]);
    }
    SameModulus(product, x);
    ModAdd(Value(x) * base, digit, Modulus(x));
    res := Plus(product, [digit]);
  }

  lemma AppendStep(s: string, hex: bool, k: nat, v: nat, m: nat)
    requires k < |s| && m > 0 && AllValid(s[..k], hex) && ValidIn(s[k], hex) && v == Number(s[..k], hex) % m
    ensures AllValid(s[..k + 1], hex)
    ensures ((if hex then 16 else 10) * v + ValueIn(s[k])) % m == Number(s[..k + 1], hex) % m
  {
    var base := if hex then 16 else 10;
    assert s[..k + 1][..k] == s[..k];
    ScaledResidue(base, Number(s[..k], hex), ValueIn(s[k]), m);
  }

  lemma ScaledResidue(base: int, x: int, d: int, m: int)
    requires m > 0
    ensures (base * (x % m) + d) % m == (base * x + d) % m
  {
    var q, r := DivIdentity(x, m);
    assert base * x + d == (base * r + d) + (base * q) * m by {
      assert base * (q * m) == (base * q) * m;
    }
    SameResidue(base * x + d, base * r + d, base * q, m);
  }

  lemma NoDigits(s: string, hex: bool)
    ensures AllValid(s[..0], hex) && Number(s[..0], hex) == 0
  {
  }

  method FromHex(s: string, limbs: nat) returns (r: Parsed)
    requires limbs > 0
    ensures r.Integer? <==> AllValid(s, true)
    ensures r.Integer? ==> |r.value| == limbs && Value(r.value) == Number(s, true) % Weight(limbs)
  {
    hide Value, Number, Weight, Small;
    var res: Wide := Small(0, limbs);
    SmallValue(0, limbs, false);
    NoDigits(s, true);
    ModSmall(0, Weight(limbs));
    var c := 0;
    while c < |s|
      invariant 0 <= c <= |s| && |res| == limbs && AllValid(s[..c], true)
      invariant Value(res) == Number(s[..c], true) % Weight(limbs)
    {
      if ValidIn(s[c], true) {
        AppendStep(s, true, c, Value(res), Weight(limbs));
      }
      if '0' <= s[c] <= '9' {
        res := AppendDigit(res, 16, s[c] as int - '0' as int);
      } else if 'a' <= s[c] <= 'f' {
        res := AppendDigit(res, 16, s[c] as int - 'a' as int + 10);
      } else if 'A' <= s[c] <= 'F' {
        res := AppendDigit(res, 16, s[c] as int - 'A' as int + 10);
      } else {
        return InvalidChar;
      }
      c := c + 1;
    }
    assert s[..c] == s;
    r := Integer(res);
  }

  method FromDecimal(s: string, limbs: nat) returns (r: Parsed)
    requires limbs > 0
    ensures r.Integer? <==> AllValid(s, false)
    ensures r.Integer? ==> |r.value| == limbs && Value(r.value) == Number(s, false) % Weight(limbs)
  {
    hide Value, Number, Weight, Small;
    var res: Wide := Small(0, limbs);
    SmallValue(0, limbs, false);
    NoDigits(s, false);
    ModSmall(0, Weight(limbs));
    var c := 0;
    while c < |s|
      invariant 0 <= c <= |s| && |res| == limbs && AllValid(s[..c], false)
      invariant Value(res) == Number(s[..c], false) % Weight(limbs)
    {
      if s[c] < '0' || s[c] > '9' {
        return InvalidChar;
      }
      AppendStep(s, false, c, Value(res), Weight(limbs));
      res := AppendDigit(res, 10, s[c] as int - '0' as int);
      c := c + 1;
    }
    assert s[..c] == s;
    r := Integer(res);
  }

  /** Error exactly on an invalid character; otherwise the denoted integer, reduced to the width. */
  method FromStr(s: CString, limbs: nat, signed: bool) returns (r: Parsed)
    requires limbs > 0
    ensures r.Integer? <==> AllValid(Body(s, signed), IsHex(s, signed))
    ensures r.Integer? ==> |r.value| == limbs && Value(r.value) == Denotes(s, signed) % Weight(limbs)
  {
    hide Value, Number, Weight, AllValid;
    var c := 0;
    var isNegative := signed && At(s, c) == '-';
    if isNegative {
      c := c + 1;
    }
    if At(s, c) == '0' && (At(s, c + 1) == 'x' || At(s, c + 1) == 'X') {
      r := FromHex(s[c + 2..], limbs);
    } else {
      r := FromDecimal(s[c..], limbs);
    }
    if isNegative && r.Integer? {
      NegateResidue(Number(Body(s, signed), IsHex(s, signed)), Weight(limbs));
      var res := UnaryMinus(r.value);
      r := Integer(res);
    }
  }

  // ---------------------------------------------------------------- round trips

  lemma {:induction false} NumberIsParse(s: string)
    requires AllDigits(s)
    ensures AllValid(s, false) && Number(s, false) == Parse(s)
  {
    if s != [] {
      NumberIsParse(s[..|s| - 1]);
    }
  }

  lemma DigitsAreText(v: int)
    ensures '\0' !in SignedDigits(v)
  {
    ParseDigits(Abs(v));
  }

  /** The decimal text of `v` denotes `v`, provided an unsigned reader is not given a minus sign. */
  lemma TextDenotes(v: int, signed: bool)
    requires signed || v >= 0
    ensures '\0' !in SignedDigits(v)
    ensures AllValid(Body(SignedDigits(v), signed), IsHex(SignedDigits(v), signed))
    ensures Denotes(SignedDigits(v), signed) == v
  {
    hide Digits, Number, Parse, AllValid;
    DigitsAreText(v);
    ParseDigits(Abs(v));
    NumberIsParse(Digits(Abs(v)));
    TextBody(v, signed);
  }

  lemma TextBody(v: int, signed: bool)
    requires (signed || v >= 0) && '\0' !in SignedDigits(v)
    ensures HasMinus(SignedDigits(v), signed) <==> v < 0
    ensures !IsHex(SignedDigits(v), signed) && Body(SignedDigits(v), signed) == Digits(Abs(v))
  {
    hide Digits, Parse, Number;
    var s, digits := SignedDigits(v), Digits(Abs(v));
    ParseDigits(Abs(v));
    assert IsDigit(digits[0]);
    var i := if v < 0 then 1 else 0;
    assert s[i..] == digits;
    if i + 1 < |s| {
      assert s[i + 1] == digits[1] && IsDigit(digits[1]);
    }
  }

  /** Reading back what was written gives the same integer: every width, signed or not, the minimum included. */
  method RoundTrip(n: Wide, signed: bool) returns (r: Parsed)
    requires |n| > 0
    ensures r == Integer(n)
  {
    hide Value, Weight, Meaning, SignedDigits;
    var v := Meaning(n, signed);
    MeaningInRange(n, signed);
    TextDenotes(v, signed);
    var text := ToString(n, signed);
    r := FromStr(text, |n|, signed);
    ValueInjective(r.value, n);
  }

  /** And writing what was read gives the same text, for the canonical text of every integer that fits. */
  method TextRoundTrip(v: int, limbs: nat, signed: bool) returns (text: string)
    requires limbs > 0 && InRange(v, Weight(limbs), signed)
    ensures text == SignedDigits(v)
  {
    hide Value, Weight, Meaning, SignedDigits;
    TextDenotes(v, signed);
    var r := FromStr(SignedDigits(v), limbs, signed);
    MeaningUnique(r.value, signed, v);
    text := ToString(r.value, signed);
  }

  // ---------------------------------------------------------------- hexadecimal texts

  function HexTable(upper: bool): (t: string)
    ensures |t| == 16
  {
    if upper then "0123456789ABCDEF" else "0123456789abcdef"
  }

  /** The hexadecimal digits of `n`, without leading zeros. */
  function HexText(n: nat, upper: bool): string {
    (if n < 16 then "" else HexText(n / 16, upper)) + [HexTable(upper)[n % 16]]
  }

  lemma TableDigit(d: nat, upper: bool)
    requires d < 16
    ensures ValidIn(HexTable(upper)[d], true) && ValueIn(HexTable(upper)[d]) == d && HexTable(upper)[d] != '\0'
  {
  }

  lemma {:induction false} HexNumber(n: nat, upper: bool)
    ensures AllValid(HexText(n, upper), true) && Number(HexText(n, upper), true) == n && '\0' !in HexText(n, upper)
  {
    var t := HexText(n, upper);
    var h := t[..|t| - 1];
    TableDigit(n % 16, upper);
    hide ValueIn, ValidIn, HexTable;
    if n < 16 {
      assert h == "";
    } else {
      HexNumber(n / 16, upper);
      assert h == HexText(n / 16, upper);
    }
  }

  /** The text with its minus sign and its prefix. */
  function HexLiteral(n: nat, upper: bool, capital: bool, negative: bool): string {
    (if negative then "-" else "") + ((if capital then "0X" else "0x") + HexText(n, upper))
  }

  lemma HexBody(n: nat, upper: bool, capital: bool, negative: bool, signed: bool)
    requires negative ==> signed
    ensures '\0' !in HexLiteral(n, upper, capital, negative)
    ensures HasMinus(HexLiteral(n, upper, capital, negative), signed) <==> negative
    ensures IsHex(HexLiteral(n, upper, capital, negative), signed)
    ensures Body(HexLiteral(n, upper, capital, negative), signed) == HexText(n, upper)
  {
    hide HexText, Number;
    HexNumber(n, upper);
    var s, digits, i := HexLiteral(n, upper, capital, negative), HexText(n, upper), if negative then 1 else 0;
    assert s[i] == '0' && (s[i + 1] == 'x' || s[i + 1] == 'X');
    assert s[i + 2..] == digits;
  }

  /** Reading a hexadecimal literal in either case gives its number, or with a minus sign the negated number, at every
      width, reduced to the width where it does not fit. */
  method ReadHex(n: nat, upper: bool, capital: bool, negative: bool, limbs: nat, signed: bool) returns (r: Parsed)
    requires limbs > 0 && (negative ==> signed)
    ensures r.Integer? && |r.value| == limbs
    ensures Value(r.value) == (if negative then 0 - n else n) % Weight(limbs)
    ensures !negative && n < Weight(limbs) ==> Value(r.value) == n
  {
    hide Value, Weight, HexText, HexLiteral, AllValid, Number;
    HexNumber(n, upper);
    HexBody(n, upper, capital, negative, signed);
    r := FromStr(HexLiteral(n, upper, capital, negative), limbs, signed);
    if n < Weight(limbs) {
      ModSmall(n, Weight(limbs));
    }
  }

  // ---------------------------------------------------------------- other texts

  /** Accepted are exactly the texts over the literal digits of their base. */
  lemma ValidExactly(t: string, hex: bool)
    ensures AllValid(t, hex) <==> forall i :: 0 <= i < |t| ==> t[i] in "0123456789" || (hex && t[i] in "abcdefABCDEF")
  {
    forall i | 0 <= i < |t|
      ensures ValidIn(t[i], hex) <==> t[i] in "0123456789" || (hex && t[i] in "abcdefABCDEF")
    {
      CharacterExactly(t[i], hex);
    }
  }

  lemma CharacterExactly(c: char, hex: bool)
    ensures ValidIn(c, hex) <==> c in "0123456789" || (hex && c in "abcdefABCDEF")
  {
    if IsDigit(c) {
      assert c == "0123456789"[c as int - '0' as int];
    } else if 'a' <= c <= 'f' {
      assert c == "abcdefABCDEF"[c as int - 'a' as int];
    } else if 'A' <= c <= 'F' {
      assert c == "abcdefABCDEF"[c as int - 'A' as int + 6];
    }
  }

  /** An unsigned reader refuses a minus sign. */
  lemma UnsignedMinus(s: CString)
    requires |s| > 0 && s[0] == '-'
    ensures !AllValid(Body(s, false), IsHex(s, false))
  {
    assert Body(s, false)[0] == '-';
    assert !ValidIn('-', false);
  }

  /** Texts without digits stand for zero. */
  method ReadNothing(limbs: nat, signed: bool) returns (empty: Parsed, prefix: Parsed)
    requires limbs > 0
    ensures empty.Integer? && Value(empty.value) == 0 && prefix.Integer? && Value(prefix.value) == 0
  {
    empty := FromStr("", limbs, signed);
    prefix := FromStr("0x", limbs, signed);
    assert Body("", signed) == "" && Body("0x", signed) == "";
    hide Weight, Value;
    ModSmall(0, Weight(limbs));
  }

  /** The buffer writers for 128- and 256-bit integers produce the text of `to_string`. */
  method SameText(n: Wide, signed: bool, buf: array<char>, p: nat) returns (q: nat, text: string)
    requires |n| == 2 || |n| == 4
    requires p + |SignedDigits(Meaning(n, signed))| <= buf.Length
    modifies buf
    ensures text == SignedDigits(Meaning(n, signed)) && Itoa.Wrote(old(buf[..]), buf[..], p, q, text)
  {
    text := ToString(n, signed);
    var v := Meaning(n, signed);
    MeaningInRange(n, signed);
    hide Value, Weight, Meaning, Digits;
    if signed {
      HalfModulus(n);
      q := Itoa.WriteSIntText(v, |n| == 4, buf, p);
    } else {
      q := Itoa.WriteUIntText(v, buf, p);
    }
  }

  lemma HalfModulus(n: Wide)
    requires |n| == 2 || |n| == 4
    ensures Modulus(n) == 2 * Itoa.Minimum(|n| == 4)
  {
    Itoa.MinimumIsPow2(|n| == 4);
    WeightIsPow2(|n|);
    assert Pow2(128) == 2 * Pow2(127) && Pow2(256) == 2 * Pow2(255);
  }
}
