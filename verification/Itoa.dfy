/** Integers to decimal text: the recursive splitting of 8- to 64-bit integers and the two-digit loop
    for 128- and 256-bit ones. Text is written into a caller's buffer. */
module Itoa {
  import opened Arith
  import opened Decimal

  // ---------------------------------------------------------------- writing into a buffer

  /** `after` is `before` with `text` written at `[p, q)` and nothing else changed. */
  ghost predicate Wrote(before: seq<char>, after: seq<char>, p: nat, q: nat, text: string) {
    && |before| == |after|
    && q == p + |text| <= |after|
    && after[p..q] == text
    && after[..p] == before[..p] && after[q..] == before[q..]
  }

  lemma WroteConcat(a: seq<char>, b: seq<char>, c: seq<char>, p: nat, q: nat, r: nat, s: string, t: string)
    requires Wrote(a, b, p, q, s) && Wrote(b, c, q, r, t)
    ensures Wrote(a, c, p, r, s + t)
  {
    assert c[p..q] == c[..q][p..q] == b[..q][p..q] == s;
    assert c[p..r] == c[p..q] + c[q..r];
    assert c[..p] == c[..q][..p] == b[..q][..p] == a[..p];
    assert a[r..] == a[q..][r - q..] == b[q..][r - q..] == b[r..] == c[r..];
  }

  /** The table of two-digit numbers, in the ten rows the source writes it in. */
  const TABLE: seq<string> :=
    ["00010203040506070809", "10111213141516171819", "20212223242526272829", "30313233343536373839",
     "40414243444546474849", "50515253545556575859", "60616263646566676869", "70717273747576777879",
     "80818283848586878889", "90919293949596979899"]

  ghost predicate RowOK(row: string, r: nat)
    requires r < 10
  {
    |row| == 20 && forall c: nat :: c < 10 ==> row[2 * c] == DigitChar(r) && row[2 * c + 1] == DigitChar(c)
  }

  lemma TableRow(r: nat)
    requires r < 10
    ensures |TABLE| == 10 && RowOK(TABLE[r], r)
  {
    forall c: nat | c < 10 ensures TABLE[r][2 * c] == DigitChar(r) && TABLE[r][2 * c + 1] == DigitChar(c) {
      if r < 5 {
        UpperRow(r, c);
      } else {
        LowerRow(r, c);
      }
    }
  }

  lemma UpperRow(r: nat, c: nat)
    requires r < 5 && c < 10
    ensures |TABLE[r]| == 20 && TABLE[r][2 * c] == DigitChar(r) && TABLE[r][2 * c + 1] == DigitChar(c)
  {
    assert c == 0 || c == 1 || c == 2 || c == 3 || c == 4 || c == 5 || c == 6 || c == 7 || c == 8 || c == 9;
  }

  lemma LowerRow(r: nat, c: nat)
    requires 5 <= r < 10 && c < 10
    ensures |TABLE[r]| == 20 && TABLE[r][2 * c] == DigitChar(r) && TABLE[r][2 * c + 1] == DigitChar(c)
  {
    assert c == 0 || c == 1 || c == 2 || c == 3 || c == 4 || c == 5 || c == 6 || c == 7 || c == 8 || c == 9;
  }

  method OutDigit(buf: array<char>, p: nat, value: nat) returns (q: nat)
    requires value < 10 && p + 1 <= buf.Length
    modifies buf
    ensures Wrote(old(buf[..]), buf[..], p, q, [DigitChar(value)])
  {
    buf[p] := DigitChar(value);
    q := p + 1;
  }

  method OutTwoDigits(buf: array<char>, p: nat, value: nat) returns (q: nat)
    requires value < 100 && p + 2 <= buf.Length
    modifies buf
    ensures Wrote(old(buf[..]), buf[..], p, q, Padded(value, 2))
  {
    var r, c := value / 10, value % 10;
    TableRow(r);
    PaddedTwo(value);
    buf[p] := TABLE[r][2 * c];
    buf[p + 1] := TABLE[r][2 * c + 1];
    q := p + 2;
  }

  lemma PaddedTwo(v: nat)
    requires v < 100
    ensures Padded(v, 2) == [DigitChar(v / 10), DigitChar(v % 10)]
    ensures v >= 10 ==> Digits(v) == Padded(v, 2)
  {
    PaddedStep(v, 2);
    PaddedStep(v / 10, 1);
    assert Padded(v / 10 / 10, 0) == [];
    assert (v / 10) % 10 == v / 10;
  }

  // ---------------------------------------------------------------- split: division by 10^N

  predicate IsSize(n: nat) {
    n == 1 || n == 2 || n == 4 || n == 8
  }

  /** 2^(8 n), the range of an n-byte unsigned integer. */
  function Range(n: nat): nat {
    if n == 1 then 0x100 else if n == 2 then 0x1_0000 else if n == 4 then 0x1_0000_0000
    else if n == 8 then 0x1_0000_0000_0000_0000
    else 0x1_0000_0000_0000_0000_0000_0000_0000_0000
  }

  function Multiplier(n: nat): nat {
    if n == 2 then 41943 else if n == 4 then 3518437209 else 12379400392853802749
  }

  function Increment(n: nat): nat {
    if n == 2 then 1 else 0
  }

  /** 2^22, 2^45 and 2^90 */
  function ShiftDivisor(n: nat): nat {
    if n == 2 then 0x40_0000 else if n == 4 then 0x2000_0000_0000 else 0x400_0000_0000_0000_0000_0000
  }

  function TenToSize(n: nat): nat {
    if n == 1 then 10 else if n == 2 then 100 else if n == 4 then 10000 else 100000000
  }

  /** The quotient by multiply and shift, every narrowing of the source included. */
  function SplitQuotient(n: nat, value: nat): nat {
    (((Multiplier(n) * (value + Increment(n))) % Range(2 * n)) / ShiftDivisor(n)) % Range(n)
  }

  function SplitRemainder(n: nat, value: nat): nat {
    ((value - SplitQuotient(n, value) * TenToSize(n)) % Range(n)) % Range(n / 2)
  }

  /** `m * d` slightly above a power of two: multiplying by `m` and dividing by the power divides by `d`. */
  lemma MagicAbove(v: nat, m: nat, p: nat, d: nat, e: nat)
    requires d > 0 && p > 0 && m * d == p + e && v * e < p
    ensures (m * v) / p == v / d
  {
    var q, r := DivIdentity(v, d);
    DivModUnique(v, d, q, r);
    var x := m * v;
    MagicAlgebra(v, m, p, d, e, q, r);
    DivModUnique(x, p, q, x - q * p);
  }

  lemma MagicAlgebra(v: nat, m: nat, p: nat, d: nat, e: nat, q: int, r: int)
    requires d > 0 && p > 0 && m * d == p + e && v * e < p && v == q * d + r && 0 <= r < d
    ensures q * p <= m * v < q * p + p
  {
    MagicProduct(v, m, p, d, e);
    MulMonotone(v + 1, q * d + d, p);
    MulMonotone(q * d, v, p);
    MagicQuotient(q, p, d, v);
    var x, y := m * v, q * p;
    CancelLess(x, y + p, d);
    CancelLess(y, x + 1, d);
  }

  lemma MagicProduct(v: nat, m: nat, p: nat, d: nat, e: nat)
    requires m * d == p + e
    ensures (m * v) * d == v * p + v * e && 0 <= v * e
  {
    assert (m * v) * d == v * (m * d);
    assert v * (p + e) == v * p + v * e;
  }

  lemma MagicQuotient(q: int, p: int, d: int, v: int)
    ensures (q * p) * d == (q * d) * p && (q * p + p) * d == (q * d + d) * p && (v + 1) * p == v * p + p
  {
    assert (q * p) * d == (q * d) * p;
    assert (q * p + p) * d == (q * p) * d + p * d && (q * d + d) * p == (q * d) * p + d * p;
  }

  lemma CancelLess(x: int, y: int, d: int)
    requires d > 0
    ensures x * d < y * d ==> x < y
    ensures (y - 1) * d == y * d - d
  {
    if y <= x {
      MulMonotone(y, x, d);
    }
  }

  /** The sixteen-bit constants sit just below the power of two, hence the increment. */
  lemma MagicBelow(v: nat)
    requires v < 0x1_0000
    ensures (41943 * (v + 1)) / 0x40_0000 == v / 100
  {
    var q, r := v / 100, v % 100;
    assert v == 100 * q + r;
    DivModUnique(41943 * (v + 1), 0x40_0000, q, 41943 * (v + 1) - q * 0x40_0000);
  }

  /** Quotient and remainder by 10^N are exact and fit the types they are stored in. */
  lemma SplitExact(n: nat, value: nat)
    requires (n == 2 || n == 4 || n == 8) && value < Range(n)
    ensures SplitQuotient(n, value) == value / TenToSize(n)
    ensures SplitRemainder(n, value) == value % TenToSize(n)
    ensures Multiplier(n) * (value + Increment(n)) < Range(2 * n)
    ensures value % TenToSize(n) < Range(n / 2)
  {
    var x := Multiplier(n) * (value + Increment(n));
    if n == 2 {
      MagicBelow(value);
    } else if n == 4 {
      MagicAbove(value, 3518437209, 0x2000_0000_0000, 10000, 1168);
    } else {
      MagicAbove(value, 12379400392853802749, 0x400_0000_0000_0000_0000_0000, 100000000, 875776);
    }
    assert x / ShiftDivisor(n) == value / TenToSize(n);
    hide *;
    SplitSizes(n, value);
    NothingLost(x, value, Range(2 * n), ShiftDivisor(n), Range(n), Range(n / 2), TenToSize(n));
    SplitUnfold(n, value);
  }

  lemma SplitSizes(n: nat, value: nat)
    requires (n == 2 || n == 4 || n == 8) && value < Range(n)
    ensures 0 <= Multiplier(n) * (value + Increment(n)) < Range(2 * n)
    ensures 0 < TenToSize(n) <= Range(n / 2) && 0 < ShiftDivisor(n)
  {
  }

  lemma SplitUnfold(n: nat, value: nat)
    requires n == 2 || n == 4 || n == 8
    ensures SplitQuotient(n, value) == (((Multiplier(n) * (value + Increment(n))) % Range(2 * n)) / ShiftDivisor(n)) % Range(n)
    ensures SplitRemainder(n, value) == ((value - SplitQuotient(n, value) * TenToSize(n)) % Range(n)) % Range(n / 2)
  {
  }

  lemma NothingLost(x: nat, value: nat, wide: nat, p: nat, narrow: nat, half: nat, d: nat)
    requires x < wide && value < narrow && 0 < d <= half && 0 < p && x / p == value / d
    ensures ((x % wide) / p) % narrow == value / d
    ensures ((value - (value / d) * d) % narrow) % half == value % d < half
  {
    ModSmall(x, wide);
    var q, r := DivIdentity(value, d);
    DivModUnique(value, d, q, r);
    assert 0 <= q <= value by {
      if q < 0 { MulMonotone(q, -1, d); } else { MulMonotone(1, d, q); }
    }
    ModSmall(q, narrow);
    ModSmall(r, narrow);
    ModSmall(r, half);
  }

  lemma TenToSizeIsPow10(n: nat)
    requires IsSize(n)
    ensures TenToSize(n) == Pow10(n)
    ensures TenToSize(n) * TenToSize(n) == Pow10(2 * n)
    ensures TenToSize(n) <= Range(n)
    ensures n > 1 ==> TenToSize(n) <= Range(n / 2) && TenToSize(n / 2) * TenToSize(n / 2) == TenToSize(n)
  {
    assert Pow10(1) == 10 && Pow10(2) == 100 && Pow10(4) == 10000;
    Pow10Add(4, 4);
    Pow10Add(n, n);
  }

  // ---------------------------------------------------------------- tail, head, large, uitoa

  /** What a split says about decimal text, and that its parts fit the next smaller size. */
  lemma SplitText(n: nat, u: nat)
    requires (n == 2 || n == 4 || n == 8) && u < Range(n)
    ensures SplitRemainder(n, u) < Pow10(n)
    ensures u == SplitQuotient(n, u) * Pow10(n) + SplitRemainder(n, u)
    ensures SplitQuotient(n, u) > 0 <==> u >= Pow10(n)
    ensures u < Pow10(2 * n) ==> SplitQuotient(n, u) < Pow10(n)
    ensures Pow10(n) <= Range(n / 2)
  {
    hide SplitQuotient, SplitRemainder, Pow10, Range, TenToSize;
    SplitExact(n, u);
    TenToSizeIsPow10(n);
    var q, r := DivIdentity(u, Pow10(n));
    DivModUnique(u, Pow10(n), q, r);
    if u < Pow10(2 * n) && q >= Pow10(n) {
      MulMonotone(Pow10(n), q, Pow10(n));
    }
    if q <= 0 {
      MulMonotone(q, 0, Pow10(n));
    } else {
      MulMonotone(1, q, Pow10(n));
    }
  }

  lemma SmallEnough(n: nat)
    requires IsSize(n)
    ensures Pow10(2 * n) <= Range(n)
    ensures n > 1 ==> Range(n) <= Pow10(3 * n)
  {
    assert Pow10(1) == 10 && Pow10(2) == 100 && Pow10(4) == 10000;
    Pow10Add(2, 4);
    Pow10Add(4, 4);
    Pow10Add(8, 4);
    Pow10Add(8, 8);
    Pow10Add(16, 8);
  }

  /** All 2N digits of `u`, leading zeros included. */
  method Tail(buf: array<char>, p: nat, u: nat, n: nat) returns (q: nat)
    requires IsSize(n) && u < Pow10(2 * n) && p + 2 * n <= buf.Length
    modifies buf
    ensures Wrote(old(buf[..]), buf[..], p, q, Padded(u, 2 * n))
    decreases n
  {
    hide Wrote, Padded, Pow10, SplitQuotient, SplitRemainder, Range;
    if n == 1 {
      TenToSizeIsPow10(2);
      q := OutTwoDigits(buf, p, u);
    } else {
      SmallEnough(n);
      SplitText(n, u);
      var quotient, remainder := SplitQuotient(n, u), SplitRemainder(n, u);
      ModSmall(quotient, Range(n / 2));
      ghost var b0 := buf[..];
      var mid := Tail(buf, p, quotient % Range(n / 2), n / 2);
      ghost var b1 := buf[..];
      WroteEnd(b0, b1, p, mid, Padded(quotient, n));
      q := Tail(buf, mid, remainder, n / 2);
      WroteConcat(b0, b1, buf[..], p, mid, q, Padded(quotient, n), Padded(remainder, n));
      PaddedJoin(quotient, remainder, n, n);
    }
  }

  lemma WroteEnd(before: seq<char>, after: seq<char>, p: nat, q: nat, text: string)
    requires Wrote(before, after, p, q, text)
    ensures q == p + |text|
  {
  }

  /** A split number whose quotient is not zero: canonical head, padded tail. */
  method HeadSplit(buf: array<char>, p: nat, u: nat, n: nat) returns (q: nat)
    requires (n == 2 || n == 4 || n == 8) && Pow10(n) <= u < Pow10(2 * n) && p + |Digits(u)| <= buf.Length
    modifies buf
    ensures Wrote(old(buf[..]), buf[..], p, q, Digits(u))
    decreases n, 0
  {
    hide Wrote, Padded, Digits, Pow10, SplitQuotient, SplitRemainder, Range;
    SmallEnough(n);
    SplitText(n, u);
    var quotient, remainder := SplitQuotient(n, u), SplitRemainder(n, u);
    DigitsJoin(quotient, remainder, n);
    ModSmall(quotient, Range(n / 2));
    ghost var b0 := buf[..];
    var mid := Head(buf, p, quotient % Range(n / 2), n / 2);
    ghost var b1 := buf[..];
    WroteEnd(b0, b1, p, mid, Digits(quotient));
    q := Tail(buf, mid, remainder, n / 2);
    WroteConcat(b0, b1, buf[..], p, mid, q, Digits(quotient), Padded(remainder, n));
  }

  /** The digits of `u` without leading zeros. */
  method Head(buf: array<char>, p: nat, u: nat, n: nat) returns (q: nat)
    requires IsSize(n) && u < Pow10(2 * n) && p + |Digits(u)| <= buf.Length
    modifies buf
    ensures Wrote(old(buf[..]), buf[..], p, q, Digits(u))
    decreases n, 1
  {
    if n == 1 {
      assert Pow10(2) == 100;
      if u < 10 {
        q := OutDigit(buf, p, u);
      } else {
        PaddedTwo(u);
        q := OutTwoDigits(buf, p, u);
      }
    } else {
      hide Wrote, Digits, Pow10, Range;
      TenToSizeIsPow10(n);
      if u < TenToSize(n) {
        ModSmall(u, Range(n / 2));
        q := Head(buf, p, u % Range(n / 2), n / 2);
      } else {
        q := HeadSplit(buf, p, u, n);
      }
    }
  }

  /** Values of 2N digits and more: split twice. */
  method Large(buf: array<char>, p: nat, u: nat, n: nat) returns (q: nat)
    requires (n == 2 || n == 4 || n == 8) && Pow10(2 * n) <= u < Range(n) && p + |Digits(u)| <= buf.Length
    modifies buf
    ensures Wrote(old(buf[..]), buf[..], p, q, Digits(u))
  {
    hide Wrote, Padded, Digits, Pow10, SplitQuotient, SplitRemainder, Range;
    SplitText(n, u);
    var xq, xr := SplitQuotient(n, u), SplitRemainder(n, u);
    LargeQuotient(n, u, xq, xr);
    SplitText(n, xq);
    var yq, yr := SplitQuotient(n, xq), SplitRemainder(n, xq);
    DigitsJoin(xq, xr, n);
    DigitsJoin(yq, yr, n);
    ModSmall(yq, Range(n / 2));
    ghost var b0 := buf[..];
    var mid := Head(buf, p, yq % Range(n / 2), n / 2);
    ghost var b1 := buf[..];
    WroteEnd(b0, b1, p, mid, Digits(yq));
    var mid2 := Tail(buf, mid, yr, n / 2);
    ghost var b2 := buf[..];
    WroteConcat(b0, b1, b2, p, mid, mid2, Digits(yq), Padded(yr, n));
    WroteEnd(b0, b2, p, mid2, Digits(xq));
    q := Tail(buf, mid2, xr, n / 2);
    WroteConcat(b0, b2, buf[..], p, mid2, q, Digits(xq), Padded(xr, n));
  }

  lemma LargeQuotient(n: nat, u: nat, q: nat, r: nat)
    requires (n == 2 || n == 4 || n == 8) && Pow10(2 * n) <= u < Range(n)
    requires u == q * Pow10(n) + r && r < Pow10(n)
    ensures Pow10(n) <= q < Pow10(2 * n) && q < Range(n)
  {
    hide Pow10, Range;
    SmallEnough(n);
    Pow10Add(n, n);
    Pow10Add(2 * n, n);
    if q < Pow10(n) {
      MulMonotone(q + 1, Pow10(n), Pow10(n));
    }
    if q >= Pow10(2 * n) {
      MulMonotone(Pow10(2 * n), q, Pow10(n));
    }
  }

  /** Every n-byte unsigned integer as its canonical decimal digits. */
  method Uitoa(buf: array<char>, p: nat, u: nat, n: nat) returns (q: nat)
    requires IsSize(n) && u < Range(n) && p + |Digits(u)| <= buf.Length
    modifies buf
    ensures Wrote(old(buf[..]), buf[..], p, q, Digits(u))
  {
    if n == 1 {
      if u < 10 {
        q := OutDigit(buf, p, u);
      } else if u < 100 {
        PaddedTwo(u);
        q := OutTwoDigits(buf, p, u);
      } else {
        ThreeDigits(u);
        ghost var b0 := buf[..];
        var mid := OutDigit(buf, p, u / 100);
        ghost var b1 := buf[..];
        q := OutTwoDigits(buf, mid, u % 100);
        WroteConcat(b0, b1, buf[..], p, mid, q, [DigitChar(u / 100)], Padded(u % 100, 2));
      }
    } else {
      hide Wrote, Digits, Pow10, Range;
      TenToSizeIsPow10(n);
      if u < TenToSize(n) {
        ModSmall(u, Range(n / 2));
        q := Head(buf, p, u % Range(n / 2), n / 2);
      } else if u < TenToSize(n) * TenToSize(n) {
        q := HeadSplit(buf, p, u, n);
      } else {
        q := Large(buf, p, u, n);
      }
    }
  }

  lemma ThreeDigits(u: nat)
    requires 100 <= u < 256
    ensures u / 100 < 10 && Digits(u) == [DigitChar(u / 100)] + Padded(u % 100, 2)
  {
    assert Pow10(2) == 100;
    DigitsJoin(u / 100, u % 100, 2);
  }

  // ---------------------------------------------------------------- signed integers

  /** An n-byte two's complement integer. */
  predicate IsSigned(i: int, n: nat) {
    0 - Range(n) <= 2 * i < Range(n)
  }

  /** The branch-free absolute value: `((2 * u) & ~mask) - u`. */
  function Magnitude(i: int, n: nat): nat
    requires IsSize(n)
  {
    var u := i % Range(n);
    var notMask := if i < 0 then 0 else Range(n) - 1;
    (And((2 * u) % Range(n), notMask) - u) % Range(n)
  }

  lemma MagnitudeIsAbs(i: int, n: nat)
    requires IsSize(n) && IsSigned(i, n)
    ensures Magnitude(i, n) == if i < 0 then -i else i
    ensures Magnitude(i, n) < Range(n)
  {
    RangeIsPow2(n);
    hide Range, And, Pow2;
    if i < 0 {
      AndZero((2 * (i % Range(n))) % Range(n));
      NegatedResidue(i, Range(n));
    } else {
      ModSmall(i, Range(n));
      ModSmall(2 * i, Range(n));
      AndMask(2 * i, 8 * n);
    }
  }

  lemma NegatedResidue(i: int, r: int)
    requires r > 0 && i < 0 && 0 - r <= 2 * i
    ensures (0 - i % r) % r == -i < r
  {
    ModOfMultiple(i, 1, r);
    ModSmall(i + r, r);
    ModOfMultiple(-i, -1, r);
    ModSmall(-i, r);
  }

  lemma RangeIsPow2(n: nat)
    requires IsSize(n)
    ensures Range(n) == Pow2(8 * n)
  {
    Pow2Words();
  }

  /** The minus sign is stored first and overwritten unless the number is negative. */
  method Itoa(i: int, n: nat, buf: array<char>, p: nat) returns (q: nat)
    requires IsSize(n) && IsSigned(i, n) && p + |SignedDigits(i)| <= buf.Length
    modifies buf
    ensures Wrote(old(buf[..]), buf[..], p, q, SignedDigits(i))
  {
    hide Digits, Magnitude, Range, And;
    MagnitudeIsAbs(i, n);
    var u := Magnitude(i, n);
    ghost var b0 := buf[..];
    buf[p] := '-';
    ghost var b1 := buf[..];
    var start := p + (if i < 0 then 1 else 0);
    q := Uitoa(buf, start, u, n);
    if i < 0 {
      assert Wrote(b0, b1, p, start, "-");
      WroteConcat(b0, b1, buf[..], p, start, q, "-", Digits(u));
    } else {
      Overwritten(b0, b1, buf[..], p, q, Digits(u));
    }
  }

  lemma Overwritten(a: seq<char>, b: seq<char>, c: seq<char>, p: nat, q: nat, text: string)
    requires p < |a| && b == a[p := '-'] && Wrote(b, c, p, q, text) && |text| > 0
    ensures Wrote(a, c, p, q, text)
  {
    assert b[..p] == a[..p] && b[q..] == a[q..];
  }

  // ---------------------------------------------------------------- 128- and 256-bit integers

  function Digits10(x: nat): nat {
    if x < 10 then 1
    else if x < 100 then 2
    else if x < 1000 then 3
    else if x < 1000000000000 then
      if x < 100000000 then
        if x < 1000000 then
          if x < 10000 then 4 else 5 + (if x >= 100000 then 1 else 0)
        else 7 + (if x >= 10000000 then 1 else 0)
      else if x < 10000000000 then 9 + (if x >= 1000000000 then 1 else 0)
      else 11 + (if x >= 100000000000 then 1 else 0)
    else 12 + Digits10(x / 1000000000000)
  }

  lemma {:induction false} DigitsLength(x: nat, k: nat)
    ensures |Digits(x)| <= k + 1 <==> x < Pow10(k + 1)
    decreases k
  {
    if k == 0 {
      assert Pow10(1) == 10;
    } else {
      assert Pow10(k + 1) == 10 * Pow10(k);
      if x >= 10 {
        DigitsLength(x / 10, k - 1);
      }
    }
  }

  lemma PowersOfTen()
    ensures Pow10(1) == 10 && Pow10(2) == 100 && Pow10(3) == 1000 && Pow10(4) == 10000 && Pow10(5) == 100000
    ensures Pow10(6) == 1000000 && Pow10(7) == 10000000 && Pow10(8) == 100000000 && Pow10(9) == 1000000000
    ensures Pow10(10) == 10000000000 && Pow10(11) == 100000000000 && Pow10(12) == 1000000000000
  {
  }

  /** The comparison tree counts the digits of every number. */
  lemma {:induction false} Digits10Exact(x: nat)
    ensures Digits10(x) == |Digits(x)|
  {
    PowersOfTen();
    if x < 1000000000000 {
      hide Digits, Pow10;
      DigitsLength(x, 0);
      DigitsLength(x, 1);
      DigitsLength(x, 2);
      DigitsLength(x, 3);
      DigitsLength(x, 4);
      DigitsLength(x, 5);
      DigitsLength(x, 6);
      DigitsLength(x, 7);
      DigitsLength(x, 8);
      DigitsLength(x, 9);
      DigitsLength(x, 10);
      DigitsLength(x, 11);
    } else {
      hide Digits, Pow10;
      Digits10Exact(x / 1000000000000);
      DigitsJoin(x / 1000000000000, x % 1000000000000, 12);
    }
  }

  lemma WrotePrepend(a: seq<char>, b: seq<char>, c: seq<char>, p: nat, q: nat, r: nat, s: string, t: string)
    requires Wrote(a, b, q, r, t) && Wrote(b, c, p, q, s)
    ensures Wrote(a, c, p, r, s + t)
  {
    assert c[q..r] == c[q..][..r - q] == b[q..][..r - q] == t;
    assert c[p..r] == c[p..q] + c[q..r];
    assert c[..p] == b[..p] == b[..q][..p] == a[..q][..p] == a[..p];
    assert c[r..] == c[q..][r - q..] == b[q..][r - q..] == b[r..] == a[r..];
  }

  lemma HundredSplit(x: nat)
    requires x >= 100
    ensures Digits(x) == Digits(x / 100) + Padded(x % 100, 2)
  {
    PowersOfTen();
    DigitsJoin(x / 100, x % 100, 2);
  }

  lemma TextStep(value: nat, x: nat, text: string, low: string)
    requires x >= 100 && Digits(value) == Digits(x) + text && low == Padded(x % 100, 2)
    ensures Digits(value) == Digits(x / 100) + (low + text) && |Digits(x)| == |Digits(x / 100)| + 2
  {
    hide Digits;
    HundredSplit(x);
    assert (Digits(x / 100) + low) + text == Digits(x / 100) + (low + text);
  }

  /** Two digits at a time, from the last to the first, into exactly the counted room. */
  method WriteUIntText(value: nat, buf: array<char>, p: nat) returns (q: nat)
    requires p + |Digits(value)| <= buf.Length
    modifies buf
    ensures Wrote(old(buf[..]), buf[..], p, q, Digits(value))
  {
    hide Digits, Padded, Wrote, Digits10, DigitChar;
    var x, len := value, Digits10(value);
    Digits10Exact(value);
    var pp := p + len;
    ghost var b0 := buf[..];
    ghost var text := "";
    NothingWritten(b0, pp);
    while x >= 100
      invariant pp == p + |Digits(x)|
      invariant Digits(value) == Digits(x) + text
      invariant pp <= buf.Length && Wrote(b0, buf[..], pp, p + len, text)
    {
      ghost var b1 := buf[..];
      ghost var low := Padded(x % 100, 2);
      TextStep(value, x, text, low);
      var i := x % 100;
      x := x / 100;
      pp := pp - 2;
      var end := OutTwoDigits(buf, pp, i);
      WroteEnd(b1, buf[..], pp, end, low);
      WrotePrepend(b0, b1, buf[..], pp, end, p + len, low, text);
      text := low + text;
    }
    ghost var b2 := buf[..];
    LastDigits(x);
    if x < 10 {
      var end := OutDigit(buf, p, x);
      WroteEnd(b2, buf[..], p, end, Digits(x));
    } else {
      var end := OutTwoDigits(buf, p, x);
      WroteEnd(b2, buf[..], p, end, Digits(x));
    }
    WrotePrepend(b0, b2, buf[..], p, pp, p + len, Digits(x), text);
    q := p + len;
  }

  lemma NothingWritten(a: seq<char>, p: nat)
    requires p <= |a|
    ensures Wrote(a, a, p, p, "")
  {
  }

  lemma LastDigits(x: nat)
    requires x < 100
    ensures Digits(x) == if x < 10 then [DigitChar(x)] else Padded(x, 2)
  {
    PaddedTwo(x);
  }

  // ---------------------------------------------------------------- the literals for the two minima

  const MIN_INT_128 := 170141183460469231731687303715884105728
  const MIN_INT_256 := 57896044618658097711785492504343953926634992332820282019728792003956564819968

  /** The number ten digits spell. */
  function TenDigits(t: string): nat
    requires |t| == 10 && AllDigits(t)
  {
    1000000000 * DigitValue(t[0]) + 100000000 * DigitValue(t[1]) + 10000000 * DigitValue(t[2])
    + 1000000 * DigitValue(t[3]) + 100000 * DigitValue(t[4]) + 10000 * DigitValue(t[5])
    + 1000 * DigitValue(t[6]) + 100 * DigitValue(t[7]) + 10 * DigitValue(t[8]) + DigitValue(t[9])
  }

  lemma {:induction false} PaddedParse(t: string)
    requires AllDigits(t)
    ensures Padded(Parse(t), |t|) == t
  {
    if |t| > 0 {
      var h, d := t[..|t| - 1], DigitValue(t[|t| - 1]);
      PaddedParse(h);
      assert Parse(t) == 10 * Parse(h) + d && d < 10 && t == h + [DigitChar(d)];
      hide *;
      PaddedStep(Parse(t), |t|);
      LastDigit(Parse(h), d);
    }
  }

  lemma LastDigit(n: nat, d: nat)
    requires d < 10
    ensures (10 * n + d) / 10 == n && (10 * n + d) % 10 == d
  {
  }

  lemma ParseStep(t: string, k: nat)
    requires AllDigits(t) && k < |t|
    ensures Parse(t[..k + 1]) == 10 * Parse(t[..k]) + DigitValue(t[k])
  {
    assert t[..k + 1][..k] == t[..k];
  }

  lemma TenDigitsIsParse(t: string)
    requires |t| == 10 && AllDigits(t)
    ensures TenDigits(t) == Parse(t) < 10000000000
  {
    assert Parse(t[..0]) == 0 && t[..10] == t;
    hide Parse, DigitValue;
    ParseStep(t, 0);
    ParseStep(t, 1);
    ParseStep(t, 2);
    ParseStep(t, 3);
    ParseStep(t, 4);
    ParseStep(t, 5);
    ParseStep(t, 6);
    ParseStep(t, 7);
    ParseStep(t, 8);
    ParseStep(t, 9);
    assert TenDigits(t) == Parse(t);
    NumberBound(t);
  }

  lemma NumberBound(t: string)
    requires |t| == 10 && AllDigits(t)
    ensures TenDigits(t) < 10000000000
  {
  }

  lemma TenMore(q: nat, r: nat, head: string, tail: string)
    requires q > 0 && Digits(q) == head && |tail| == 10 && AllDigits(tail) && r == TenDigits(tail)
    ensures Digits(10000000000 * q + r) == head + tail
  {
    PowersOfTen();
    TenDigitsIsParse(tail);
    PaddedParse(tail);
    hide *;
    DigitsJoin(q, r, 10);
  }

  lemma {:induction false} ParseZero(t: string)
    requires AllDigits(t)
    ensures AllDigits("0" + t) && Parse("0" + t) == Parse(t)
  {
    var z := "0" + t;
    if t == "" {
      assert z[..0] == "";
    } else {
      var h := t[..|t| - 1];
      ParseZero(h);
      assert z[..|z| - 1] == "0" + h;
    }
  }

  lemma Head128()
    ensures Digits(170141183) == "170141183"
  {
    hide Digits, Parse;
    var t := "170141183";
    ParseZero(t);
    assert "0" + t == "0170141183";
    TenDigitsIsParse("0170141183");
    DigitsUnique(t);
  }

  lemma Head256()
    ensures Digits(5789604) == "5789604"
  {
    hide Digits, Parse;
    var t := "5789604";
    ParseZero(t);
    ParseZero("0" + t);
    ParseZero("00" + t);
    assert "0" + t == "05789604" && "0" + "05789604" == "005789604" && "00" + t == "005789604";
    assert "0" + "005789604" == "0005789604";
    TenDigitsIsParse("0005789604");
    DigitsUnique(t);
  }

  function HighDigits(): string {
    "5789604" + "4618658097" + "7117854925" + "0434395392"
  }

  /** The digits of the minima, in groups of ten from the right. */
  function MinimumDigits(wide: bool): string {
    if wide then
      HighDigits() + "6634992332" + "8202820197" + "2879200395" + "6564819968"
    else
      "170141183" + "4604692317" + "3168730371" + "5884105728"
  }

  lemma MinText128()
    ensures Digits(MIN_INT_128) == MinimumDigits(false)
  {
    hide Digits;
    Head128();
    TenMore(170141183, 4604692317, "170141183", "4604692317");
    var t1 := "170141183" + "4604692317";
    TenMore(1701411834604692317, 3168730371, t1, "3168730371");
    var t2 := t1 + "3168730371";
    TenMore(17014118346046923173168730371, 5884105728, t2, "5884105728");
  }

  lemma HighText256()
    ensures Digits(5789604461865809771178549250434395392) == HighDigits()
  {
    hide Digits;
    Head256();
    TenMore(5789604, 4618658097, "5789604", "4618658097");
    var t1 := "5789604" + "4618658097";
    TenMore(57896044618658097, 7117854925, t1, "7117854925");
    var t2 := t1 + "7117854925";
    TenMore(578960446186580977117854925, 434395392, t2, "0434395392");
  }

  lemma MiddleText256()
    ensures Digits(578960446186580977117854925043439539266349923328202820197) == HighDigits() + "6634992332" + "8202820197"
  {
    hide Digits, HighDigits;
    HighText256();
    var t3 := HighDigits();
    TenMore(5789604461865809771178549250434395392, 6634992332, t3, "6634992332");
    var t4 := t3 + "6634992332";
    TenMore(57896044618658097711785492504343953926634992332, 8202820197, t4, "8202820197");
  }

  lemma MinText256()
    ensures Digits(MIN_INT_256) == MinimumDigits(true)
  {
    hide Digits, HighDigits;
    MiddleText256();
    var t5 := HighDigits() + "6634992332" + "8202820197";
    TenMore(578960446186580977117854925043439539266349923328202820197, 2879200395, t5, "2879200395");
    var t6 := t5 + "2879200395";
    TenMore(5789604461865809771178549250434395392663499233282028201972879200395, 6564819968, t6, "6564819968");
  }

  function Minimum(wide: bool): nat {
    if wide then MIN_INT_256 else MIN_INT_128
  }

  lemma MinimumIsPow2(wide: bool)
    ensures Minimum(wide) == Pow2(if wide then 255 else 127)
  {
    Pow2Words();
    Pow2Add(128, 128);
    assert Pow2(128) == 2 * Pow2(127);
    assert Pow2(256) == 2 * Pow2(255);
  }

  /** The text returned for the minimum, which has no positive counterpart. */
  function MinimumText(wide: bool): string {
    "-" + MinimumDigits(wide)
  }

  lemma MinimumTextExact(wide: bool)
    ensures MinimumText(wide) == SignedDigits(0 - Minimum(wide))
  {
    hide Digits;
    MinText128();
    MinText256();
  }

  /** Every 128-bit (`wide`: 256-bit) signed integer, the minimum included. */
  method WriteSIntText(x: int, wide: bool, buf: array<char>, p: nat) returns (q: nat)
    requires 0 - Minimum(wide) <= x < Minimum(wide)
    requires p + |SignedDigits(x)| <= buf.Length
    modifies buf
    ensures Wrote(old(buf[..]), buf[..], p, q, SignedDigits(x))
  {
    hide Digits, MinimumText, Minimum;
    if x == 0 - Minimum(wide) {
      var res := MinimumText(wide);
      MinimumTextExact(wide);
      forall i | 0 <= i < |res| {
        buf[p + i] := res[i];
      }
      return p + |res|;
    }
    var magnitude, pos := x, p;
    ghost var b0 := buf[..];
    if x < 0 {
      magnitude := -x;
      buf[pos] := '-';
      pos := pos + 1;
      assert Wrote(b0, buf[..], p, pos, "-");
    }
    ghost var b1 := buf[..];
    q := WriteUIntText(magnitude, buf, pos);
    if x < 0 {
      WroteConcat(b0, b1, buf[..], p, pos, q, "-", Digits(magnitude));
    }
  }
}
