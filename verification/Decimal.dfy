/** Decimal text: canonical digits, fixed-width digits and their value. */
module Decimal {
  import opened Arith

  function Pow10(k: nat): (p: nat)
    ensures p > 0
  {
    if k == 0 then 1 else 10 * Pow10(k - 1)
  }

  function DigitChar(d: nat): char
    requires d < 10
  {
    (48 + d) as char
  }

  predicate IsDigit(c: char) {
    '0' <= c <= '9'
  }

  function DigitValue(c: char): nat
    requires IsDigit(c)
  {
    c as int - 48
  }

  /** The canonical decimal digits of `n`: no leading zero except for zero itself. */
  function Digits(n: nat): (s: string)
    ensures |s| > 0
  {
    if n < 10 then [DigitChar(n)] else Digits(n / 10) + [DigitChar(n % 10)]
  }

  /** The `k` low decimal digits of `n`, leading zeros included. */
  function Padded(n: nat, k: nat): (s: string)
    ensures |s| == k
  {
    if k == 0 then [] else Padded(n / 10, k - 1) + [DigitChar(n % 10)]
  }

  function SignedDigits(v: int): string {
    if v < 0 then "-" + Digits(-v) else Digits(v)
  }

  predicate AllDigits(s: string) {
    forall i :: 0 <= i < |s| ==> IsDigit(s[i])
  }

  function Parse(s: string): nat
    requires AllDigits(s)
  {
    if s == [] then 0 else 10 * Parse(s[..|s| - 1]) + DigitValue(s[|s| - 1])
  }

  lemma {:induction false} Pow10Add(a: nat, b: nat)
    ensures Pow10(a + b) == Pow10(a) * Pow10(b)
  {
    if a > 0 {
      Pow10Add(a - 1, b);
      assert Pow10(a + b) == 10 * Pow10(a - 1 + b);
      MulAssociative(10, Pow10(a - 1), Pow10(b));
    }
  }

  /** Reading back what was written. */
  lemma {:induction false} ParseDigits(n: nat)
    ensures AllDigits(Digits(n)) && Parse(Digits(n)) == n
  {
    if n < 10 {
      assert Digits(n)[..0] == [];
    } else {
      ParseDigits(n / 10);
      assert Digits(n)[..|Digits(n)| - 1] == Digits(n / 10);
    }
  }

  lemma {:induction false} NoLeadingZero(n: nat)
    ensures Digits(n)[0] == '0' ==> n == 0
    ensures n > 0 ==> Digits(n)[0] != '0'
  {
    if n >= 10 {
      NoLeadingZero(n / 10);
    }
  }

  lemma {:induction false} ParsePositive(s: string)
    requires AllDigits(s) && |s| > 0 && s[0] != '0'
    ensures Parse(s) > 0
  {
    if |s| > 1 {
      ParsePositive(s[..|s| - 1]);
    }
  }

  /** Digits with no leading zero are the canonical digits of their value. */
  lemma {:induction false} DigitsUnique(s: string)
    requires AllDigits(s) && |s| > 0 && (|s| == 1 || s[0] != '0')
    ensures Digits(Parse(s)) == s
  {
    var t, c := s[..|s| - 1], s[|s| - 1];
    assert s == t + [c];
    if |s| == 1 {
      assert Parse(t) == 0;
    } else {
      ParsePositive(t);
      DigitsUnique(t);
      assert Parse(s) / 10 == Parse(t) && Parse(s) % 10 == DigitValue(c);
    }
  }

  /** Ten divides `q * 10^k + r` like `r`, leaving `q * 10^(k-1) + r / 10`. */
  lemma TenthOf(q: nat, r: nat, k: nat)
    requires k > 0 && r < Pow10(k)
    ensures r / 10 < Pow10(k - 1)
    ensures q * Pow10(k) == 10 * (q * Pow10(k - 1))
    ensures (q * Pow10(k) + r) / 10 == q * Pow10(k - 1) + r / 10 && (q * Pow10(k) + r) % 10 == r % 10
  {
    var h := Pow10(k - 1);
    assert Pow10(k) == 10 * h;
    var x := q * h;
    assert q * (10 * h) == 10 * x;
    assert (10 * x + r) / 10 == x + r / 10 && (10 * x + r) % 10 == r % 10;
  }

  lemma PaddedStep(n: nat, k: nat)
    requires k > 0
    ensures Padded(n, k) == Padded(n / 10, k - 1) + [DigitChar(n % 10)]
  {
  }

  lemma DigitsStep(n: nat)
    requires n >= 10
    ensures Digits(n) == Digits(n / 10) + [DigitChar(n % 10)]
  {
  }

  /** Writing a number in two pieces: the high one canonical, the low one padded. */
  lemma {:induction false} DigitsJoin(q: nat, r: nat, k: nat)
    requires q > 0 && r < Pow10(k)
    ensures Digits(q * Pow10(k) + r) == Digits(q) + Padded(r, k)
    decreases k
  {
    if k == 0 {
      assert q * Pow10(0) + r == q;
    } else {
      TenthOf(q, r, k);
      MulMonotone(1, q, Pow10(k - 1));
      DigitsJoin(q, r / 10, k - 1);
      DigitsStep(q * Pow10(k) + r);
      PaddedStep(r, k);
      hide *;
      assert (Digits(q) + Padded(r / 10, k - 1)) + [DigitChar(r % 10)] == Digits(q) + (Padded(r / 10, k - 1) + [DigitChar(r % 10)]);
    }
  }

  lemma {:induction false} PaddedJoin(q: nat, r: nat, a: nat, b: nat)
    requires r < Pow10(b)
    ensures Padded(q * Pow10(b) + r, a + b) == Padded(q, a) + Padded(r, b)
    decreases b
  {
    if b == 0 {
      assert q * Pow10(0) + r == q;
    } else {
      TenthOf(q, r, b);
      PaddedJoin(q, r / 10, a, b - 1);
      PaddedJoinStep(q * Pow10(b) + r, q, r, a, b);
    }
  }

  lemma PaddedJoinStep(n: nat, q: nat, r: nat, a: nat, b: nat)
    requires b > 0 && n % 10 == r % 10 && Padded(n / 10, a + b - 1) == Padded(q, a) + Padded(r / 10, b - 1)
    ensures Padded(n, a + b) == Padded(q, a) + Padded(r, b)
  {
    hide *;
    PaddedStep(n, a + b);
    PaddedStep(r, b);
    assert (Padded(q, a) + Padded(r / 10, b - 1)) + [DigitChar(r % 10)] == Padded(q, a) + (Padded(r / 10, b - 1) + [DigitChar(r % 10)]);
  }
}
