/** Equality of byte ranges by wide, overlapping loads. */
module MemEqual {
  import opened Arith

  type Byte = x: nat | x < 256

  // ---------------------------------------------------------------- loads

  /** An unaligned little-endian load of `n` bytes; every byte must lie within the range. */
  function Load(x: seq<Byte>, i: nat, n: nat): nat
    requires i + n <= |x|
    decreases n
  {
    if n == 0 then 0 else x[i] + 256 * Load(x, i + 1, n - 1)
  }

  lemma {:induction false} LoadEqual(x: seq<Byte>, y: seq<Byte>, i: nat, n: nat)
    requires i + n <= |x| && i + n <= |y|
    ensures Load(x, i, n) == Load(y, i, n) <==> x[i..i + n] == y[i..i + n]
    decreases n
  {
    if n > 0 {
      LoadEqual(x, y, i + 1, n - 1);
      LowByte(x[i], Load(x, i + 1, n - 1), y[i], Load(y, i + 1, n - 1));
      assert x[i..i + n] == [x[i]] + x[i + 1..i + n];
      assert y[i..i + n] == [y[i]] + y[i + 1..i + n];
      if x[i..i + n] == y[i..i + n] {
        assert x[i..i + n][0] == y[i..i + n][0];
        assert x[i..i + n][1..] == y[i..i + n][1..];
      }
    }
  }

  lemma LowByte(a: Byte, b: nat, c: Byte, d: nat)
    ensures a + 256 * b == c + 256 * d <==> a == c && b == d
  {
  }

  /** A byte-wise comparison of two 16-byte vectors. */
  function CompareBytes(x: seq<Byte>, y: seq<Byte>, i: nat): (r: seq<bool>)
    requires i + 16 <= |x| && i + 16 <= |y|
    ensures |r| == 16
  {
    seq(16, k requires 0 <= k < 16 => x[i + k] == y[i + k])
  }

  function And16(a: seq<bool>, b: seq<bool>): (r: seq<bool>)
    requires |a| == |b| == 16
    ensures |r| == 16
  {
    seq(16, k requires 0 <= k < 16 => a[k] && b[k])
  }

  /** One bit per byte, the first byte lowest. */
  function MoveMask(v: seq<bool>): nat {
    if v == [] then 0 else (if v[0] then 1 else 0) + 2 * MoveMask(v[1..])
  }

  ghost predicate AllTrue(v: seq<bool>) {
    forall k :: 0 <= k < |v| ==> v[k]
  }

  lemma {:induction false} FullMask(v: seq<bool>)
    ensures MoveMask(v) <= Pow2(|v|) - 1
    ensures MoveMask(v) == Pow2(|v|) - 1 <==> AllTrue(v)
  {
    if v != [] {
      FullMask(v[1..]);
      if AllTrue(v[1..]) {
        forall k | 0 < k < |v|
          ensures v[k]
        {
          assert v[k] == v[1..][k - 1];
        }
      }
    }
  }

  lemma FullMask16(v: seq<bool>)
    requires |v| == 16
    ensures MoveMask(v) == 0xFFFF <==> AllTrue(v)
  {
    hide MoveMask, Pow2, AllTrue;
    Pow2Words();
    FullMask(v);
  }

  lemma AndAll(a: seq<bool>, b: seq<bool>)
    requires |a| == |b| == 16
    ensures AllTrue(And16(a, b)) <==> AllTrue(a) && AllTrue(b)
  {
    var v := And16(a, b);
    assert forall k :: 0 <= k < 16 ==> v[k] == (a[k] && b[k]);
  }

  predicate CompareSSE2(x: seq<Byte>, y: seq<Byte>, i: nat)
    requires i + 16 <= |x| && i + 16 <= |y|
  {
    MoveMask(CompareBytes(x, y, i)) == 0xFFFF
  }

  predicate CompareSSE2x4(x: seq<Byte>, y: seq<Byte>, i: nat)
    requires i + 64 <= |x| && i + 64 <= |y|
  {
    MoveMask(And16(And16(CompareBytes(x, y, i), CompareBytes(x, y, i + 16)),
                   And16(CompareBytes(x, y, i + 32), CompareBytes(x, y, i + 48)))) == 0xFFFF
  }

  /** Equality on the positions from `lo` to `hi`. */
  ghost predicate SameOn(x: seq<Byte>, y: seq<Byte>, lo: nat, hi: nat) {
    hi <= |x| && hi <= |y| && forall i :: lo <= i < hi ==> x[i] == y[i]
  }

  lemma LoadSame(x: seq<Byte>, y: seq<Byte>, i: nat, n: nat)
    requires i + n <= |x| && i + n <= |y|
    ensures Load(x, i, n) == Load(y, i, n) <==> SameOn(x, y, i, i + n)
  {
    LoadEqual(x, y, i, n);
    if x[i..i + n] == y[i..i + n] {
      forall j | i <= j < i + n
        ensures x[j] == y[j]
      {
        assert x[i..i + n][j - i] == y[i..i + n][j - i];
      }
    }
  }

  lemma BytesSame(x: seq<Byte>, y: seq<Byte>, i: nat)
    requires i + 16 <= |x| && i + 16 <= |y|
    ensures AllTrue(CompareBytes(x, y, i)) <==> SameOn(x, y, i, i + 16)
  {
    var v := CompareBytes(x, y, i);
    assert forall k :: 0 <= k < 16 ==> v[k] == (x[i + k] == y[i + k]);
    if AllTrue(v) {
      forall j | i <= j < i + 16
        ensures x[j] == y[j]
      {
        assert v[j - i];
      }
    }
  }

  lemma CompareSame(x: seq<Byte>, y: seq<Byte>, i: nat)
    requires i + 16 <= |x| && i + 16 <= |y|
    ensures CompareSSE2(x, y, i) <==> SameOn(x, y, i, i + 16)
  {
    hide MoveMask, AllTrue, CompareBytes, SameOn;
    FullMask16(CompareBytes(x, y, i));
    BytesSame(x, y, i);
  }

  lemma CompareSame4(x: seq<Byte>, y: seq<Byte>, i: nat)
    requires i + 64 <= |x| && i + 64 <= |y|
    ensures CompareSSE2x4(x, y, i) <==> SameOn(x, y, i, i + 64)
  {
    hide MoveMask, AllTrue, CompareBytes, And16;
    var a, b, c, d := CompareBytes(x, y, i), CompareBytes(x, y, i + 16), CompareBytes(x, y, i + 32), CompareBytes(x, y, i + 48);
    FullMask16(And16(And16(a, b), And16(c, d)));
    AndAll(And16(a, b), And16(c, d));
    AndAll(a, b);
    AndAll(c, d);
    BytesSame(x, y, i);
    BytesSame(x, y, i + 16);
    BytesSame(x, y, i + 32);
    BytesSame(x, y, i + 48);
  }

  // ---------------------------------------------------------------- memequalSSE2Wide

  lemma SameAll(x: seq<Byte>, y: seq<Byte>)
    requires |x| == |y|
    ensures x == y <==> SameOn(x, y, 0, |x|)
  {
  }

  /** Two overlapping loads at the ends cover a range of `n` to `2 n` bytes. */
  lemma TwoLoads(x: seq<Byte>, y: seq<Byte>, n: nat)
    requires |x| == |y| && n <= |x| <= 2 * n
    ensures x == y <==> Load(x, 0, n) == Load(y, 0, n) && Load(x, |x| - n, n) == Load(y, |x| - n, n)
  {
    SameAll(x, y);
    LoadSame(x, y, 0, n);
    LoadSame(x, y, |x| - n, n);
  }

  /** `p` is how far both pointers have moved; every load is within the original ranges. */
  method MemEqualWide(x: seq<Byte>, y: seq<Byte>) returns (r: bool)
    requires |x| == |y|
    ensures r <==> x == y
  {
    hide Load, CompareSSE2, CompareSSE2x4, SameOn;
    var size := |x|;
    if size <= 16 {
      if size >= 8 {
        TwoLoads(x, y, 8);
        return Load(x, 0, 8) == Load(y, 0, 8) && Load(x, size - 8, 8) == Load(y, size - 8, 8);
      } else if size >= 4 {
        TwoLoads(x, y, 4);
        return Load(x, 0, 4) == Load(y, 0, 4) && Load(x, size - 4, 4) == Load(y, size - 4, 4);
      } else if size >= 2 {
        TwoLoads(x, y, 2);
        return Load(x, 0, 2) == Load(y, 0, 2) && Load(x, size - 2, 2) == Load(y, size - 2, 2);
      } else if size >= 1 {
        return x[0] == y[0];
      }
      return true;
    }
    r := EqualBlocks(x, y);
  }

  method EqualBlocks(x: seq<Byte>, y: seq<Byte>) returns (r: bool)
    requires |x| == |y| > 16
    ensures r <==> x == y
  {
    hide CompareSSE2, CompareSSE2x4;
    SameAll(x, y);
    var p, size := 0, |x|;
    while size >= 64
      invariant p + size == |x| && SameOn(x, y, 0, p) && (p == 0 || p >= 64)
      decreases size
    {
      CompareSame4(x, y, p);
      if CompareSSE2x4(x, y, p) {
        p := p + 64;
        size := size - 64;
      } else {
        return false;
      }
    }
    if size / 16 == 3 {
      CompareSame(x, y, p + 32);
      if !CompareSSE2(x, y, p + 32) {
        return false;
      }
    }
    if size / 16 >= 2 {
      CompareSame(x, y, p + 16);
      if !CompareSSE2(x, y, p + 16) {
        return false;
      }
    }
    if size / 16 >= 1 {
      CompareSame(x, y, p);
      if !CompareSSE2(x, y, p) {
        return false;
      }
    }
    CompareSame(x, y, p + size - 16);
    r := CompareSSE2(x, y, p + size - 16);
  }

  /** operator== on StringRef */
  method Equal(lhs: seq<Byte>, rhs: seq<Byte>) returns (r: bool)
    ensures r <==> lhs == rhs
  {
    if |lhs| != |rhs| {
      return false;
    }
    if |lhs| == 0 {
      return true;
    }
    r := MemEqualWide(lhs, rhs);
  }
}
