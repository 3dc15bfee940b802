/** The RXS-M-XS output permutation of the equal-width PCG generators and its inverse. */
module XorShift {
  import opened Arith

  /** The bits of a word, least significant first. */
  type Word = seq<bool>

  function Xor(x: Word, y: Word): Word
    requires |x| == |y|
  {
    seq(|x|, i requires 0 <= i < |x| => x[i] != y[i])
  }

  function AndBits(x: Word, y: Word): Word
    requires |x| == |y|
  {
    seq(|x|, i requires 0 <= i < |x| => x[i] && y[i])
  }

  function OrBits(x: Word, y: Word): Word
    requires |x| == |y|
  {
    seq(|x|, i requires 0 <= i < |x| => x[i] || y[i])
  }

  function Complement(x: Word): Word {
    seq(|x|, i requires 0 <= i < |x| => !x[i])
  }

  function ShiftRight(x: Word, s: nat): Word {
    seq(|x|, i requires 0 <= i < |x| => i + s < |x| && x[i + s])
  }

  /** `(1 << k) - 1` */
  function LowMask(w: nat, k: nat): Word {
    seq(w, i => i < k)
  }

  function XorShiftRight(x: Word, s: nat): Word {
    Xor(x, ShiftRight(x, s))
  }

  /** All bits of `x` lie below `bits`. */
  ghost predicate Below(x: Word, bits: nat) {
    forall i :: 0 <= i < |x| && bits <= i ==> !x[i]
  }

  function Unxorshift(x: Word, bits: nat, shift: nat): (r: Word)
    requires 1 <= shift
    ensures |r| == |x|
    decreases bits
  {
    if 2 * shift >= bits then XorShiftRight(x, shift)
    else
      var w := |x|;
      var lowmask1 := LowMask(w, bits - shift * 2);
      var highmask1 := Complement(lowmask1);
      var bottom1 := AndBits(x, lowmask1);
      var top1 := AndBits(XorShiftRight(x, shift), highmask1);
      var x' := OrBits(top1, bottom1);
      var lowmask2 := LowMask(w, bits - shift);
      var bottom2 := AndBits(Unxorshift(AndBits(x', lowmask2), bits - shift, shift), lowmask1);
      OrBits(top1, bottom2)
  }

  /** The argument of the recursive call. */
  ghost function Remainder(x: Word, bits: nat, shift: nat): (r: Word)
    requires 1 <= shift && 2 * shift < bits
    ensures |r| == |x|
    ensures forall i :: 0 <= i < |x| ==>
              r[i] == (i < bits - shift && if i < bits - 2 * shift then x[i] else x[i] != (i + shift < |x| && x[i + shift]))
  {
    var lowmask1 := LowMask(|x|, bits - shift * 2);
    var top1 := AndBits(XorShiftRight(x, shift), Complement(lowmask1));
    AndBits(OrBits(top1, AndBits(x, lowmask1)), LowMask(|x|, bits - shift))
  }

  lemma UnxorshiftUnfold(x: Word, bits: nat, shift: nat)
    requires 1 <= shift && 2 * shift < bits
    ensures forall i :: 0 <= i < |x| ==>
              Unxorshift(x, bits, shift)[i]
              == if i < bits - 2 * shift then Unxorshift(Remainder(x, bits, shift), bits - shift, shift)[i]
                 else x[i] != (i + shift < |x| && x[i + shift])
  {
    var lowmask1 := LowMask(|x|, bits - shift * 2);
    var top1 := AndBits(XorShiftRight(x, shift), Complement(lowmask1));
    var r := Remainder(x, bits, shift);
    assert Unxorshift(x, bits, shift) == OrBits(top1, AndBits(Unxorshift(r, bits - shift, shift), lowmask1));
  }

  /** A shift of at least half the width undoes itself. */
  lemma DoubleXorShift(x: Word, bits: nat, shift: nat)
    requires 1 <= shift && Below(x, bits) && 2 * shift >= bits
    ensures XorShiftRight(XorShiftRight(x, shift), shift) == x
  {
    var y := XorShiftRight(x, shift);
    forall i | 0 <= i < |x| ensures XorShiftRight(y, shift)[i] == x[i] {
      var j := i + shift;
      var k := j + shift;
      assert k < |x| ==> !x[k];
      assert j < |x| ==> y[j] == (x[j] != (k < |x| && x[k]));
    }
  }

  /** Undoing a xorshift, for every width and every shift of at least one. */
  lemma {:induction false} UnxorshiftInverts(x: Word, bits: nat, shift: nat)
    requires 1 <= shift && Below(x, bits)
    ensures Unxorshift(XorShiftRight(x, shift), bits, shift) == x
    decreases bits
  {
    var y := XorShiftRight(x, shift);
    if 2 * shift < bits {
      var z := AndBits(x, LowMask(|x|, bits - shift));
      UnxorshiftInverts(z, bits - shift, shift);
      RemainderOfXorShift(x, bits, shift);
      UnxorshiftUnfold(y, bits, shift);
      HighPart(x, y, z, bits, shift, Unxorshift(y, bits, shift));
    } else {
      DoubleXorShift(x, bits, shift);
    }
  }

  lemma HighPart(x: Word, y: Word, z: Word, bits: nat, shift: nat, v: Word)
    requires 1 <= shift && 2 * shift < bits && Below(x, bits) && |v| == |x|
    requires y == XorShiftRight(x, shift) && z == AndBits(x, LowMask(|x|, bits - shift))
    requires forall i :: 0 <= i < |x| ==> v[i] == if i < bits - 2 * shift then z[i] else y[i] != (i + shift < |y| && y[i + shift])
    ensures v == x
  {
    forall i | 0 <= i < |x| ensures v[i] == x[i] {
      var j := i + shift;
      var k := j + shift;
      assert k < |x| && bits <= k ==> !x[k];
      assert v[i] == if i < bits - 2 * shift then z[i] else y[i] != (j < |y| && y[j]);
      assert j < |x| ==> y[j] == (x[j] != (k < |x| && x[k]));
    }
  }

  /** The recursion sees the xorshift of the low part of `x`. */
  lemma RemainderOfXorShift(x: Word, bits: nat, shift: nat)
    requires 1 <= shift && 2 * shift < bits && Below(x, bits)
    ensures Remainder(XorShiftRight(x, shift), bits, shift) == XorShiftRight(AndBits(x, LowMask(|x|, bits - shift)), shift)
  {
    var y, z := XorShiftRight(x, shift), AndBits(x, LowMask(|x|, bits - shift));
    var r := Remainder(y, bits, shift);
    forall i | 0 <= i < |x| ensures r[i] == XorShiftRight(z, shift)[i] {
    }
  }

  lemma {:induction false} UnxorshiftBelow(y: Word, bits: nat, shift: nat)
    requires 1 <= shift && Below(y, bits)
    ensures Below(Unxorshift(y, bits, shift), bits)
    decreases bits
  {
    if 2 * shift < bits {
      UnxorshiftBelow(Remainder(y, bits, shift), bits - shift, shift);
      UnxorshiftUnfold(y, bits, shift);
    }
  }

  /** The low part comes from the recursion, the high part from one xorshift; together they xorshift to `y`. */
  lemma Rejoin(y: Word, bits: nat, shift: nat, r: Word, u: Word, v: Word)
    requires 1 <= shift && 2 * shift < bits && Below(y, bits)
    requires r == Remainder(y, bits, shift)
    requires |u| == |v| == |y| && Below(u, bits - shift) && XorShiftRight(u, shift) == r
    requires forall i :: 0 <= i < |y| ==> v[i] == if i < bits - 2 * shift then u[i] else y[i] != (i + shift < |y| && y[i + shift])
    ensures XorShiftRight(v, shift) == y
  {
    forall i | 0 <= i < |y| ensures XorShiftRight(v, shift)[i] == y[i] {
      var j := i + shift;
      var k := j + shift;
      assert k < |y| && bits <= k ==> !y[k];
      assert k < |y| && bits - shift <= k ==> !u[k];
      assert r[i] == (u[i] != (j < |y| && u[j]));
      if j < |y| {
        assert r[j] == (u[j] != (k < |y| && u[k]));
        assert v[j] == if j < bits - 2 * shift then u[j] else y[j] != (k < |y| && y[k]);
      }
    }
  }

  /** And the other way round: every word is the xorshift of what it unshifts to. */
  lemma {:induction false} UnxorshiftIsInverted(y: Word, bits: nat, shift: nat)
    requires 1 <= shift && Below(y, bits)
    ensures XorShiftRight(Unxorshift(y, bits, shift), shift) == y
    decreases bits
  {
    if 2 * shift < bits {
      var r := Remainder(y, bits, shift);
      var u := Unxorshift(r, bits - shift, shift);
      UnxorshiftIsInverted(r, bits - shift, shift);
      UnxorshiftBelow(r, bits - shift, shift);
      UnxorshiftUnfold(y, bits, shift);
      Rejoin(y, bits, shift, r, u, Unxorshift(y, bits, shift));
    }
  }

  // ---------------------------------------------------------------- words as numbers

  function ToNat(x: Word): nat {
    if x == [] then 0 else (if x[0] then 1 else 0) + 2 * ToNat(x[1..])
  }

  function FromNat(n: nat, w: nat): (x: Word)
    ensures |x| == w
  {
    if w == 0 then [] else [n % 2 == 1] + FromNat(n / 2, w - 1)
  }

  lemma {:induction false} ToNatBound(x: Word)
    ensures ToNat(x) < Pow2(|x|)
  {
    if x != [] {
      ToNatBound(x[1..]);
    }
  }

  lemma {:induction false} NatRoundTrip(n: nat, w: nat)
    requires n < Pow2(w)
    ensures ToNat(FromNat(n, w)) == n
  {
    if w > 0 {
      NatRoundTrip(n / 2, w - 1);
      assert FromNat(n, w)[1..] == FromNat(n / 2, w - 1);
    }
  }

  lemma {:induction false} WordRoundTrip(x: Word)
    ensures FromNat(ToNat(x), |x|) == x
  {
    if x != [] {
      WordRoundTrip(x[1..]);
      assert x == [x[0]] + x[1..];
    }
  }

  /** A right shift of the number drops low bits of the word. */
  lemma {:induction false} ToNatShift(x: Word, k: nat)
    requires k <= |x|
    ensures ToNat(x) / Pow2(k) == ToNat(x[k..])
    decreases k
  {
    if k > 0 {
      ToNatShift(x[1..], k - 1);
      assert x[1..][k - 1..] == x[k..];
      DivTwice(ToNat(x), Pow2(k - 1));
    } else {
      assert x[k..] == x;
    }
  }

  function XorShiftNat(w: nat, x: nat, s: nat): nat {
    ToNat(XorShiftRight(FromNat(x, w), s))
  }

  function UnxorshiftNat(w: nat, x: nat, s: nat): nat
    requires 1 <= s
  {
    ToNat(Unxorshift(FromNat(x, w), w, s))
  }

  /** On numbers: the two are inverse bijections of the w-bit words. */
  lemma XorShiftBijection(w: nat, x: nat, s: nat)
    requires 1 <= s && x < Pow2(w)
    ensures XorShiftNat(w, x, s) < Pow2(w) && UnxorshiftNat(w, x, s) < Pow2(w)
    ensures UnxorshiftNat(w, XorShiftNat(w, x, s), s) == x
    ensures XorShiftNat(w, UnxorshiftNat(w, x, s), s) == x
  {
    var b := FromNat(x, w);
    NatRoundTrip(x, w);
    ToNatBound(XorShiftRight(b, s));
    ToNatBound(Unxorshift(b, w, s));
    WordRoundTrip(XorShiftRight(b, s));
    WordRoundTrip(Unxorshift(b, w, s));
    UnxorshiftInverts(b, w, s);
    UnxorshiftIsInverted(b, w, s);
  }

  /** A shift by at least `k` leaves the `k` top bits alone. */
  lemma TopBitsKept(w: nat, x: nat, s: nat, k: nat)
    requires 1 <= k <= s && k <= w && x < Pow2(w)
    ensures XorShiftNat(w, x, s) / Pow2(w - k) == x / Pow2(w - k)
  {
    var b := FromNat(x, w);
    var y := XorShiftRight(b, s);
    NatRoundTrip(x, w);
    ToNatShift(b, w - k);
    ToNatShift(y, w - k);
    assert y[w - k..] == b[w - k..];
  }

  // ---------------------------------------------------------------- output and unoutput

  predicate IsWordSize(w: nat) {
    w == 8 || w == 16 || w == 32 || w == 64 || w == 128
  }

  function McgMultiplier(w: nat): nat
    requires IsWordSize(w)
  {
    if w == 8 then 217 else if w == 16 then 62169 else if w == 32 then 277803737
    else if w == 64 then 12605985483714917081
    else 17766728186571221404 * 0x1_0000_0000_0000_0000 + 12605985483714917081
  }

  function McgUnmultiplier(w: nat): nat
    requires IsWordSize(w)
  {
    if w == 8 then 105 else if w == 16 then 28009 else if w == 32 then 2897767785
    else if w == 64 then 15009553638781119849
    else 14422606686972528997 * 0x1_0000_0000_0000_0000 + 15009553638781119849
  }

  function OpBits(w: nat): nat {
    if w >= 128 then 6 else if w >= 64 then 5 else if w >= 32 then 4 else if w >= 16 then 3 else 2
  }

  /** The shift taken from the top bits of the word. */
  function RandomShift(w: nat, x: nat): nat
    requires IsWordSize(w)
  {
    OpBits(w) + (x / Pow2(w - OpBits(w))) % Pow2(OpBits(w))
  }

  function Output(w: nat, x: nat): nat
    requires IsWordSize(w)
  {
    var a := XorShiftNat(w, x, RandomShift(w, x));
    var b := (a * McgMultiplier(w)) % Pow2(w);
    XorShiftNat(w, b, (2 * w + 2) / 3)
  }

  function Unoutput(w: nat, y: nat): nat
    requires IsWordSize(w)
  {
    var b := UnxorshiftNat(w, y, (2 * w + 2) / 3);
    var a := (b * McgUnmultiplier(w)) % Pow2(w);
    UnxorshiftNat(w, a, RandomShift(w, a))
  }

  lemma MultipliersInverse(w: nat)
    requires IsWordSize(w)
    ensures (McgMultiplier(w) * McgUnmultiplier(w)) % Pow2(w) == 1
  {
    hide Pow2;
    Pow2Words();
  }

  lemma MultiplyRoundTrip(a: nat, m: nat, u: nat, n: nat)
    requires a < n && (m * u) % n == 1
    ensures (((a * m) % n) * u) % n == a
  {
    ModMul(a * m, u, n);
    ModMod(a * m, n);
    ModMul((a * m) % n, u, n);
    MulAssociative(a, m, u);
    ModMul(a, m * u, n);
    ModSmall(a, n);
  }

  /** The output permutation loses nothing: `unoutput` recovers the state. */
  lemma UnoutputInverts(w: nat, x: nat)
    requires IsWordSize(w) && x < Pow2(w)
    ensures Output(w, x) < Pow2(w)
    ensures Unoutput(w, Output(w, x)) == x
  {
    hide Pow2, XorShiftNat, UnxorshiftNat, McgMultiplier, McgUnmultiplier;
    var n, s := Pow2(w), RandomShift(w, x);
    var a := XorShiftNat(w, x, s);
    var b := (a * McgMultiplier(w)) % n;
    XorShiftBijection(w, x, s);
    XorShiftBijection(w, b, (2 * w + 2) / 3);
    MultipliersInverse(w);
    MultiplyRoundTrip(a, McgMultiplier(w), McgUnmultiplier(w), n);
    TopBitsKept(w, x, s, OpBits(w));
  }

  /** And every output word is reached: the map is a permutation of the w-bit words. */
  lemma OutputOfUnoutput(w: nat, y: nat)
    requires IsWordSize(w) && y < Pow2(w)
    ensures Unoutput(w, y) < Pow2(w)
    ensures Output(w, Unoutput(w, y)) == y
  {
    hide Pow2, XorShiftNat, UnxorshiftNat, McgMultiplier, McgUnmultiplier;
    var n, t := Pow2(w), (2 * w + 2) / 3;
    var b := UnxorshiftNat(w, y, t);
    XorShiftBijection(w, y, t);
    var a := (b * McgUnmultiplier(w)) % n;
    var s := RandomShift(w, a);
    XorShiftBijection(w, a, s);
    TopBitsKept(w, UnxorshiftNat(w, a, s), s, OpBits(w));
    MultipliersInverse(w);
    assert McgMultiplier(w) * McgUnmultiplier(w) == McgUnmultiplier(w) * McgMultiplier(w);
    MultiplyRoundTrip(b, McgUnmultiplier(w), McgMultiplier(w), n);
  }
}
