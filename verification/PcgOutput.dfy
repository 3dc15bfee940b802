/** The output permutation of the generators bit by bit, and how often each of its shifts is taken. */
module PcgOutput {
  import opened Arith
  import Counting
  import opened XorShift

  // ---------------------------------------------------------------- the bits of words

  lemma {:induction false} FromNatBit(n: nat, w: nat, i: nat)
    requires i < w
    ensures FromNat(n, w)[i] == Bit(n, i)
    decreases w
  {
    hide Pow2, Bit;
    if i == 0 {
      LowestBit(n);
    } else {
      FromNatBit(n / 2, w - 1, i - 1);
      BitOfHalf(n, i);
    }
  }

  lemma ToNatBit(x: Word, i: nat)
    requires i < |x|
    ensures Bit(ToNat(x), i) == x[i]
  {
    hide Bit, ToNat, FromNat;
    WordRoundTrip(x);
    FromNatBit(ToNat(x), |x|, i);
  }

  /** `x ^ (x >> s)` on every bit. */
  lemma XorShiftBit(w: nat, x: nat, s: nat, i: nat)
    requires x < Pow2(w) && i < w
    ensures Bit(XorShiftNat(w, x, s), i) == (Bit(x, i) != Bit(x, i + s))
  {
    hide Bit, ToNat, FromNat, Pow2;
    ToNatBit(XorShiftRight(FromNat(x, w), s), i);
    FromNatBit(x, w, i);
    if i + s < w {
      FromNatBit(x, w, i + s);
    } else {
      NoHighBit(x, w, i + s);
    }
  }

  // ---------------------------------------------------------------- the shift

  /** There are half as many shifts as bits. */
  lemma ShiftCount(w: nat)
    requires IsWordSize(w)
    ensures 2 * Pow2(OpBits(w)) == w && OpBits(w) < w
  {
    Pow2Words();
    assert Pow2(2) == 4 && Pow2(3) == 8 && Pow2(4) == 16 && Pow2(5) == 32 && Pow2(6) == 64;
  }

  /** The top bits `t` select the shift. */
  lemma ShiftOfTop(w: nat, t: nat, r: nat, x: nat)
    requires IsWordSize(w) && OpBits(w) < w && t < Pow2(OpBits(w)) && r < Pow2(w - OpBits(w))
    requires x == t * Pow2(w - OpBits(w)) + r
    ensures RandomShift(w, x) == OpBits(w) + t
  {
    hide Pow2, OpBits;
    DivModUnique(x, Pow2(w - OpBits(w)), t, r);
    ModSmall(t, Pow2(OpBits(w)));
  }

  lemma WordOfParts(w: nat, t: nat, r: nat, x: int)
    requires IsWordSize(w) && OpBits(w) < w && t < Pow2(OpBits(w)) && r < Pow2(w - OpBits(w))
    requires x == t * Pow2(w - OpBits(w)) + r
    ensures 0 <= x < Pow2(w)
  {
    hide Pow2, OpBits;
    Pow2Add(OpBits(w), w - OpBits(w));
    MulMonotone(0, t, Pow2(w - OpBits(w)));
    MulMonotone(t + 1, Pow2(OpBits(w)), Pow2(w - OpBits(w)));
    assert (t + 1) * Pow2(w - OpBits(w)) == t * Pow2(w - OpBits(w)) + Pow2(w - OpBits(w));
  }

  lemma PartsOfWord(w: nat, x: nat) returns (t: nat, r: nat)
    requires IsWordSize(w) && x < Pow2(w)
    ensures t < Pow2(OpBits(w)) && r < Pow2(w - OpBits(w)) && x == t * Pow2(w - OpBits(w)) + r && r == x % Pow2(w - OpBits(w))
  {
    hide Pow2;
    ShiftCount(w);
    Pow2Add(OpBits(w), w - OpBits(w));
    var q, m := DivIdentity(x, Pow2(w - OpBits(w)));
    QuotientBelow(x, q, m, Pow2(w - OpBits(w)), Pow2(OpBits(w)));
    t, r := q, m;
  }

  function Placed(t: nat, r: nat, p: nat): nat {
    t * p + r
  }

  ghost function StatesWithShift(w: nat, shift: nat): set<nat>
    requires IsWordSize(w)
  {
    set x | x in Counting.Below(Pow2(w)) && RandomShift(w, x) == shift
  }

  /** Each of the `w / 2` shifts from `OpBits(w)` on is taken by equally many states, and no other is taken. */
  lemma ShiftLoad(w: nat, shift: nat)
    requires IsWordSize(w)
    ensures OpBits(w) < w && |StatesWithShift(w, shift)| == if OpBits(w) <= shift < OpBits(w) + w / 2 then Pow2(w - OpBits(w)) else 0
  {
    hide Pow2, Counting.Below, RandomShift, OpBits;
    ShiftCount(w);
    var p, t := Pow2(w - OpBits(w)), shift - OpBits(w);
    forall x | x in StatesWithShift(w, shift)
      ensures 0 <= t < Pow2(OpBits(w)) && x == Placed(t, x % p, p) && x % p in Counting.Below(p)
    {
      var u, r := PartsOfWord(w, x);
      ShiftOfTop(w, u, r, x);
    }
    if 0 <= t < Pow2(OpBits(w)) {
      ShiftClass(w, shift, t, p);
    } else {
      assert StatesWithShift(w, shift) == {};
    }
  }

  lemma ShiftClass(w: nat, shift: nat, t: nat, p: nat)
    requires IsWordSize(w) && OpBits(w) < w && p == Pow2(w - OpBits(w)) && t < Pow2(OpBits(w)) && shift == OpBits(w) + t
    requires forall x :: x in StatesWithShift(w, shift) ==> x == Placed(t, x % p, p) && x % p in Counting.Below(p)
    ensures |StatesWithShift(w, shift)| == p
  {
    hide Pow2, Counting.Below, RandomShift, OpBits;
    var f: nat -> nat := x => x % p;
    var g: nat -> nat := r => Placed(t, r, p);
    forall r | r in Counting.Below(p)
      ensures g(r) in StatesWithShift(w, shift) && f(g(r)) == r
    {
      WordOfParts(w, t, r, Placed(t, r, p));
      ShiftOfTop(w, t, r, Placed(t, r, p));
      DivModUnique(Placed(t, r, p), p, t, r);
    }
    Counting.InverseSize<nat, nat>(StatesWithShift(w, shift), Counting.Below(p), f, g);
    Counting.BelowSize(p);
  }

  // ---------------------------------------------------------------- the output

  lemma MultiplierLiterals(w: nat)
    requires IsWordSize(w)
    ensures w == 8 ==> McgMultiplier(w) == 217 && Pow2(w) == 0x100
    ensures w == 16 ==> McgMultiplier(w) == 62169 && Pow2(w) == 0x1_0000
    ensures w == 32 ==> McgMultiplier(w) == 277803737 && Pow2(w) == 0x1_0000_0000
    ensures w == 64 ==> McgMultiplier(w) == 12605985483714917081 && Pow2(w) == 0x1_0000_0000_0000_0000
    ensures w == 128 ==> McgMultiplier(w) == 327738287884841127335028083622016905945
  {
    Pow2Words();
  }

  /** The output of a state with top bits `t` and rest `r`: each bit is combined with the one `OpBits(w) + t` places
      up, the word is multiplied, and each bit of the product is combined with the one two thirds of the width up. */
  lemma OutputBits(w: nat, t: nat, r: nat, x: nat) returns (a: nat, b: nat)
    requires IsWordSize(w) && t < Pow2(OpBits(w)) && OpBits(w) < w && r < Pow2(w - OpBits(w)) && x == t * Pow2(w - OpBits(w)) + r
    ensures x < Pow2(w) && a < Pow2(w) && Output(w, x) < Pow2(w)
    ensures forall i: nat :: i < w ==> Bit(a, i) == (Bit(x, i) != Bit(x, i + OpBits(w) + t))
    ensures b == (a * McgMultiplier(w)) % Pow2(w)
    ensures forall i: nat :: i < w ==> Bit(Output(w, x), i) == (Bit(b, i) != Bit(b, i + (2 * w + 2) / 3))
    ensures a == (UnxorshiftNat(w, Output(w, x), (2 * w + 2) / 3) * McgUnmultiplier(w)) % Pow2(w)
  {
    hide Pow2, OpBits, XorShiftNat, UnxorshiftNat, McgMultiplier, McgUnmultiplier, RandomShift, Bit, IsWordSize;
    WordOfParts(w, t, r, x);
    ShiftOfTop(w, t, r, x);
    a := XorShiftNat(w, x, OpBits(w) + t);
    b := (a * McgMultiplier(w)) % Pow2(w);
    PositiveShifts(w);
    XorShiftBijection(w, x, OpBits(w) + t);
    XorShiftBijection(w, b, (2 * w + 2) / 3);
    forall i: nat | i < w
      ensures Bit(a, i) == (Bit(x, i) != Bit(x, i + OpBits(w) + t))
      ensures Bit(Output(w, x), i) == (Bit(b, i) != Bit(b, i + (2 * w + 2) / 3))
    {
      XorShiftBit(w, x, OpBits(w) + t, i);
      XorShiftBit(w, b, (2 * w + 2) / 3, i);
    }
    MultipliersInverse(w);
    MultiplyRoundTrip(a, McgMultiplier(w), McgUnmultiplier(w), Pow2(w));
  }

  lemma PositiveShifts(w: nat)
    requires IsWordSize(w)
    ensures 1 <= OpBits(w) && 1 <= (2 * w + 2) / 3
  {
  }
}
