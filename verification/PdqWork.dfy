/** How much work the sorting loop may do: the total length of the ranges it partitions. */
module PdqWork {
  import opened Arith

  /** The longest part of a partition of `size` elements that is not highly unbalanced. */
  function LongestPart(size: nat): nat
    requires size >= 24
  {
    size - 1 - size / 8
  }

  /** How many such partitions follow one another before a part is short enough for insertion sort. */
  function Depth(size: nat): nat {
    if size < 24 then 0 else 1 + Depth(LongestPart(size))
  }

  lemma {:induction false} DepthMonotone(x: nat, y: nat)
    requires x <= y
    ensures Depth(x) <= Depth(y)
    decreases y
  {
    if 24 <= x < y {
      DepthMonotone(LongestPart(x), LongestPart(y));
    }
  }

  /** Six partitions at least halve the length. */
  lemma DepthHalves(size: nat)
    ensures Depth(size) <= 6 + Depth(size / 2)
  {
    hide Depth;
    var x1 := NextPart(size);
    var x2 := NextPart(x1);
    var x3 := NextPart(x2);
    var x4 := NextPart(x3);
    var x5 := NextPart(x4);
    var x6 := NextPart(x5);
    DepthMonotone(x6, size / 2);
  }

  lemma NextPart(x: nat) returns (y: nat)
    ensures 8 * y <= 7 * x && Depth(x) <= 1 + Depth(y)
  {
    y := if x >= 24 then LongestPart(x) else 0;
  }

  lemma {:induction false} DepthBound(size: nat, log: nat)
    requires size < Pow2(log + 1)
    ensures Depth(size) <= 6 * log
    decreases log
  {
    if log > 0 {
      DepthBound(size / 2, log - 1);
      DepthHalves(size);
    }
  }

  /** What may still be spent on `size` elements with `bad` unbalanced partitions to go; less by one pass if the element
      before the range is smaller than all of it, so that no pass is spent on setting equal elements aside. */
  function Budget(size: nat, bad: nat, strict: bool): nat {
    if size < 24 then 0 else size * (2 * (Depth(size) + bad) - (if strict then 1 else 0))
  }

  lemma BudgetAtMost(size: nat, bad: nat, d: nat)
    requires Depth(size) <= d
    ensures Budget(size, bad, false) <= size * (2 * (d + bad))
  {
    MulMonotone(2 * (Depth(size) + bad), 2 * (d + bad), size);
  }

  /** A partition into two parts pays for itself and for both parts. */
  lemma SplitBudget(size: nat, bad: nat, left: nat, right: nat, nextBad: nat, strict: bool)
    requires size >= 24 && left + right + 1 == size && 1 <= nextBad
    requires (left >= size / 8 && right >= size / 8 && nextBad == bad) || nextBad + 1 == bad
    ensures size + Budget(left, nextBad, false) + Budget(right, nextBad, false) <= Budget(size, bad, strict)
  {
    hide Depth;
    DepthStep(size);
    var d := if nextBad == bad then Depth(size) - 1 else Depth(size);
    if nextBad == bad {
      DepthMonotone(left, LongestPart(size));
      DepthMonotone(right, LongestPart(size));
    } else {
      DepthMonotone(left, size);
      DepthMonotone(right, size);
    }
    BudgetAtMost(left, nextBad, d);
    BudgetAtMost(right, nextBad, d);
    var x := 2 * (d + nextBad);
    SplitAlgebra(left, right, size, x);
  }

  lemma DepthStep(size: nat)
    requires size >= 24
    ensures Depth(size) == 1 + Depth(LongestPart(size))
  {
  }

  lemma SplitAlgebra(left: nat, right: nat, size: nat, x: nat)
    requires left + right + 1 == size
    ensures size + left * x + right * x <= size * (x + 2 - 1) <= size * (x + 2)
  {
    assert left * x + right * x == (left + right) * x;
    assert size * x == (left + right) * x + x;
    assert size * (x + 1) == size * x + size && size * (x + 2) == size * x + 2 * size;
  }

  /** Setting equal elements aside pays for itself and for the rest, above which nothing equal is left. */
  lemma SkipBudget(size: nat, bad: nat, rest: nat)
    requires size >= 24 && rest < size && bad >= 1
    ensures size + Budget(rest, bad, true) <= Budget(size, bad, false)
  {
    hide Depth;
    if rest >= 24 {
      DepthMonotone(rest, size);
      var x, y := 2 * (Depth(rest) + bad) - 1, 2 * (Depth(size) + bad) - 1;
      MulMonotone(x, y, rest);
      MulMonotone(rest, size, y);
      assert size * (y + 1) == size * y + size;
    } else {
      MulMonotone(1, 2 * (Depth(size) + bad), size);
    }
  }

  /** Giving up on partitioning is paid for by the last pass. */
  lemma LastPass(size: nat, bad: nat, strict: bool)
    requires size >= 24 && bad >= 1
    ensures size <= Budget(size, bad, strict)
  {
    MulMonotone(1, 2 * (Depth(size) + bad) - (if strict then 1 else 0), size);
  }

  /** With as many unbalanced partitions allowed as the length has binary digits less one. */
  lemma WorkBound(size: nat, bad: nat, log: nat)
    requires Pow2(bad) <= size < Pow2(log + 1)
    ensures Budget(size, bad, false) <= size * (14 * log)
  {
    hide Depth, Budget;
    if log < bad {
      Pow2Monotone(log + 1, bad);
    }
    DepthBound(size, log);
    BudgetAtMost(size, bad, 6 * log);
    MulMonotone(2 * (6 * log + bad), 14 * log, size);
  }
}
