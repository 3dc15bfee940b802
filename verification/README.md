# Verified model of the base library's algorithmic cores

This project models, in Dafny, the parts of the streaming database's base library whose correctness is not
evident from reading one function, and proves what they promise for every input, every run or every reachable
state:

- **Sorting** (`Ordering`, `InsertionSort`, `HeapSort`, `Partition`, `BlockPartition`, `PdqPivot`, `PdqWork`,
  `PdqPattern`, `PdqSort`): pattern-defeating quicksort in place on an array, for any strict weak order, with its
  unguarded scans, the block partition with offset buffers, a bound on its passes, and the variant that may give up
  with the exact reasons for which it does.
- **Random number engine** (`Pcg`, `XorShift`, `PcgOutput`): jump-ahead, jump-back and discrete distance of a linear congruential
  generator modulo a power of two, its exact period, and its output permutation,
  inverse and bit by bit.
- **Wide integers** (`WideInteger`, `WideShift`, `WideMultiply`, `WideDivide`, `WideSigned`): limb arithmetic refined to
  integer arithmetic modulo 2^Bits, division that truncates toward zero, comparison.
- **Decimal text** (`Decimal`, `Itoa`, `WideText`): every integer written as its canonical digits, and read back;
  hexadecimal literals read.
- **Consistent hashing** (`ConsistentHashing`, `Counting`, `HashBalance`, `HashParts`, `HashLoads`, `HashExact`,
  `HashEntry`, `HashBits`): range, minimal movement, exact balance at powers of two, and for every number of buckets the exact load
  of every bucket, its distance from an equal share, and the exact number of keys that move.
- **Floats against integers** (`DecomposedFloat`): an exact comparison on the binary encodings of IEEE 754.
- **Object pool** (`ObjectPool`): the critical sections as a class, and all interleavings of clients as a transition
  system with waiters and notifications in flight.
- **JSON skipping** (`Json`, `JsonSkip`, `JsonExact`, `JsonLoose`): exact on valid JSON, and on any text the grammar it
  really accepts; and **byte equality** (`MemEqual`).

Code that updates an array, a buffer or an object is modelled as methods on arrays and classes, and each method is
tied to a specification: a property stated outright, or a function whose properties are proved as lemmas. Machine
words are natural numbers with every reduction modulo a power of two written out. `Arith` holds the arithmetic of
quotients, remainders, powers of two and bitwise operations that the other modules share.

Seven promises turn out not to hold as stated. Each has a concrete counterexample and an exact condition:

- Equal probability of all buckets (`consistent_hashing.h`) holds exactly if and only if the number of buckets is a
  power of two (`HashBalance.BalancedExactly`). Otherwise every load is within a proved distance of an equal share
  (`HashLoads.LoadBound`), which is small for few buckets. Near the promised 32768 buckets the left-over bits run out:
  of 24576 buckets one holds 129 times as many keys as another (`HashEntry.UnequalLoads64`).
- Moving exactly the fraction (n2 - n1) / n2 of the keys (`consistent_hashing.h`) holds when n2 is a power of two
  (`HashBalance.MovedFraction`), and for n1 up to the largest smaller power of two only then
  (`HashLoads.MovedExactly`, `HashLoads.OneToThree`). For all n1 and n2 `HashExact.MovedCount` gives the number of keys
  that move in closed form, `HashLoads.MovedBound` bounds the error, and the fraction is missed unless the odd part of
  n2 divides n1 (`HashExact.MovedOddPart`).
- "Infinities are compared correctly" (`DecomposedFloat.h`) holds if and only if the integer is of another sign or
  smaller in magnitude than 2^2^(exponent bits - 1) (`DecomposedFloat.InfinityExactly`, `InfinityEquals`);
  a NaN is treated like the infinity of its sign under the corresponding condition (`DecomposedFloat.NaNExactly`).
- A client of the pool waits only while the pool is full, unless an object is removed, or the pool cleared, under
  blocked clients (`ObjectPool.RunFullWhileBlocked`, `ObjectPool.StrandedWaiter`).
- The quotient of wide signed integers is the truncated quotient except for the minimum divided by -1
  (`WideSigned.QuotientMeaning`, `WideSigned.MinimumOverMinusOne`).
- Wide division refuses a zero divisor if and only if the width is not 128 bits; there the native division comes
  before the test (`WideDivide.Divide`, `WideSigned.NativeByZero`).
- size() of a valid JSON array or object is its number of members if and only if its members, or for an empty one the
  end marker, are within the depth limit (`JsonExact.SizeExact`, `JsonExact.EmptyAtTheLimit`).

To verify: `dafny verify dfyconfig.toml`.

## Model

| member | source | states |
|---|---|---|
| `Ordering.StrictWeakOrderIsStandard` | contrib/pdqsort/pdqsort.h:78-98 | The comparator law used everywhere is the usual strict weak order: irreflexive, transitive, with transitive incomparability, both directions. |
| `InsertionSort.InsertionSort` | contrib/pdqsort/pdqsort.h:78-98 | The range becomes sorted and a permutation of what it was; nothing outside it changes. |
| `InsertionSort.UnguardedInsertionSort` | contrib/pdqsort/pdqsort.h:101-120 | The same without a bounds check, in bounds because the element before the range is not greater than any in it. |
| `InsertionSort.PartialInsertionSort` | contrib/pdqsort/pdqsort.h:125-150 | Always a permutation; succeeds, with a sorted range, exactly when the input has at most eight inversions. |
| `InsertionSort.SiftCountsInversions` | contrib/pdqsort/pdqsort.h:132-146 | The distance one element travels is the number of inversions it closes. |
| `HeapSort.MakeHeap` | contrib/pdqsort/pdqsort.h:463-467 | Stands for std::make_heap: a heap over the range and a permutation. |
| `HeapSort.SortHeap` | contrib/pdqsort/pdqsort.h:463-467 | Stands for std::sort_heap: from a heap to a sorted permutation. |
| `Partition.PartitionRight` | contrib/pdqsort/pdqsort.h:343-380 | Smaller elements left of the returned pivot, the others right of it, a permutation, and `already partitioned` exactly when the input was; both opening scans stay in bounds. |
| `Partition.PartitionLeft` | contrib/pdqsort/pdqsort.h:387-410 | Elements not greater than the pivot left of it, greater ones right of it, a permutation. |
| `BlockPartition.FillLeft` | contrib/pdqsort/pdqsort.h:240-253 | The offsets of exactly the misplaced elements of a left block, increasing and below the block size. |
| `BlockPartition.FillRight` | contrib/pdqsort/pdqsort.h:254-267 | The same for a right block, counted from its end. |
| `BlockPartition.SwapPairs` | contrib/pdqsort/pdqsort.h:181-186 | Pairwise swaps put every misplaced element on its side. |
| `BlockPartition.SwapCycle` | contrib/pdqsort/pdqsort.h:187-195 | The cyclic permutation with one temporary does so too, and is a permutation of the array. |
| `BlockPartition.SwapOffsets` | contrib/pdqsort/pdqsort.h:177-196 | Either way of exchanging offsets leaves each listed position holding an element of the right side. |
| `BlockPartition.ExchangeBlocks` | contrib/pdqsort/pdqsort.h:238-277 | Full blocks: the sides stay partitioned, offset indices stay below the block size, and what is left is at most two blocks with one offset list empty. |
| `BlockPartition.Refill` | contrib/pdqsort/pdqsort.h:239-267 | Whatever was left over, both buffers then list exactly the misplaced elements of their blocks. |
| `BlockPartition.ExchangeRound` | contrib/pdqsort/pdqsort.h:239-276 | One turn of that loop: the unknown part shrinks, the sides stay partitioned, and at most one buffer keeps offsets, which describe its whole block. |
| `BlockPartition.FinishBlocks` | contrib/pdqsort/pdqsort.h:279-327 | Leftover blocks, also when `last - first` is -1 and C's division truncates toward zero: everything ends on its side. |
| `BlockPartition.PartitionRightBranchless` | contrib/pdqsort/pdqsort.h:204-335 | The contract of PartitionRight, word for word. |
| `PdqPivot.Sort2` | contrib/pdqsort/pdqsort.h:153-155 | Two positions are exchanged exactly when the second element is smaller. |
| `PdqPivot.Sort3` | contrib/pdqsort/pdqsort.h:159-163 | Three positions in order, a permutation. |
| `PdqPivot.ChoosePivot` | contrib/pdqsort/pdqsort.h:428-436 | Median of three or of nine: afterwards the range holds elements that stop both opening scans of either partition. |
| `PdqPivot.PivotOfThree` | contrib/pdqsort/pdqsort.h:436 | In a range of up to 128 elements the pivot is the median of the first, the middle and the last element. |
| `PdqPivot.PivotOfNine` | contrib/pdqsort/pdqsort.h:430-435 | In a longer one it is the median of the medians of the ends and the middle and of their neighbours. |
| `PdqSort.SkipEqual` | contrib/pdqsort/pdqsort.h:438-446 | Elements equal to the one before the range are put aside for good and the loop's state is kept. |
| `PdqSort.BreakPatterns` | contrib/pdqsort/pdqsort.h:469-491 | The pattern-breaking swaps stay on their side of the pivot: the partition survives them. |
| `PdqSort.PdqsortLoop` | contrib/pdqsort/pdqsort.h:414-505 | Terminates with a sorted permutation for every array and strict weak order, with every unguarded scan in bounds because a range that is not leftmost is bounded from below by the element before it; the ranges partitioned stay within a budget and those heapsorted add up to no more than the length. |
| `PdqWork.SplitBudget` | contrib/pdqsort/pdqsort.h:455-504 | A partition, balanced or one of the bad ones allowed, pays for itself and for both parts. |
| `PdqWork.SkipBudget` | contrib/pdqsort/pdqsort.h:438-446 | So does setting equal elements aside, which cannot happen twice in a row. |
| `PdqWork.WorkBound` | contrib/pdqsort/pdqsort.h:462-467 | With log2 n bad partitions allowed the budget is at most 14 n log2 n. |
| `PdqSort.TrySortLoop` | contrib/pdqsort/pdqsort.h:508-630 | Always a permutation; true only when sorted; once sorting is forced never false; the count of bad partitions never underflows; unforced, the answer is the verdict of its passes. |
| `PdqSort.Log2` | contrib/pdqsort/pdqsort.h:70-75 | The floor of the binary logarithm. |
| `PdqSort.EnoughBadPartitions` | contrib/pdqsort/pdqsort.h:508-630 | A range long enough to be partitioned starts with a positive count of allowed bad partitions. |
| `PdqSort.Pdqsort` | contrib/pdqsort/pdqsort.h:671-683 | The entry point sorts; the ranges it partitions add up to no more than 14 n log2 n. |
| `PdqSort.TrySortImpl` | contrib/pdqsort/pdqsort.h:633-666 | A permutation, true only when sorted; a range of more than 160 elements with more than three turns among its samples is refused untouched, any other gets the verdict of at most three passes. |
| `PdqSort.SampleRefuses` | contrib/pdqsort/pdqsort.h:643-662 | The sampling reads only inside the range and refuses exactly such ranges. |
| `PdqSort.PdqsortTrySort` | contrib/pdqsort/pdqsort.h:705-717 | The entry point that may give up: a permutation, true only when sorted, untouched when the samples turn too often, otherwise the verdict of at most three passes. |
| `PdqPattern.VerdictExactly` | contrib/pdqsort/pdqsort.h:508-630 | A verdict is no if and only if the last split leaves less than an eighth on a side, or all passes allowed are used up without one that found its range partitioned and nearly sorted; all splits before it are balanced. |
| `PdqPattern.SplitCount` | contrib/pdqsort/pdqsort.h:552-563 | The sides of a split are the elements smaller than the pivot and the others, so their sizes are counts of the input. |
| `PdqPattern.MediumExactly` | contrib/pdqsort/pdqsort.h:508-630 | From 24 to 27 elements the answer is yes if and only if an eighth is smaller than the median of first, middle and last, and an eighth of the others is not. |
| `PdqPattern.UnbalancedRefused` | contrib/pdqsort/pdqsort.h:566-569 | Any longer range whose own pivot leaves less than an eighth on a side is refused. |
| `PdqPattern.ShortAccepted` | contrib/pdqsort/pdqsort.h:526-531 | Fewer than 24 elements are always sorted. |
| `PdqPattern.AscendingAccepted` | contrib/pdqsort/pdqsort.h:508-630 | A strictly increasing range never is refused. |
| `PdqPattern.AllEqualRefused` | contrib/pdqsort/pdqsort.h:566-569 | A range of at least 24 equal elements always is, although it is sorted. |
| `PdqSort.TrySortAnswer` | contrib/pdqsort/pdqsort.h:705-717 | The same five statements for the entry point. |
| `PdqSort.SampledPlaces` | contrib/pdqsort/pdqsort.h:643-662 | Of 176 elements the samples see a peak at either end of an eleven, and none in between. |
| `PdqSort.TryFinish` | contrib/pdqsort/pdqsort.h:493-497 | The bounded insertion sorts succeed, with a sorted range, if and only if each side has at most eight inversions. |
| `PdqPattern.AscendingPass` | contrib/pdqsort/pdqsort.h:552-608 | The first pass over a strictly increasing range splits it in the middle and finds nothing to move on either side. |
| `PdqPattern.AscendingPlaced` | contrib/pdqsort/pdqsort.h:541-555 | With the middle element as the pivot the partition leaves a strictly increasing range as it was, the pivot in the middle. |
| `PdqPattern.AllEqualSplit` | contrib/pdqsort/pdqsort.h:552-569 | Equal elements all go to one side, which is what the test for a bad partition refuses. |
| `PdqSort.AscendingNotRefused` | contrib/pdqsort/pdqsort.h:643-662 | The samples of a strictly increasing range never turn. |
| `Pcg.AdvanceState` | base/pcg-random/pcg_random.hpp:631-660 | Doubling jump-ahead equals stepping `delta` times, for every multiplier, increment, state and `delta`. |
| `Pcg.Generator.StepsAffine` | base/pcg-random/pcg_random.hpp:405-408 | Any number of steps is one affine map modulo 2^w. |
| `Pcg.PeriodReturns` | base/pcg-random/pcg_random.hpp:454-457 | After a multiple of the period every state returns. |
| `Pcg.FullPeriod` | base/pcg-random/pcg_random.hpp:662-683 | A state returns after `d` steps exactly when the period divides `d`: 2^w for additive, 2^(w-2) for multiplicative generators. |
| `Pcg.ForwardAndBack` | base/pcg-random/pcg_random.hpp:449-457 | Stepping `delta` and then `-delta` modulo 2^w, in either order, is the identity. |
| `Pcg.DistanceOf` | base/pcg-random/pcg_random.hpp:662-683 | At most one round for each bit that can change, its assertion holds each round, and stepping the returned distance reaches the target under the mask; for a mask of low bits it is below their period and the only such count. |
| `Pcg.DistanceExact` | base/pcg-random/pcg_random.hpp:662-683 | Under a mask of low bits exactly one count below their period fits. |
| `Pcg.Engine.constructor` | base/pcg-random/pcg_random.hpp:476-481 | A seeded engine is in a valid state, also a multiplicative one whose low bits are fixed. |
| `Pcg.Engine.Advance` | base/pcg-random/pcg_random.hpp:449-452 | The state moves by `delta` steps. |
| `Pcg.Engine.Backstep` | base/pcg-random/pcg_random.hpp:454-457 | Stepping `delta` from the new state gives the old one. |
| `Pcg.Engine.Wrapped` | base/pcg-random/pcg_random.hpp:464-474 | A run from the marked state tests true exactly when its length is a multiple of the period. |
| `Pcg.Engine.Distance` | base/pcg-random/pcg_random.hpp:443-446 | The unique number of steps below the period to the given state. |
| `Pcg.SeedIsState` | base/pcg-random/pcg_random.hpp:476-481 | Seeding maps every seed to a state of the generator. |
| `Pcg.StreamIncrementOdd` | base/pcg-random/pcg_random.hpp:326-329 | The increment of stream s is 2s + 1 modulo 2^w: odd, and it fits the word. |
| `Pcg.StreamsDistinct` | base/pcg-random/pcg_random.hpp:326-329 | The 2^(w - 1) streams have distinct increments. |
| `Pcg.ShippedGeneratorsValid` | base/pcg-random/pcg_random.hpp:154-170 | The shipped constants meet the conditions of the theorems at all five widths. |
| `XorShift.UnxorshiftInverts` | base/pcg-random/pcg_extras.hpp:261-279 | The recursion undoes `x ^ (x >> shift)` for every width and every shift of at least one. |
| `XorShift.UnxorshiftIsInverted` | base/pcg-random/pcg_extras.hpp:261-279 | And is undone by it. |
| `XorShift.XorShiftBijection` | base/pcg-random/pcg_extras.hpp:261-279 | Both on numbers below 2^w: a bijection. |
| `XorShift.TopBitsKept` | base/pcg-random/pcg_random.hpp:919-957 | A right xorshift keeps the high bits that select the next shift. |
| `XorShift.MultipliersInverse` | base/pcg-random/pcg_random.hpp:899-914 | Each multiplier times its unmultiplier is one modulo 2^w, at all five widths. |
| `XorShift.UnoutputInverts` | base/pcg-random/pcg_random.hpp:919-957 | unoutput(output(s)) is s for every state. |
| `XorShift.OutputOfUnoutput` | base/pcg-random/pcg_random.hpp:919-957 | output(unoutput(y)) is y: the output function is a bijection of the word. |
| `PcgOutput.ShiftLoad` | base/pcg-random/pcg_random.hpp:930-933 | Each of the w / 2 random shifts, from opbits on, is taken by exactly 2^(w - opbits) states, and no other shift is. |
| `PcgOutput.OutputBits` | base/pcg-random/pcg_random.hpp:919-938 | The output bit by bit: every bit of the state with the one opbits plus the top bits further up, the product, every bit of that with the one two thirds up. |
| `PcgOutput.MultiplierLiterals` | base/pcg-random/pcg_random.hpp:919-938 | The multiplier of each word size. |
| `WideInteger.Plus` | base/base/wide_integer_impl.h:480-511 | Limb addition with its carry array is addition modulo 2^Bits. |
| `WideInteger.Minus` | base/base/wide_integer_impl.h:447-478 | Limb subtraction with its borrow array is subtraction modulo 2^Bits. |
| `WideInteger.Greater` | base/base/wide_integer_impl.h:696-719 | The limb loop from the top decides the order of the values. |
| `WideInteger.IsZero` | base/base/wide_integer_impl.h:804-817 | True exactly for zero. |
| `WideInteger.ValueInjective` | base/base/wide_integer_impl.h:746-766 | Equal values of equal width have equal limbs, so comparing limbs decides equality. |
| `WideShift.ShiftLeft` | base/base/wide_integer_impl.h:357-382 | Multiplication by 2^n modulo 2^Bits. |
| `WideShift.ShiftRight` | base/base/wide_integer_impl.h:384-423 | Floor division by 2^n of the signed or unsigned meaning. |
| `WideMultiply.Multiply256` | base/base/wide_integer_impl.h:513-560 | The product of 128-bit halves is the product modulo 2^256. |
| `WideMultiply.MiddleLimbs` | base/base/wide_integer_impl.h:537-556 | The middle column with its two overflow tests: nothing is lost but the carries, which end up in the top limb. |
| `WideMultiply.Multiply128` | base/base/wide_integer_impl.h:561-571 | The compiler's product is the product modulo 2^128. |
| `WideMultiply.MultiplyLimb` | base/base/wide_integer_impl.h:572-613 | One limb of the shift-and-add multiply, steps of seven, three and one bit: adds limb times operand at its position. |
| `WideMultiply.MultiplyGeneric` | base/base/wide_integer_impl.h:572-613 | The shift-and-add multiply is the product modulo 2^Bits at every width. |
| `WideDivide.Normalise` | base/base/wide_integer_impl.h:850-854 | Doubling the denominator loses no bit and stops within a factor of two of the numerator. |
| `WideDivide.DivideByShifts` | base/base/wide_integer_impl.h:844-868 | Refuses exactly a zero denominator; otherwise numerator is quotient times denominator plus remainder, remainder below denominator. |
| `WideDivide.DivideNative` | base/base/wide_integer_impl.h:825-842 | The same at 128 bits, but a zero denominator has no defined outcome. |
| `WideDivide.Divide` | base/base/wide_integer_impl.h:819-869 | Quotient and remainder at every width; a zero denominator is refused if and only if the width is not 128 bits. |
| `WideSigned.MeaningUnique` | base/base/wide_integer_impl.h:180-195 | A two's complement word stands for the one number in range with its residue. |
| `WideSigned.UnaryMinus` | base/base/wide_integer_impl.h:616-629 | Negation modulo 2^Bits. |
| `WideSigned.MakePositive` | base/base/wide_integer_impl.h:198-210 | The magnitude, even of the minimum. |
| `WideSigned.Star` | base/base/wide_integer_impl.h:667-694 | The signed product modulo 2^Bits. |
| `WideSigned.Slash` | base/base/wide_integer_impl.h:871-889 | Division truncating toward zero, modulo 2^Bits; an error exactly for divisor zero at a width other than 128 bits, undefined exactly for divisor zero at 128 bits. |
| `WideSigned.Percent` | base/base/wide_integer_impl.h:891-909 | The remainder with the dividend's sign; error and undefined cases as for the quotient. |
| `WideSigned.NativeByZero` | base/base/wide_integer_impl.h:825-842 | Divisor zero at 128 bits: both operators reach the native division. |
| `WideSigned.TruncIdentity` | base/base/wide_integer_impl.h:871-909 | Truncated quotient and remainder recompose the dividend; the remainder is smaller than the divisor. |
| `WideSigned.DivisionIdentity` | base/base/wide_integer_impl.h:871-909 | (a / b) * b + a % b is a modulo 2^Bits for every dividend and non-zero divisor. |
| `WideSigned.DivideAndRestore` | base/base/wide_integer_impl.h:871-909 | Running division, remainder, product and sum one after the other gives the dividend back, limb by limb, at every width, signed or not. |
| `WideSigned.QuotientMeaning` | base/base/wide_integer_impl.h:871-889 | The quotient word stands for the truncated quotient if and only if it is not the minimum divided by -1. |
| `WideSigned.MinimumOverMinusOne` | base/base/wide_integer_impl.h:871-889 | At every width the words of the minimum and of -1, and that their quotient is the word of the minimum again. |
| `WideSigned.GreaterThan` | base/base/wide_integer_impl.h:696-719 | The order of the signed or unsigned meanings. |
| `WideSigned.LessThan` | base/base/wide_integer_impl.h:721-744 | The same, from below. |
| `Decimal.DigitsUnique` | base/base/itoa.h:160-169 | A digit string without leading zero is the canonical text of its value. |
| `Decimal.ParseDigits` | base/base/itoa.h:160-169 | The canonical text of a number reads back as the number. |
| `Itoa.SplitExact` | base/base/itoa.h:119-127 | Multiply, shift and narrow equal division by 10^N with remainder, for every 16-, 32- and 64-bit value. |
| `Itoa.TableRow` | base/base/itoa.h:137-150 | The table of two-digit texts is right in every entry. |
| `Itoa.OutTwoDigits` | base/base/itoa.h:152-157 | Two digits at the pointer, nothing else changed. |
| `Itoa.Tail` | base/base/itoa.h:202-216 | All 2N digits, leading zeros included. |
| `Itoa.Head` | base/base/itoa.h:180-195 | The canonical digits of values below 10^(2N). |
| `Itoa.HeadSplit` | base/base/itoa.h:171-177 | The same for a value already split. |
| `Itoa.Large` | base/base/itoa.h:223-231 | Values of 2N digits and more, split twice. |
| `Itoa.Uitoa` | base/base/itoa.h:238-264 | Exactly the canonical digits of every unsigned integer of one, two, four or eight bytes; every narrowing loses nothing. |
| `Itoa.MagnitudeIsAbs` | base/base/itoa.h:290-302 | The branch-free expression is the absolute value, even of the minimum. |
| `Itoa.Itoa` | base/base/itoa.h:278-311 | Every signed integer with its sign; the speculative minus sign survives exactly when the number is negative. |
| `Itoa.Digits10Exact` | base/base/itoa.h:314-346 | The comparison tree returns the number of digits, for every number. |
| `Itoa.WriteUIntText` | base/base/itoa.h:348-367 | The backward two-digit loop fills exactly the counted room with the canonical digits. |
| `Itoa.MinimumTextExact` | base/base/itoa.h:383-397 | The two literals are the texts of -2^127 and -2^255. |
| `Itoa.MinimumIsPow2` | base/base/itoa.h:380-381 | The two minima are those powers of two. |
| `Itoa.WriteSIntText` | base/base/itoa.h:375-405 | The canonical text of every 128- and 256-bit signed integer. |
| `WideText.ToString` | base/base/wide_integer_to_string.h:13-36 | The canonical text of the signed or unsigned meaning, at every width. |
| `WideText.FromStr` | base/base/wide_integer_impl.h:931-984 | An error exactly when a character is not a digit of the base; otherwise the denoted number, decimal or hexadecimal, modulo 2^Bits. |
| `WideText.FromHex` | base/base/wide_integer_impl.h:939-964 | The hexadecimal loop. |
| `WideText.FromDecimal` | base/base/wide_integer_impl.h:965-976 | The decimal loop. |
| `WideText.TextDenotes` | base/base/wide_integer_impl.h:931-984 | Canonical decimal text denotes its number, and is never taken for hexadecimal. |
| `WideText.RoundTrip` | base/base/wide_integer_impl.h:931-984 | from_str(to_string(n)) is n: every width, signed and unsigned, the minimum included. |
| `WideText.TextRoundTrip` | base/base/wide_integer_to_string.h:13-36 | to_string(from_str(t)) is t for the canonical text of every number that fits. |
| `WideText.ReadHex` | base/base/wide_integer_impl.h:939-966 | A hexadecimal literal in either case, with 0x or 0X, is its number at every width, with a minus sign the negated number, modulo 2^Bits. |
| `WideText.ValidExactly` | base/base/wide_integer_impl.h:939-979 | Accepted are exactly the texts over the literal digits of their base. |
| `WideText.UnsignedMinus` | base/base/wide_integer_impl.h:935-937 | An unsigned reader refuses a minus sign. |
| `WideText.ReadNothing` | base/base/wide_integer_impl.h:931-984 | A text without digits is zero. |
| `WideText.SameText` | base/base/itoa.h:348-405 | The buffer writers produce the text of to_string. |
| `ConsistentHashing.LargeShape` | contrib/consistent-hashing/consistent_hashing.cpp:56-68 | The block of `c` alone fixes the highest bit of the bucket, `a` or `b` the bits below it. |
| `ConsistentHashing.HalvedScheme` | contrib/consistent-hashing/consistent_hashing.cpp:56-68 | With half as many buckets every bucket below the half stays. |
| `ConsistentHashing.AsteriskBits` | contrib/consistent-hashing/consistent_hashing.cpp:70-81 | The bits the scheme leaves unused stand side by side without overlap, reduced to 64 bits; those of `d` as far as a 32-bit shift keeps them. |
| `ConsistentHashing.InRange` | contrib/consistent-hashing/consistent_hashing.cpp:83-114 | The bucket is below n; an error exactly for n of zero. |
| `ConsistentHashing.OneMoreBucket` | contrib/consistent-hashing/consistent_hashing.cpp:83-114 | From n to n + 1 buckets a key stays or moves to bucket n, also across powers of two. |
| `ConsistentHashing.MinimalMovement` | contrib/consistent-hashing/consistent_hashing.cpp:83-114 | From n1 to n2 buckets a key keeps its bucket if and only if its new bucket is below n1. |
| `ConsistentHashing.Hash64Promises` | contrib/consistent-hashing/consistent_hashing.cpp:118-122 | Range and minimal movement for 64-bit keys and all n up to 32768. |
| `ConsistentHashing.Hash128Promises` | contrib/consistent-hashing/consistent_hashing.cpp:123-125 | The same for 128-bit keys and all n up to 2^31. |
| `HashBalance.BucketSize` | contrib/consistent-hashing/consistent_hashing.cpp:56-68 | Over all triples of m-bit words each of 2^k buckets is hit exactly 2^(3m - k) times: 2^(2k) for k-bit words. |
| `HashBalance.PowerOfTwoLoad` | contrib/consistent-hashing/consistent_hashing.cpp:83-114 | Over all keys each of 2^k buckets receives exactly 2^(4w - k) keys. |
| `HashBalance.BalancedExactly` | contrib/consistent-hashing/consistent_hashing.h:9-11 | All buckets hold exactly equally many keys if and only if n is a power of two. |
| `HashBalance.MovedFraction` | contrib/consistent-hashing/consistent_hashing.h:11-15 | To a power of two of buckets, from any smaller number n1, exactly the fraction (n2 - n1) / n2 of all keys moves. |
| `HashParts.LowsToBothSize` | contrib/consistent-hashing/consistent_hashing.cpp:56-68 | Every pair of an upper bucket and a bucket of the half scheme comes from equally many low parts of keys: the two schemes look at different words. |
| `HashParts.HighsWithSize` | contrib/consistent-hashing/consistent_hashing.cpp:70-81 | Every value of the left-over bits comes from equally many high parts of keys. |
| `HashLoads.BucketCases` | contrib/consistent-hashing/consistent_hashing.cpp:83-114 | A bucket comes from the whole scheme, from the smooth step or from the half scheme. |
| `HashLoads.LowerBucketsEqual` | contrib/consistent-hashing/consistent_hashing.cpp:83-114 | For every n the buckets below the largest smaller power of two are loaded equally. |
| `HashLoads.UpperLoadBound` | contrib/consistent-hashing/consistent_hashing.cpp:100-111 | For every n the load of an upper bucket is an n-th of all keys up to (2^k - n) times a power of two: the smooth step's shares 1 / (l (l + 1)) telescope. |
| `HashLoads.LoadBound` | contrib/consistent-hashing/consistent_hashing.h:9-11 | The same for every bucket. |
| `HashLoads.FarBucketLoad` | contrib/consistent-hashing/consistent_hashing.cpp:100-111 | An upper bucket that the left-over bits cannot reach holds exactly 2^(4w - k) keys. |
| `HashLoads.NearBucketLoad` | contrib/consistent-hashing/consistent_hashing.cpp:100-111 | One that they reach within one period holds (2^k - n) full windows more. |
| `HashLoads.UnequalLoads` | contrib/consistent-hashing/consistent_hashing.h:18 | Of 24576 buckets bucket 20000 holds 2^49 keys and bucket 16384 holds 129 times as many. |
| `HashLoads.MovedBound` | contrib/consistent-hashing/consistent_hashing.h:11-15 | For all n1 and n2 the moved fraction is (n2 - n1) / n2 up to the slack of each new bucket. |
| `HashLoads.MovedExactly` | contrib/consistent-hashing/consistent_hashing.h:11-15 | For n1 up to the largest smaller power of two it is exact if and only if n2 is a power of two. |
| `HashLoads.OneToThree` | contrib/consistent-hashing/consistent_hashing.h:11-15 | From one bucket to three it is missed. |
| `HashExact.UpperLoadExact` | contrib/consistent-hashing/consistent_hashing.cpp:100-111 | For every n the exact load of an upper bucket: its share among 2^k buckets and, for each missing bucket m, the part of the left-over values that m (m + 1) sends to its window. |
| `HashExact.LowerLoadExact` | contrib/consistent-hashing/consistent_hashing.cpp:100-114 | The lower buckets share evenly exactly what the upper ones leave. |
| `HashExact.MovedCount` | contrib/consistent-hashing/consistent_hashing.h:11-15 | For all n1 and n2 the exact number of keys that move, from those loads. |
| `HashExact.MovedOddPart` | contrib/consistent-hashing/consistent_hashing.h:11-15 | For all n1 and n2 the promised fraction can move exactly only if the odd part of n2 divides n1. |
| `HashEntry.Load64` | contrib/consistent-hashing/consistent_hashing.cpp:118-122 | The loads of the 64-bit entry point are those of the four-word keys. |
| `HashEntry.Load128` | contrib/consistent-hashing/consistent_hashing.cpp:123-125 | The same for the 128-bit entry point. |
| `HashEntry.EvenLoads64` | contrib/consistent-hashing/consistent_hashing.h:9-18 | Of the 2^64 keys each of 2^k buckets receives exactly 2^(64 - k). |
| `HashEntry.EvenLoads128` | contrib/consistent-hashing/consistent_hashing.h:9-19 | Of the 2^128 keys each of 2^k buckets receives exactly 2^(128 - k). |
| `HashEntry.NearlyEvenLoads64` | contrib/consistent-hashing/consistent_hashing.h:9-18 | For every n each load is 2^64 / n up to (2^k - n) 2^(3k - 2). |
| `HashEntry.UnequalLoads64` | contrib/consistent-hashing/consistent_hashing.h:9-18 | The 129-fold difference at 24576 buckets, for the entry point. |
| `HashBits.PowerOfTwoBits` | contrib/consistent-hashing/consistent_hashing.cpp:48-68 | At 2^k buckets: the highest set bit among the low k of `c` is the highest bit of the bucket, below it stand the bits of `a` if `c` has an even number of set bits there, else of `b`. |
| `HashBits.PowerOfTwoZero` | contrib/consistent-hashing/consistent_hashing.cpp:57-63 | With none set it is bucket zero. |
| `HashBits.PopCountIsBits` | contrib/consistent-hashing/consistent_hashing.cpp:48-53 | The population count is the number of set bits. |
| `HashBits.KeyLayout64` | contrib/consistent-hashing/consistent_hashing.cpp:118-122 | The four words of a 64-bit key, from the lowest up. |
| `HashBits.KeyLayout128` | contrib/consistent-hashing/consistent_hashing.cpp:123-125 | And of a pair of keys. |
| `DecomposedFloat.CompareOctaveExact` | base/base/DecomposedFloat.h:155-176 | Within one octave the comparison of integer parts and the test for a fraction decide exactly. |
| `DecomposedFloat.CompareExact` | base/base/DecomposedFloat.h:99-177 | For every encoding and every integer of every width, signed or not, the sign of the exact difference, the largest exponent read as one more octave; so exact for all finite numbers. |
| `DecomposedFloat.FieldsOfEncoding` | base/base/DecomposedFloat.h:46-74 | For every sign, exponent and mantissa the accessors read exactly these from the encoding laid out by IEEE 754. |
| `DecomposedFloat.EveryWordEncodes` | base/base/DecomposedFloat.h:46-74 | Every word of the format is such an encoding. |
| `DecomposedFloat.CompareEncoded` | base/base/DecomposedFloat.h:99-177 | The comparison over sign, exponent and mantissa: the sign of the exact difference between that number and the integer. |
| `DecomposedFloat.InfinityExactly` | base/base/DecomposedFloat.h:93-97 | An infinity compares right if and only if the integer has another sign or is below 2^2^(exponent bits - 1). |
| `DecomposedFloat.InfinityAlways` | base/base/DecomposedFloat.h:93-97 | So it always does when the width is at most 2^(exponent bits - 1). |
| `DecomposedFloat.InfinityShipped` | base/base/DecomposedFloat.h:93-97 | Doubles with every integer type, floats with types of up to 128 bits. |
| `DecomposedFloat.InfinityEquals` | base/base/DecomposedFloat.h:93-97 | A float infinity compares equal to the 256-bit integer 2^128. |
| `DecomposedFloat.NaNExactly` | base/base/DecomposedFloat.h:95 | A NaN compares like the infinity of its sign if and only if the integer has another sign or is below 2^2^(exponent bits - 1) times one plus the payload's fraction. |
| `DecomposedFloat.NaNAlways` | base/base/DecomposedFloat.h:95 | So it always does when the width is at most 2^(exponent bits - 1). |
| `ObjectPool.Pool.constructor` | base/base/BorrowedObjectPool.h:32 | An empty pool. |
| `ObjectPool.Pool.BorrowFromObjects` | base/base/BorrowedObjectPool.h:165-174 | The last returned object leaves the idle ones and counts as borrowed. |
| `ObjectPool.Pool.AllocateObjectForBorrowing` | base/base/BorrowedObjectPool.h:156-163 | Both counters grow by one. |
| `ObjectPool.Pool.BeginBorrow` | base/base/BorrowedObjectPool.h:36-57 | The critical section of a borrow: an idle object, else a new one if allowed, else wait with nothing changed. |
| `ObjectPool.Pool.ResumeBorrow` | base/base/BorrowedObjectPool.h:55-56 | After a wake-up: take an idle object, or wait on. |
| `ObjectPool.Pool.ReturnObject` | base/base/BorrowedObjectPool.h:88-99 | The object becomes idle and one fewer counts as borrowed. |
| `ObjectPool.Pool.RemoveObject` | base/base/BorrowedObjectPool.h:108-117 | Both counters drop, never below zero. |
| `ObjectPool.Pool.ClearUp` | base/base/BorrowedObjectPool.h:119-129 | Nothing idle, both counters zero. |
| `ObjectPool.Perform` | base/base/BorrowedObjectPool.h:36-129 | The pool's critical section carries out each enabled step of the transition system, and a borrower gets the object recorded as held, or waits. |
| `ObjectPool.StepInv` | base/base/BorrowedObjectPool.h:36-129 | Every step of every client keeps the invariant: one place per object, counters right, phases disjoint, no lost wake-up. |
| `ObjectPool.RunInv` | base/base/BorrowedObjectPool.h:36-129 | So the invariant holds in every state of every interleaving. |
| `ObjectPool.RunSafety` | base/base/BorrowedObjectPool.h:10-27 | In every state of every run each object is idle or held by exactly one client, allocated is borrowed plus idle and within the limit, and a waiter with no notification pending or acted on means no idle object. |
| `ObjectPool.StepNoLostWakeup` | base/base/BorrowedObjectPool.h:88-99 | While a client waits un-notified, the idle objects are no more than the notifications pending or acted on. |
| `ObjectPool.NoUnderflow` | base/base/BorrowedObjectPool.h:88-117 | Returning and removing find both counters positive. |
| `ObjectPool.FullWhileBlockedExactly` | base/base/BorrowedObjectPool.h:108-129 | A step keeps clients blocked only at a full pool if and only if it does not remove or clear under blocked clients. |
| `ObjectPool.RunFullWhileBlocked` | base/base/BorrowedObjectPool.h:24-27 | Throughout a run clients wait only while the pool is full if and only if no step of the run removes or clears under blocked clients. |
| `ObjectPool.SomeoneHolds` | base/base/BorrowedObjectPool.h:88-99 | In a run without such steps, whenever a client waits and no wake-up is on the way, nothing is idle and all objects the pool may have are held by clients. |
| `ObjectPool.ReturnServesWaiter` | base/base/BorrowedObjectPool.h:88-99 | When such a client returns its object, whichever waiter the notification wakes gets that object. |
| `ObjectPool.StrandedWaiter` | base/base/BorrowedObjectPool.h:108-117 | A run in which a removal leaves a waiter that nothing will wake although an object could be allocated. |
| `ObjectPool.ReturnThenBorrow` | base/base/BorrowedObjectPool.h:88-99 | What is returned is borrowed next, and the pool is as before. |
| `ObjectPool.GiveUpWasTimed` | base/base/BorrowedObjectPool.h:59-86 | In every run a client gives up only if its last borrow had a timeout and had to wait, and still nothing is idle. |
| `ObjectPool.UntimedEndsWithObject` | base/base/BorrowedObjectPool.h:55-56 | In every run an untimed borrow that had to wait is over only once a resumption has taken an object. |
| `ObjectPool.TimedCanLeave` | base/base/BorrowedObjectPool.h:80-85 | A timed waiter can always wake and give up while nothing is idle, with the pool unchanged. |
| `ObjectPool.BorrowExactly` | base/base/BorrowedObjectPool.h:36-57 | A borrow waits if and only if nothing is idle and nothing may be allocated; otherwise one object more is held. |
| `ObjectPool.NoMoreThanHeld` | base/base/BorrowedObjectPool.h:41-53 | In every run there are never more objects than were held at once before: idle ones are used first. |
| `JsonSkip.SkipString` | base/base/JSON.cpp:230-265 | Fast and slow path as written: the method computes StringEnd. |
| `JsonSkip.StringEnd` | base/base/JSON.cpp:230-265 | On any text: an exception, or a position past both quotes and within the data. |
| `JsonSkip.SkipNumber` | base/base/JSON.cpp:268-290 | The method computes NumberEnd. |
| `JsonSkip.NumberEnd` | base/base/JSON.cpp:268-290 | On any text it stays within the data, and strictly advances from a digit or a minus sign. |
| `JsonSkip.SkipNameValuePair` | base/base/JSON.cpp:315-326 | The method computes PairEnd. |
| `JsonSkip.SkipArray` | base/base/JSON.cpp:329-356 | The loop terminates and computes ArrayEnd; an exception for anything but an array. |
| `JsonSkip.SkipObject` | base/base/JSON.cpp:359-386 | The loop terminates and computes ObjectEnd; an exception for anything but an object. |
| `JsonSkip.SkipElement` | base/base/JSON.cpp:389-412 | The mutually recursive scan terminates on any text and computes ElementEnd. |
| `JsonSkip.ElementEnd` | base/base/JSON.cpp:389-412 | On any text: an exception, or a position strictly further on. |
| `JsonSkip.Next` | base/base/JSON.cpp:754-769 | Moving the iterator ends, throws or strictly advances within the data. |
| `JsonSkip.Iterator.Increment` | base/base/JSON.cpp:754-769 | The iterator's position changes as Next says. |
| `JsonSkip.CountMembers` | base/base/JSON.cpp:414-422 | The counting loop terminates on any text and computes SizeOf, the level check of the end marker included. |
| `JsonExact.StringExact` | base/base/JSON.cpp:230-265 | On every valid string the quote search and the scan agree and end right after the closing quote. |
| `JsonExact.PathsAgree` | base/base/JSON.cpp:238-259 | On any text the quote search agrees with the scan if and only if no unicode escape, read from the left, reaches over the first quote. |
| `JsonExact.PathsDiffer` | base/base/JSON.cpp:238-259 | A text on which they end at different places. |
| `JsonExact.NumberExact` | base/base/JSON.cpp:268-290 | On every valid number followed by a delimiter or the end, the end is exact. |
| `JsonExact.ElementExact` | base/base/JSON.cpp:389-412 | On every valid value within the depth limit, followed by a delimiter or the end, skipElement ends exactly after it. |
| `JsonExact.ElementTooDeep` | base/base/JSON.cpp:173-180 | A valid value nested deeper than the limit is refused. |
| `JsonExact.SizeExact` | base/base/JSON.cpp:414-422 | size() is the number of members if and only if the value is an array or object with level + max(1, depth) within the limit; otherwise it throws. |
| `JsonExact.EmptyAtTheLimit` | base/base/JSON.cpp:743-752 | An empty array at the deepest level is skipped but has no size. |
| `JsonLoose.ElementExactly` | base/base/JSON.cpp:183-412 | On any text: skipping ends at a place that continues nothing if and only if the text up to there is in a loose grammar on strings. |
| `JsonLoose.ElementIsLoose` | base/base/JSON.cpp:389-412 | Wherever skipping ends within the text, that text is in the grammar. |
| `JsonLoose.LooseElementEnds` | base/base/JSON.cpp:389-412 | Text of the grammar is skipped exactly. |
| `JsonLoose.ItemsAreLoose` | base/base/JSON.cpp:329-356 | An array ends only behind elements separated by commas, at a closing bracket. |
| `JsonLoose.MembersAreLoose` | base/base/JSON.cpp:359-386 | An object ends only behind quoted names with colon and element, separated by commas, at a closing brace. |
| `JsonLoose.StringIsLoose` | base/base/JSON.cpp:230-265 | A string ends at an unescaped quote in the sense of the fast or of the slow path. |
| `JsonLoose.LooseStringEnds` | base/base/JSON.cpp:230-265 | And at each such quote it does end. |
| `JsonLoose.WholeNumberIsLoose` | base/base/JSON.cpp:268-290 | What is skipped as a number has the parts of one in order, each possibly empty. |
| `JsonLoose.WholeNumberEnds` | base/base/JSON.cpp:268-290 | And such a text is skipped whole. |
| `JsonLoose.BeyondTheEnd` | base/base/JSON.cpp:293-312 | Skipping runs past the text only for a literal that the text cuts off. |
| `JsonLoose.CutOffLiteral` | base/base/JSON.cpp:293-312 | And for each of these it does. |
| `JsonLoose.SizeIsLoose` | base/base/JSON.cpp:414-422 | On any text a positive size counts the elements of the grammar behind the bracket, up to the first character that is no comma. |
| `JsonLoose.LooseSize` | base/base/JSON.cpp:414-422 | And such elements have that size. |
| `JsonLoose.SizeZero` | base/base/JSON.cpp:743-752 | Size zero means a closing bracket right behind the opening one, within the depth limit. |
| `JsonLoose.NotSeparated` | base/base/JSON.cpp:344-354 | A text whose comma is not where it should be throws when skipped, although its size is one. |
| `JsonLoose.ValidIsLoose` | base/base/JSON.cpp:389-412 | Every JSON value is in the grammar. |
| `MemEqual.LoadEqual` | base/base/StringRef.h:119-147 | Two little-endian loads are equal exactly when their bytes are. |
| `MemEqual.CompareSame` | base/base/StringRef.h:84-89 | The 16-bit mask is full exactly when sixteen bytes agree. |
| `MemEqual.CompareSame4` | base/base/StringRef.h:91-109 | The mask of four anded vectors is full exactly when 64 bytes agree. |
| `MemEqual.TwoLoads` | base/base/StringRef.h:118-147 | Two overlapping loads decide equality of n to 2n bytes. |
| `MemEqual.EqualBlocks` | base/base/StringRef.h:149-166 | The 64-byte loop, the tail blocks and the last load, which may reach back into compared bytes, decide equality. |
| `MemEqual.MemEqualWide` | base/base/StringRef.h:111-167 | True exactly for equal ranges, of every size, with every load inside them. |
| `MemEqual.Equal` | base/base/StringRef.h:172-185 | operator== decides equality of byte strings. |

## Left out

- Ordering: an exception thrown by the comparator and moved-from elements are not modelled; moves are copies.
- HeapSort: std::make_heap and std::sort_heap are replaced by a heapsort written for the model, since the library's is not part of the repository.
- BlockPartition: the alignment of the offset buffers to cache lines; block size and offsets are as in the source.
- PdqSort: the order in which a partition leaves the elements of a side, on which the later passes of the variant that may give up depend; the choice between the two partitions by element type is a parameter; the work is counted in lengths of partitioned ranges, not in comparisons within a pass, and not for the variant that may give up.
- Pcg: extended generators, stream input and output, and streams selected by the engine's address. Products wrap at the word size; in C++ 16-bit operands are promoted to int, where a large product overflows instead.
- XorShift: output permutations other than the equal-width RXS-M-XS one; its multiplication wraps in the model, with the same exception at 16 bits.
- WideText.FromStr: at 128 bits the source's multiplication takes wide operands only; the model uses the generic one there.
- WideSigned: operands of two different widths, conversion to and from floating point, and bitwise xor.
- Itoa: dates and floating point numbers; pointers into the buffer are indices.
- HashLoads.MovedExactly: for n1 above the largest smaller power of two exactness is a comparison with the closed form of `HashExact.MovedCount`; whether it ever holds by chance is not settled.
- DecomposedFloat: the test for integers in the representable range, and the relational operators, which forward to the comparison.
- ObjectPool: a factory that throws, 64-bit overflow of the counters, and fairness among waiters; clearing up is a step only while nothing is borrowed.
- JsonSkip: field lookup and the decoding of strings and numbers.
- MemEqual: ordering of byte strings and their hash functions.
- find_symbols.h, hash functions, platform helpers and programs: intrinsics or system calls with simple specifications.
