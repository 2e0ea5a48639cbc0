# Verified models of the JavaScript engine's core algorithms

This project models, in Dafny, seven self-contained algorithms of the JavaScript engine under
`Source/JavaScriptCore` and proves what each of them is for. Code that changes state in the engine is a class
with methods here; code that computes a value is a function; and the methods are proved against specifications
whose own properties are proved as lemmas.

* **Printing and reading numbers** (`dtoa.cpp`). Arbitrary-precision integers as arrays of 32-bit words, changed in
  place by carry and borrow loops, allocated from size-class free lists (`Words`, `Bigints`, `BigintOps`, `Quorem`,
  `Pow5`). On top of them `dtoa` in mode 0 (`DoubleBits`, `Scaling`, `FreeFormat`, `Shortest`, `DigitLoop`, `Dtoa`): for
  every finite positive double the digits read back as that double under round-half-even reading (IEEE 754-2008,
  section 4.3.1), no decimal with fewer digits does, and none of the same length that does is closer, or as close unless the
  printed one is even. `Doubles`
  defines rounding to nearest over all doubles, independently of any algorithm, and shows it to be the
  interval that the printer works with. `Correction` and `Strtod` model the head of the correction loop of `strtod` and
  its decisions, for every numeral that finds a block, show that unscaled candidates are settled rightly, and close the loop:
  reading what was printed.
* **Garbage collector** (`collector.cpp`). Blocks of cells with offset-linked free lists, an oversize
  table, the roving search index, conservative stack marking, recursive marking on cyclic graphs, compacting sweeps
  (`Slabs`, `HeapState`, `HeapSweep`, `Collector`). Each operation of the concrete heap is proved to be a step
  of an abstract machine (`CollectorRuns`), over whose runs safety is proved: what the machine holds at every
  collection, through stack words, interpreters, protected values or lists and references from there, is never freed, never handed
  out again, and changed only by assignments to it.
* **Calendar arithmetic** (`DateMath.cpp`, module `DateMath`): the closed-form day count, the year found by one correction of an
  estimate, the month and day cascades, and both round trips between times and dates, for all integer milliseconds.
* **String literals and escapes** (`lexer.cpp`, `function.cpp`; modules `Lexer`, `Spelling`, `Escaping`): the lexer's string states refine a
  recursive scanner, whose literals are exactly those with a spelling; lexing undoes the pretty printer's escaping, and `unescape` undoes `escape`.
* **Arrays** (`array_object.cpp`; modules `ArrayStorage`, `ArrayMethods`, `MinSort`): dense slots plus sparse properties behave as one
  index map; the in-place moves of reverse, shift, unshift and splice with holes; the packing in front of sort; selection sort.
* **Argument lists** (`list.cpp`, `list.h`; modules `ListStore` and `Lists`): the pool's lazily linked free list, the heap chain, the two
  reference counts, inline and overflow values, and the early exit of the marking scan.
* **Native references** (`bindings/runtime_root.cpp`, module `NativeReferences`): per-root counted sets whose changes conserve
  the collector's protection counts.

`Powers`, `FiniteSets` and `CountedSets` hold what several of these share.

## Where the code falls short of its promise

Each of these is stated as proved: with the input or the exact condition.

* `cmp` tells zero without words from zero with one zero word (`Bigints.Cmp`); nothing else goes wrong with it.
* Setting an array's length spares the sparse element at exactly the new length (`array_object.cpp:268` tests `>`), and growing
  the array again brings it back, unless it is undefined (`ArrayStorage.ArrayInstance.ShrinkThenGrow`).
* Packing an array for sort reads each sparse element through `get`, which looks into the slots first; when the slots have
  grown over the element's index its value is lost (`ArrayStorage.PackingIsSafeIff`; `ArrayStorage.OneElementTooMany` is
  an array of 10001 elements, all there, that loses one). With properties left past the end, by the previous item, the slots can
  outgrow the length (`ArrayStorage.ArrayInstance.PushUndefinedObjectsToEnd`).
* Setting an element past the end also brings back such properties below it (`ArrayStorage.ArrayInstance.Put`).
* A list appended to itself can read from the array it has just replaced (`Lists.AppendSelf`; with capacity 16, the lists of 9
  to 12 values).
* A collection between the allocation and the construction of a cell spares the cell in a block, but on the main thread not
  an oversize one: that sweep has no test for unconstructed cells (`collector.cpp:572`; `CollectorRuns.RawSurvivesIff`, and
  `CollectorRuns.LargeCellIsLost` for a run).
* Away from the main thread, objects that may not be destroyed there survive unmarked, and what they refer to may not
  (`CollectorRuns.ClosedAfterCollection` says exactly when all references stay good; no reached object is harmed,
  `CollectorRuns.ReachableIsNeverFreed`, and the next collection can be made, `Reachability.MarkableAgain`).

## Model

| member | source | states |
|---|---|---|
| `Doubles.RoundsToIffInInterval` | Source/JavaScriptCore/kjs/dtoa.cpp:2660-2662 | What "yields d when read in and rounded to nearest" means: the decimals nearer to d than to every other double (ties to even) are exactly those between its half-gaps, an endpoint counting only for an even mantissa. |
| `Doubles.RoundingIsUnique` | Source/JavaScriptCore/kjs/dtoa.cpp:2660-2662 | A decimal rounds to at most one double. |
| `Doubles.NeighboursAreAdjacent` | Source/JavaScriptCore/kjs/dtoa.cpp:3164-3172 | No double lies closer than twice a half-gap; below a power of two the gap is half as wide. |
| `Doubles.MidpointOfNeighbours` | Source/JavaScriptCore/kjs/dtoa.cpp:2161-2230 | A decimal equally far from two doubles lies midway between neighbours, or some double is nearer. |
| `Bigints.Cmp` | Source/JavaScriptCore/kjs/dtoa.cpp:992-1025 | Orders two normalised numbers by value from their words alone; the one exception, zero with and without a word, is stated. |
| `Bigints.HighestDifferenceDecides` | Source/JavaScriptCore/kjs/dtoa.cpp:1014-1023 | The highest differing word decides the order of two numbers of equal size. |
| `Bigints.Store.Balloc` | Source/JavaScriptCore/kjs/dtoa.cpp:511-549 | A block of the asked size class that is on no free list afterwards, recycled or new, never one in use; the lists stay duplicate-free and sorted by class. |
| `Bigints.Store.Bfree` | Source/JavaScriptCore/kjs/dtoa.cpp:551-565 | Puts back a block that is not free yet, and nothing else changes. |
| `BigintOps.MultAdd` | Source/JavaScriptCore/kjs/dtoa.cpp:570-625 | In place b * m + a, normalised; grows by one class exactly when the words overflow; no 64-bit overflow, no index past the block. |
| `BigintOps.I2b` | Source/JavaScriptCore/kjs/dtoa.cpp:747-761 | A live number with the given value. |
| `BigintOps.ColumnsAddUp` | Source/JavaScriptCore/kjs/dtoa.cpp:804-817 | Column products with their carries add up to row times word, shifted: the carry reasoning behind Mult. |
| `BigintOps.MultWords` | Source/JavaScriptCore/kjs/dtoa.cpp:796-817 | Schoolbook rows over cleared words give the product, with no carry lost. |
| `BigintOps.Mult` | Source/JavaScriptCore/kjs/dtoa.cpp:763-871 | The product a * b, normalised, in a block of at most one class above the larger operand. |
| `BigintOps.Lshift` | Source/JavaScriptCore/kjs/dtoa.cpp:932-990 | b * 2^k for any b that has a word, normalised if positive, in the least size class that is sure to hold it; b itself goes to the free list. |
| `BigintOps.BorrowsAddUp` | Source/JavaScriptCore/kjs/dtoa.cpp:1070-1082 | Column differences with their borrows add up to x - q * s: behind Diff and QuoRem. |
| `BigintOps.Diff` | Source/JavaScriptCore/kjs/dtoa.cpp:1026-1118 | |a - b|, normalised, its sign flag set exactly when a < b; nothing is borrowed at the end. |
| `Quorem.EstimateIsClose` | Source/JavaScriptCore/kjs/dtoa.cpp:2454-2458 | With the divisor's top word in [2^27, 2^28) and b < 10 S, top(b) / (top(S) + 1) is the quotient or one less. |
| `Quorem.SubtractMultiple` | Source/JavaScriptCore/kjs/dtoa.cpp:2463-2500 | In-place b - q * S over all words without a final borrow. |
| `Quorem.CorrectStep` | Source/JavaScriptCore/kjs/dtoa.cpp:2501-2542 | The divisor is taken off once more exactly when it still fits. |
| `Quorem.QuoRem` | Source/JavaScriptCore/kjs/dtoa.cpp:2428-2544 | The digit b div S; b becomes b mod S, normalised, for every divisor so aligned. |
| `Pow5.Pow5Table.Reach` | Source/JavaScriptCore/kjs/dtoa.cpp:892-927 | Node i of the memo list exists and holds 5^(4 * 2^i), also when it has just been made by squaring; no node is on a free list. |
| `Pow5.HalveExponent` | Source/JavaScriptCore/kjs/dtoa.cpp:906-928 | Binary exponentiation: the low bit uses node i, the rest the later nodes. |
| `Pow5.StepFits` | Source/JavaScriptCore/kjs/dtoa.cpp:906-928 | If the result fits, so do every node of the list and every product on the way. |
| `Bigints.ProductFits` | Source/JavaScriptCore/kjs/dtoa.cpp:789-795 | A product of fewer words than the largest block is within what mult asks Balloc for. |
| `Bigints.ShiftFits` | Source/JavaScriptCore/kjs/dtoa.cpp:943-958 | So is a shifted number. |
| `Pow5.Pow5Mult` | Source/JavaScriptCore/kjs/dtoa.cpp:873-930 | b * 5^k for every b and k whose result fits the blocks (has fewer words than the largest), whether or not the list had to be extended, in a block at most one class too large. |
| `DoubleBits.Hi0bits` | Source/JavaScriptCore/kjs/dtoa.cpp:665-698 | Leading zero bits of a nonzero word, by halving steps. |
| `DoubleBits.FewBits` | Source/JavaScriptCore/kjs/dtoa.cpp:707-719 | The short path for fewer than three trailing zeros: odd part times power of two is the word. |
| `DoubleBits.ManyBits` | Source/JavaScriptCore/kjs/dtoa.cpp:720-743 | The same by halving steps. |
| `DoubleBits.Lo0bits` | Source/JavaScriptCore/kjs/dtoa.cpp:699-745 | Splits a nonzero word into odd part and trailing zero bits. |
| `DoubleBits.D2b` | Source/JavaScriptCore/kjs/dtoa.cpp:1232-1366 | The odd part, exponent and size of any finite positive double, subnormal ones included. |
| `Strtod.S2b` | Source/JavaScriptCore/kjs/dtoa.cpp:627-664 | The number that the digits denote, the point left out, for every nd whose block has a free list. |
| `Strtod.NumeralIsDigits` | Source/JavaScriptCore/kjs/dtoa.cpp:644-662 | A numeral, with or without a point among its digits, has the value of its characters with the point left out. |
| `Strtod.ScaleExponents` | Source/JavaScriptCore/kjs/dtoa.cpp:1968-2020 | Exponents of 2 and 5 that keep candidate, decimal and half an ulp in proportion, for normal and subnormal candidates and every decimal exponent; none is negative. |
| `Strtod.ScaleNumbers` | Source/JavaScriptCore/kjs/dtoa.cpp:2021-2034 | The three bignums with exactly those powers, whenever they fit. |
| `Strtod.CandidateInProportion` | Source/JavaScriptCore/kjs/dtoa.cpp:1976-2028 | bb : bs is candidate : half an ulp. |
| `Strtod.DecimalInProportion` | Source/JavaScriptCore/kjs/dtoa.cpp:1968-2034 | bd : bs is decimal : half an ulp. |
| `Strtod.SameComparisons` | Source/JavaScriptCore/kjs/dtoa.cpp:2035-2038 | Comparing |bb - bd| with bs, and bb with bd, compares the true error with half an ulp and the candidate with the decimal, exactly. |
| `Strtod.DecideOn` | Source/JavaScriptCore/kjs/dtoa.cpp:2130-2244 | The chain of tests with its lazily made third comparison is the decision table Correction.Decide. |
| `Strtod.DecisionIsVerdict` | Source/JavaScriptCore/kjs/dtoa.cpp:2130-2244 | Deciding on the bignums is deciding on the decimal in exact arithmetic. |
| `Strtod.CorrectionStep` | Source/JavaScriptCore/kjs/dtoa.cpp:1962-2244 | One pass over an unscaled candidate: bignum arithmetic takes the decision exact arithmetic would, for every decimal and exponent with room for its bignums. |
| `Strtod.NumeralsAreRoomy` | Source/JavaScriptCore/kjs/dtoa.cpp:1960-2034 | Every numeral that s2b can hold leaves that room, with exponents down to -314000 and up to a magnitude of 10^314000. |
| `Strtod.ReadNumeral` | Source/JavaScriptCore/kjs/dtoa.cpp:1960-2244 | From the text to the decision: s2b and one pass decide on the value of its digits as exact arithmetic does. |
| `Correction.VerdictIsRight` | Source/JavaScriptCore/kjs/dtoa.cpp:2130-2244 | The loop settles exactly when the error is at most half an ulp, and then on the double nearest to the decimal unless the exponent guard misjudges it; for all candidates and decimals. |
| `Correction.SettlesRightIff` | Source/JavaScriptCore/kjs/dtoa.cpp:2134-2218 | An unscaled candidate settles every decimal rightly if and only if it is not a power of two with exponent field at most 107; the guard is there for scaled ones. |
| `Correction.AboveTheGuard` | Source/JavaScriptCore/kjs/dtoa.cpp:1898-1907 | Candidates are scaled from 10^-256 down; an unscaled one, at least 10^-256, lies above the guard and settles every decimal rightly. |
| `Correction.BelowPowerOfTwo` | Source/JavaScriptCore/kjs/dtoa.cpp:2185-2218 | Between one and two lower half-gaps below a power of two the nearest double is the one drop_down makes. |
| `Correction.Fields` | Source/JavaScriptCore/kjs/dtoa.cpp:2171-2218 | What adding to, or taking from, the exponent field does to the number: the next and previous double. |
| `Strtod.PrintedThenRead` | Source/JavaScriptCore/kjs/dtoa.cpp:1962-2244 | Printing and reading: whatever such candidate the loop settles on for the digits of d, the result is d, and d itself is settled on. |
| `Strtod.PrintedSize` | Source/JavaScriptCore/kjs/dtoa.cpp:2660-2662 | Mode 0 prints at most 1776 digits, with exponents that a pass of the correction loop takes. |
| `Strtod.PrintThenRead` | Source/JavaScriptCore/kjs/dtoa.cpp:1960-2244 | The loop closed in code: print d, write the digits with or without a point, read them on a candidate; d itself is settled on, and whatever is settled on is d. |
| `Dtoa.ChooseExponents` | Source/JavaScriptCore/kjs/dtoa.cpp:2825-2843 | Together with 3047-3106: exponents that keep b / S = d / 10^k and the half-gaps in proportion, after removal of common twos. |
| `Scaling.BalancedIsScaled` | Source/JavaScriptCore/kjs/dtoa.cpp:3047-3106 | Balanced exponents make b, S and the gaps the double scaled by 10^k, unequal gaps included. |
| `Dtoa.FivePowers` | Source/JavaScriptCore/kjs/dtoa.cpp:3070-3086 | The powers of five in b, the gap and S. |
| `Dtoa.AlignDivisor` | Source/JavaScriptCore/kjs/dtoa.cpp:3108-3137 | For every divisor the shift leaves exactly four leading zero bits in its top word, which is what quorem needs. |
| `Dtoa.FixEstimate` | Source/JavaScriptCore/kjs/dtoa.cpp:3138-3146 | An estimate of the exponent that is one too large is taken back and b and the gap made up for it. |
| `Scaling.DecadeOfScaled` | Source/JavaScriptCore/kjs/dtoa.cpp:3138-3146 | The comparison of b and S tells which decade d is in. |
| `Scaling.ScaledIsWellFormed` | Source/JavaScriptCore/kjs/dtoa.cpp:3138-3174 | What is set up is a proper target for the loop: positive gaps, the lower one not above the number. |
| `Scaling.ScaledHasNoTieAtTen` | Source/JavaScriptCore/kjs/dtoa.cpp:3184-3190 | When number and upper gap make exactly ten units, the gap is under half a unit, so rounding a leading 9 up is no worse than keeping it. |
| `Dtoa.HalfGaps` | Source/JavaScriptCore/kjs/dtoa.cpp:3159-3172 | Lower and upper half-gap; twice as wide above for a power of two. |
| `Dtoa.CheckSmallEstimate` | Source/JavaScriptCore/kjs/dtoa.cpp:2815-2824 | From an estimate right or one too large, an exponent that is exact for 0 to 22 and otherwise still to be checked. |
| `FreeFormat.KeepDigit` | Source/JavaScriptCore/kjs/dtoa.cpp:3230-3256 | A kept digit: both half-gaps are missed, so no string of this length reads back, and the invariant goes on. |
| `FreeFormat.StopBelow` | Source/JavaScriptCore/kjs/dtoa.cpp:3201-3229 | Stopping with the digit: it hits, nothing shorter does, the next digit up is no closer. |
| `FreeFormat.StopAbove` | Source/JavaScriptCore/kjs/dtoa.cpp:3219-3242 | Stopping with the next digit up: likewise. |
| `FreeFormat.NineUpOnlyFirst` | Source/JavaScriptCore/kjs/dtoa.cpp:3235-3239 | A 9 is rounded up only as the first digit. |
| `FreeFormat.HitsIffWithin` | Source/JavaScriptCore/kjs/dtoa.cpp:3174-3182 | The loop's integer tests are membership in the double's rounding interval. |
| `DigitLoop.RoundOff` | Source/JavaScriptCore/kjs/dtoa.cpp:3283-3291 | Carry through trailing nines, in place: value and exponent. |
| `DigitLoop.Settle` | Source/JavaScriptCore/kjs/dtoa.cpp:3183-3256 | The branch structure of one turn: each action is one that the remainder and the two gaps justify, and in the middle between two digits the even one is taken. |
| `DigitLoop.Turn` | Source/JavaScriptCore/kjs/dtoa.cpp:3174-3256 | One turn on the bignums: quotient digit, remainder and a justified action. |
| `DigitLoop.Pass` | Source/JavaScriptCore/kjs/dtoa.cpp:3174-3256 | One turn either finishes with the best string or keeps the invariant, with the upper gap grown. |
| `DigitLoop.GenerateDigits` | Source/JavaScriptCore/kjs/dtoa.cpp:3174-3256 | The loop ends, and its digits hit the interval, nothing shorter does, nothing of that length is closer. |
| `Shortest.FinerFraction` | Source/JavaScriptCore/kjs/dtoa.cpp:3174-3256 | A decimal on a coarse grid is the same fraction on every finer one. |
| `Shortest.NothingShorter` | Source/JavaScriptCore/kjs/dtoa.cpp:3174-3256 | If no string of fewer digits hits at this exponent, no decimal with fewer digits reads back at any exponent. |
| `Shortest.NothingCloser` | Source/JavaScriptCore/kjs/dtoa.cpp:3174-3256 | The nearest hit is the nearest decimal on its grid. |
| `Shortest.TieIsEven` | Source/JavaScriptCore/kjs/dtoa.cpp:3219-3225 | Of two strings of the same length that read back and are equally close, the even one is printed. |
| `Shortest.NoTieAtEnds` | Source/JavaScriptCore/kjs/dtoa.cpp:3183-3199 | No such tie lies at the ends of the rounding interval, where the loop does not look at the digit. |
| `Shortest.BestIsShortest` | Source/JavaScriptCore/kjs/dtoa.cpp:2660-2662 | The loop's verdict is the promise of mode 0: reads back, none shorter, none closer, ties to even. |
| `Dtoa.CarryIntoNextPlace` | Source/JavaScriptCore/kjs/dtoa.cpp:3283-3289 | 10 at one place is 1 at the next: still reads back, still none closer and no tie. |
| `Dtoa.NoTrailingZero` | Source/JavaScriptCore/kjs/dtoa.cpp:2654-2658 | A shortest string has no trailing zero. |
| `Dtoa.VerdictIsPromise` | Source/JavaScriptCore/kjs/dtoa.cpp:2660-2662 | With or without a carry into the next decade, the digits print d. |
| `Dtoa.PrintBignum` | Source/JavaScriptCore/kjs/dtoa.cpp:3047-3291 | The whole bignum path: shortest, closest digits that read back as d, even on a tie, first and last not zero, for every finite positive double. |
| `Dtoa.IntegerTurn` | Source/JavaScriptCore/kjs/dtoa.cpp:3005-3021 | A turn of the integer loop stops with the best string or keeps its invariant. |
| `Dtoa.PrintInteger` | Source/JavaScriptCore/kjs/dtoa.cpp:2994-3045 | The path for small integers keeps the same promise. |
| `Dtoa.PrintFinite` | Source/JavaScriptCore/kjs/dtoa.cpp:2759-3291 | Whichever path is taken, shortest digits that read back, given an exponent estimate right or one too large. |
| `Dtoa.Dtoa` | Source/JavaScriptCore/kjs/dtoa.cpp:2713-2743 | Sign, infinities, NaN and zero exactly when the bits say so; otherwise the promise of mode 0. |
| `Slabs.CellsFillBlock` | Source/JavaScriptCore/kjs/collector.cpp:63-74 | As many cells as fit a block with its count and pointer. |
| `Slabs.ZeroedBlockIsFree` | Source/JavaScriptCore/kjs/collector.cpp:175-188 | A zeroed block is a free list of all its cells in order. |
| `Slabs.TakeCell` | Source/JavaScriptCore/kjs/collector.cpp:183-190 | Detaches the head of the free list; the rest is the free list of exactly the other unused cells. |
| `Slabs.ConstructedAtMostUsed` | Source/JavaScriptCore/kjs/collector.cpp:519-541 | A block never holds more constructed objects than used cells. |
| `Slabs.SweepPartial` | Source/JavaScriptCore/kjs/collector.cpp:519-541 | The scan that stops at minimumCellsToProcess has dealt with every constructed cell of the block. |
| `Slabs.SweepFull` | Source/JavaScriptCore/kjs/collector.cpp:496-518 | So has the scan of a full block. |
| `Slabs.SweepBlock` | Source/JavaScriptCore/kjs/collector.cpp:490-544 | Survivors are unmarked, exactly the others are freed and listed once each, and nothing else in the block changes. |
| `Reachability.ReachesThroughChild` | Source/JavaScriptCore/kjs/object.cpp:117-126 | What a child reaches, its parent reaches. |
| `Reachability.MarkedIsReachable` | Source/JavaScriptCore/kjs/collector.cpp:479-483 | Marks that start at the roots and are closed under children are exactly the reachable objects, by paths. |
| `Reachability.RankIffNoCycle` | Source/JavaScriptCore/kjs/function.cpp:569-577 | When the order of ActivationImp::mark ends: for all graphs, some rank falls along the references visited before the own mark if and only if no cycle of activations runs through them. |
| `Reachability.GoodHeapIsMarkable` | Source/JavaScriptCore/kjs/function.cpp:569-577 | It does in every heap whose references are good and whose functions and arguments are no activations. |
| `Reachability.MarkableAgain` | Source/JavaScriptCore/kjs/collector.cpp:501-503 | After any collection, whatever it left dangling among the unreached, the same roots can be marked again. |
| `Collector.Heap.Mark` | Source/JavaScriptCore/kjs/function.cpp:569-577 | The recursive mark ends on every graph whose early references have no cycle of activations, other cycles included, and adds only reached objects, each with all its children; objects it does not reach may dangle. |
| `Collector.Heap.MarkObject` | Source/JavaScriptCore/kjs/object.cpp:117-126 | Sets its own mark first, then marks what is not marked yet. |
| `Collector.Heap.FindCell` | Source/JavaScriptCore/kjs/collector.cpp:277-288 | The conservative pointer test finds a cell exactly when the word is the address of one. |
| `Collector.Heap.MarkStackObjectsConservatively` | Source/JavaScriptCore/kjs/collector.cpp:255-298 | Adds what the constructed objects under stack words reach. |
| `Collector.Heap.MarkProtectedObjects` | Source/JavaScriptCore/kjs/collector.cpp:450-459 | Adds what protected values reach, in whatever order the table yields them. |
| `Collector.Heap.MarkRoots` | Source/JavaScriptCore/kjs/collector.cpp:471-483 | After marking, the marks are exactly the objects that references lead to from a cell addressed by a stack word, an interpreter, a protected value or a protected list, provided that what these reach is sound. |
| `Collector.Heap.SweepBlocks` | Source/JavaScriptCore/kjs/collector.cpp:487-566 | Sweeps each block once in spite of swap-with-last compaction, keeps at most two empty ones, and leaves only full blocks before the search index. |
| `Collector.Heap.SweepOversize` | Source/JavaScriptCore/kjs/collector.cpp:568-594 | The same for oversize cells, those never constructed included. |
| `Collector.Heap.Collect` | Source/JavaScriptCore/kjs/collector.cpp:461-604 | A collection is the abstract step, also on heaps where unreached survivors dangle: what is held from stack words, interpreters, protected values and lists survives, on the main thread nothing else; counters, tables and index stay right; the result tells whether anything was freed. |
| `Collector.Heap.FindBlock` | Source/JavaScriptCore/kjs/collector.cpp:150-164 | The first block with a free cell: all before it are full. |
| `Collector.Heap.AllocateSlab` | Source/JavaScriptCore/kjs/collector.cpp:146-193 | A cell that was neither an object nor handed out before; free lists, counts, capacities and the search index stay right. |
| `Collector.Heap.AllocateOversize` | Source/JavaScriptCore/kjs/collector.cpp:127-144 | The same for a large cell. |
| `Collector.Heap.Allocate` | Source/JavaScriptCore/kjs/collector.cpp:113-194 | A collection if 1000 objects, and as many as were left by the last one, have come since; then a fresh cell, large exactly when asked for. |
| `Collector.Heap.Protect` | Source/JavaScriptCore/kjs/collector.cpp:428-437 | Counts one more protection for this value and no other; immediate values are ignored. |
| `Collector.Heap.Unprotect` | Source/JavaScriptCore/kjs/collector.cpp:439-448 | Counts one less, and nothing below zero. |
| `HeapState.SwapOutLists` | Source/JavaScriptCore/kjs/collector.cpp:552-555 | Compaction removes exactly one table entry and duplicates none. |
| `HeapState.TakeFromSpace` | Source/JavaScriptCore/kjs/collector.cpp:164-191 | Allocation keeps full blocks before the index and at most two empty ones. |
| `CollectorRuns.ClosedAfterCollection` | Source/JavaScriptCore/kjs/collector.cpp:501-503 | After a collection every reference leads to an object if and only if it ran on the main thread or no spared object refers to one destroyed. |
| `CollectorRuns.ReachedIsHeld` | Source/JavaScriptCore/kjs/collector.cpp:255-298 | Reached from the roots means: references lead there from a cell whose address is a stack word, or from an interpreter, a protected value or a protected list. |
| `CollectorRuns.CollectionLeavesHeld` | Source/JavaScriptCore/kjs/collector.cpp:461-604 | A collection leaves exactly what is held so and, away from the main thread, what may not be destroyed there. |
| `CollectorRuns.StepKeepsInvariant` | Source/JavaScriptCore/kjs/collector.cpp:113-194 | Allocation, construction, assignment, protection and collection keep references, early references and protection counts in order. |
| `CollectorRuns.RunKeepsInvariant` | Source/JavaScriptCore/kjs/collector.cpp:113-604 | So does every run. |
| `CollectorRuns.StepKeepsHeld` | Source/JavaScriptCore/kjs/collector.cpp:461-604 | No step frees an object that is held or hands it out again. |
| `CollectorRuns.ReachableIsNeverFreed` | Source/JavaScriptCore/kjs/collector.cpp:461-604 | Over all interleavings on any threads: an object that is held, in these terms, at every collection stays, is never handed out again, and keeps its contents but for assignments to it. |
| `CollectorRuns.RawSurvivesIff` | Source/JavaScriptCore/kjs/collector.cpp:503-507 | A cell that is not constructed yet survives a collection if and only if it is in a block or the collection is off the main thread. |
| `CollectorRuns.LargeCellIsLost` | Source/JavaScriptCore/kjs/collector.cpp:568-578 | Two steps that lose a large one: allocation, and a collection before the constructor. |
| `CountedSets.Counts` | Source/JavaScriptCore/wtf/HashCountedSet.h:139-166 | Adding and removing change one count by one; membership is a positive count. |
| `CountedSets.AddThenRemove` | Source/JavaScriptCore/wtf/HashCountedSet.h:139-166 | Removing undoes adding. |
| `DateMath.YearsAddUp` | Source/JavaScriptCore/kjs/DateMath.cpp:69-86 | The closed form counts the days of every year, for all integers. |
| `DateMath.EstimateWithinOne` | Source/JavaScriptCore/kjs/DateMath.cpp:100-108 | The mean-year estimate is at most one year off, for every integer time. |
| `DateMath.MsToYear` | Source/JavaScriptCore/kjs/DateMath.cpp:98-110 | The year whose days contain the time. |
| `DateMath.YearIsUnique` | Source/JavaScriptCore/kjs/DateMath.cpp:98-110 | There is only one such year. |
| `DateMath.MonthsAddUp` | Source/JavaScriptCore/kjs/DateMath.cpp:64-67 | The table of first days adds up the lengths of the months. |
| `DateMath.DaysFollow` | Source/JavaScriptCore/kjs/DateMath.cpp:64-86 | 1 January 1970 is day 0, and each date is the day after the date before it, by the rules of the calendar, through all months and years. |
| `DateMath.MsToMonth` | Source/JavaScriptCore/kjs/DateMath.cpp:175-205 | The month whose days contain the day of the year. |
| `DateMath.MsToDayInMonth` | Source/JavaScriptCore/kjs/DateMath.cpp:207-248 | The day within that month, counted from one, by a cascade with other limits. |
| `DateMath.WeekGoesRound` | Source/JavaScriptCore/kjs/DateMath.cpp:143-149 | Day 0 is a Thursday, each day moves on by one, seven days return. |
| `DateMath.WrappedRemainder` | Source/JavaScriptCore/kjs/DateMath.cpp:133-173 | The remainders moved up when negative are the floored ones. |
| `DateMath.DateToDayInYear` | Source/JavaScriptCore/kjs/DateMath.cpp:260-274 | Any integer month, negative ones included, counts as years plus a month from 0 to 11. |
| `DateMath.DatesAreUnique` | Source/JavaScriptCore/kjs/DateMath.cpp:260-274 | Different valid dates are different days. |
| `DateMath.ClockParts` | Source/JavaScriptCore/kjs/DateMath.cpp:151-173 | Hours, minutes, seconds and milliseconds make up the time again, also before 1970. |
| `DateMath.PartsOfClock` | Source/JavaScriptCore/kjs/DateMath.cpp:255-258 | And a valid time of day is found again from the milliseconds. |
| `DateMath.InstantInMilliseconds` | Source/JavaScriptCore/kjs/DateMath.cpp:255-258 | An instant in milliseconds of days, hours, minutes and seconds. |
| `DateMath.EpochFields` | Source/JavaScriptCore/kjs/DateMath.cpp:370-407 | The fields of the epoch: years from 1900, months from 0, Thursday. |
| `DateMath.FieldsAreUnique` | Source/JavaScriptCore/kjs/DateMath.cpp:370-407 | Valid fields and milliseconds denote different instants unless they are equal. |
| `DateMath.GregorianDateTime.FromMS` | Source/JavaScriptCore/kjs/DateMath.cpp:385-407 | Valid fields that denote the instant, together with the milliseconds left over. |
| `DateMath.GregorianDateTime.ToMS` | Source/JavaScriptCore/kjs/DateMath.cpp:370-383 | The instant the fields denote, for any integer month. |
| `DateMath.SplitThenBuild` | Source/JavaScriptCore/kjs/DateMath.cpp:370-407 | Splitting and rebuilding gives every integer time back. |
| `DateMath.BuildThenSplit` | Source/JavaScriptCore/kjs/DateMath.cpp:370-407 | Rebuilding and splitting gives every valid date back. |
| `Lexer.Lexer.SetCode` | Source/JavaScriptCore/kjs/lexer.cpp:103-127 | Establishes the four-character look-ahead on any text, short ones included. |
| `Lexer.Lexer.Shift` | Source/JavaScriptCore/kjs/lexer.cpp:129-140 | Moves on by p and keeps the look-ahead, past the end too. |
| `Lexer.Lexer.Record16` | Source/JavaScriptCore/kjs/lexer.cpp:799-818 | Appends one character; the buffer doubles in time and keeps what was recorded. |
| `Lexer.Lexer.IsLineTerminator` | Source/JavaScriptCore/kjs/lexer.cpp:576-585 | Line terminators, and which half of a pair is to be skipped next. |
| `Lexer.Lexer.StringCase` | Source/JavaScriptCore/kjs/lexer.cpp:250-261 | One character inside the quotes, against the recursive scanner. |
| `Lexer.Lexer.EscapeCase` | Source/JavaScriptCore/kjs/lexer.cpp:263-291 | Octal, hexadecimal, Unicode, line-continuation and single-character escapes, against the recursive scanner. |
| `Lexer.Lexer.Turn` | Source/JavaScriptCore/kjs/lexer.cpp:250-319 | Every turn keeps the invariant that recorded text plus what is still to be scanned is the literal, and makes progress. |
| `Lexer.Lexer.Lex` | Source/JavaScriptCore/kjs/lexer.cpp:250-319 | The token is the literal that the recursive scanner finds from the opening quote, ending where it ends; otherwise an error. |
| `Spelling.PieceScans` | Source/JavaScriptCore/kjs/lexer.cpp:250-319 | Raw units, named escapes with their codes, one to three octal digits by weight, hexadecimal and Unicode escapes and line continuations are scanned as what they spell. |
| `Spelling.LiteralIffSpelled` | Source/JavaScriptCore/kjs/lexer.cpp:250-319 | What is scanned as a literal is exactly what can be spelled in such pieces between quotes, and it is read as what they spell. |
| `Spelling.UnclosedIsMalformed` | Source/JavaScriptCore/kjs/lexer.cpp:254-255 | A line terminator or the end of the text before the closing quote is an error. |
| `Spelling.LexSpelling` | Source/JavaScriptCore/kjs/lexer.cpp:250-319 | The same for the lexer as it runs, with either quote. |
| `Spelling.HexDigitsByName` | Source/JavaScriptCore/kjs/lexer.cpp:605-610 | The 22 hexadecimal digits and their values. |
| `Escaping.FourDigitsConvertBack` | Source/JavaScriptCore/kjs/function.cpp:974-981 | Four hexadecimal digits, lower or upper case, are read back as the unit. |
| `Escaping.EscapeStringForPrettyPrinting` | Source/JavaScriptCore/kjs/function.cpp:947-987 | The loop computes the escaped text. |
| `Escaping.PrettyPrintedUnit` | Source/JavaScriptCore/kjs/function.cpp:954-983 | What the pretty printer writes for each unit, in characters. |
| `Escaping.EscapedUnitScans` | Source/JavaScriptCore/kjs/function.cpp:954-983 | Each escaped character is scanned as the character. |
| `Escaping.LexingUndoesEscaping` | Source/JavaScriptCore/kjs/function.cpp:947-987 | For every UTF-16 text, anywhere in a program: the quoted escaped text is one literal for the text, and ends at the closing quote. |
| `Escaping.PrintThenLex` | Source/JavaScriptCore/kjs/function.cpp:947-987 | The same for printer and lexer as they run. |
| `Escaping.Escape` | Source/JavaScriptCore/kjs/function.cpp:888-909 | The loop computes the escaped text. |
| `Escaping.EscapeOfUnit` | Source/JavaScriptCore/kjs/function.cpp:893-905 | What escape writes for each unit, in characters: 69 named ones as they are, others in upper-case hexadecimal. |
| `Escaping.EscapeShape` | Source/JavaScriptCore/kjs/function.cpp:892-906 | The result is as long as its units take and consists of those characters and percent signs. |
| `Escaping.EscapeLeavesAlone` | Source/JavaScriptCore/kjs/function.cpp:790-794 | A text is left alone if and only if all its units are among the 69 characters. |
| `Escaping.Unescape` | Source/JavaScriptCore/kjs/function.cpp:910-936 | The loop computes the unescaped text, malformed escapes taken as they are. |
| `Escaping.UnescapeReads` | Source/JavaScriptCore/kjs/function.cpp:914-933 | Well-formed escapes are read by the weights of their digits, every other character as it is. |
| `Escaping.UnescapeLeavesAlone` | Source/JavaScriptCore/kjs/function.cpp:914-933 | A text without well-formed escapes is left as it is. |
| `Escaping.UnescapeUndoesEscape` | Source/JavaScriptCore/kjs/function.cpp:888-936 | unescape(escape(s)) == s for every UTF-16 text. |
| `ArrayStorage.ArrayInstance.constructor` | Source/JavaScriptCore/kjs/array_object.cpp:45-52 | An array of any length without elements. |
| `ArrayStorage.ArrayInstance.GetProperty` | Source/JavaScriptCore/kjs/array_object.cpp:114-130 | The element of the index map, whichever half holds it; an undefined property is found, an undefined slot is not. |
| `ArrayStorage.ArrayInstance.Put` | Source/JavaScriptCore/kjs/array_object.cpp:155-179 | The index map with one entry set, if and only if no defined property was left between the old end and the index; the length grows to include it; slots and sparse elements stay apart. |
| `ArrayStorage.ArrayInstance.DeleteProperty` | Source/JavaScriptCore/kjs/array_object.cpp:200-213 | The index map without one entry. |
| `ArrayStorage.ArrayInstance.ResizeStorage` | Source/JavaScriptCore/kjs/array_object.cpp:229-249 | Slots in use change in number; kept ones keep their values, all others are null. |
| `ArrayStorage.ArrayInstance.SetLength` | Source/JavaScriptCore/kjs/array_object.cpp:251-274 | The elements below the length are left; a stale property stays exactly when one stood at the new length. |
| `ArrayStorage.ArrayInstance.ShrinkThenGrow` | Source/JavaScriptCore/kjs/array_object.cpp:264-270 | Shrinking and growing loses all elements past the cut if and only if no defined sparse element stood at exactly the cut. |
| `ArrayStorage.GrowthRevives` | Source/JavaScriptCore/kjs/array_object.cpp:273-273 | Growing shows nothing new if and only if no defined property was left past the end. |
| `ArrayStorage.ArrayInstance.PackSlots` | Source/JavaScriptCore/kjs/array_object.cpp:365-373 | Defined slots move to the front, in order. |
| `ArrayStorage.DefinedConcat` | Source/JavaScriptCore/kjs/array_object.cpp:365-373 | What is moved to the front keeps its order. |
| `ArrayStorage.ArrayInstance.PushUndefinedObjectsToEnd` | Source/JavaScriptCore/kjs/array_object.cpp:361-395 | The slots become the packed ones, and their number is returned; the array stays sound if and only if they do not outgrow the length, as they can when properties were left past the end. |
| `ArrayStorage.PackingKeeps` | Source/JavaScriptCore/kjs/array_object.cpp:361-395 | The packed slots: defined slots and then properties, with null behind, unless slots grow over a property; values only such properties have are gone. |
| `ArrayStorage.PackingKeepsOccurrences` | Source/JavaScriptCore/kjs/array_object.cpp:361-395 | While the slots meet no property and stay within the length, every value occurs as often as before. |
| `ArrayStorage.PackingLoses` | Source/JavaScriptCore/kjs/array_object.cpp:383-387 | A value whose properties the slots grow over is lost. |
| `ArrayStorage.PackingIsSafeIff` | Source/JavaScriptCore/kjs/array_object.cpp:361-395 | For a given shape of array, packing keeps every value of every such array if and only if the slots do not grow over a property. |
| `ArrayStorage.OneElementTooMany` | Source/JavaScriptCore/kjs/array_object.cpp:361-395 | An array that is not safe: all slots below the cut-off in use and one element more, whose value is lost. |
| `ArrayMethods.Reverse` | Source/JavaScriptCore/kjs/array_object.cpp:559-580 | Mirrors elements and holes, at every length. |
| `ArrayMethods.Shift` | Source/JavaScriptCore/kjs/array_object.cpp:581-597 | Returns the first element and moves the rest, holes included. |
| `ArrayMethods.UnShift` | Source/JavaScriptCore/kjs/array_object.cpp:765-779 | Prepends the arguments to elements and holes; returns the new length. |
| `ArrayMethods.SpliceBounds` | Source/JavaScriptCore/kjs/array_object.cpp:718-723 | Begin and count from unsigned arguments passed as signed ones; a begin from 2^31 up counts from the end. |
| `ArrayMethods.CopyOut` | Source/JavaScriptCore/kjs/array_object.cpp:726-730 | A new array of the stretch, holes included. |
| `ArrayMethods.CloseGap` | Source/JavaScriptCore/kjs/array_object.cpp:735-746 | Moving down over itself: every element is read before it is overwritten. |
| `ArrayMethods.OpenGap` | Source/JavaScriptCore/kjs/array_object.cpp:747-756 | Moving up over itself, from the end. |
| `ArrayMethods.Splice` | Source/JavaScriptCore/kjs/array_object.cpp:714-764 | Old prefix, arguments, old rest; returns the removed stretch. |
| `MinSort.SwapSettles` | Source/JavaScriptCore/kjs/array_object.cpp:698-704 | The least of the rest, swapped in, is in its place for good. |
| `MinSort.IndexedObject.FindMin` | Source/JavaScriptCore/kjs/array_object.cpp:671-697 | A least element of the rest, undefined counting as last. |
| `MinSort.IndexedObject.Sort` | Source/JavaScriptCore/kjs/array_object.cpp:671-705 | A permutation whatever the comparator does; if that is a strict weak order, no element comes after one it is before, and no undefined one before a defined one. |
| `ListStore.EmptyPoolIsOk` | Source/JavaScriptCore/kjs/list.cpp:64-67 | An all-zero pool is a free list of all slots. |
| `ListStore.TakeSlot` | Source/JavaScriptCore/kjs/list.cpp:145-151 | Hands out the first free slot, null links standing for the next slot; the free chain stays released slots followed by untouched ones, exactly the unused ones. |
| `ListStore.ReturnSlot` | Source/JavaScriptCore/kjs/list.cpp:218-222 | Puts a slot in front of the free chain. |
| `ListStore.LinkInFront` | Source/JavaScriptCore/kjs/list.cpp:153-161 | The doubly linked heap chain with one more list in front. |
| `ListStore.Unlink` | Source/JavaScriptCore/kjs/list.cpp:225-240 | Takes a list out from anywhere in the chain; the neighbours are linked. |
| `Lists.AppendTo` | Source/JavaScriptCore/kjs/list.cpp:259-288 | One more value at the end, inline or in the overflow; doubling loses none. |
| `Lists.AppendSelf` | Source/JavaScriptCore/kjs/list.cpp:297-311 | A list appended to itself reads from the array it has just replaced if and only if size + 4 <= capacity <= 2 size - 2. |
| `Lists.ListWorld.AllocateListImp` | Source/JavaScriptCore/kjs/list.cpp:142-164 | A shared part that was not in use, from the pool while there is one, else from the heap; no other is touched. |
| `Lists.ListWorld.NewList` | Source/JavaScriptCore/kjs/list.cpp:166-196 | An empty list with one reference, counted for marking unless it is marked otherwise. |
| `Lists.ListWorld.Release` | Source/JavaScriptCore/kjs/list.cpp:203-242 | The shared part is unused again; all others keep their contents. |
| `Lists.ListWorld.Dereference` | Source/JavaScriptCore/kjs/list.h:130-130 | One handle less; the shared part goes exactly with its last handle. |
| `Lists.ListWorld.CopyConstruct` | Source/JavaScriptCore/kjs/list.h:54-57 | Shares the values; the new handle counts for marking. |
| `Lists.ListWorld.Assign` | Source/JavaScriptCore/kjs/list.cpp:340-349 | Shares the other list's values, self-assignment included; counts stay the numbers of handles. |
| `Lists.ListWorld.At` | Source/JavaScriptCore/kjs/list.cpp:244-252 | The i-th value, or nothing for any other int. |
| `Lists.ListWorld.Append` | Source/JavaScriptCore/kjs/list.cpp:259-288 | Appends for all handles that share the list and for no other. |
| `Lists.ListWorld.Clear` | Source/JavaScriptCore/kjs/list.cpp:254-257 | Empties the list for all handles that share it. |
| `Lists.ListWorld.CopyFrom` | Source/JavaScriptCore/kjs/list.cpp:297-311 | Appends the values of another list, or of the same: that fails if and only if the overflow outgrows its array before the last value has been read. |
| `Lists.ListWorld.Copy` | Source/JavaScriptCore/kjs/list.cpp:290-295 | A list of its own with the same values. |
| `Lists.ListWorld.CopyTail` | Source/JavaScriptCore/kjs/list.cpp:314-332 | A list of its own without the first value. |
| `Lists.CountsAfterDereference` | Source/JavaScriptCore/kjs/list.h:130-130 | refCount stays the number of handles, valueRefCount that of handles not marked otherwise. |
| `Lists.AllSlotsSeen` | Source/JavaScriptCore/kjs/list.cpp:122-132 | Once as many used slots have been seen as there are, none is left. |
| `Lists.ListWorld.MarkProtectedLists` | Source/JavaScriptCore/kjs/list.cpp:120-139 | Marks the values of every list that some handle leaves to be marked here, and no others; the early exit misses none. |
| `NativeReferences.HoldersAfterUpdate` | Source/JavaScriptCore/bindings/runtime_root.cpp:59-70 | One root's set changes the number of holders of each object by at most that root. |
| `NativeReferences.AddingConserves` | Source/JavaScriptCore/bindings/runtime_root.cpp:131-143 | Protecting on the first reference keeps each protection count the number of roots that hold the object. |
| `NativeReferences.RemovingConserves` | Source/JavaScriptCore/bindings/runtime_root.cpp:145-160 | So does unprotecting on a root's last reference, whichever holding root is picked. |
| `NativeReferences.NativeRoots.FindReferenceSet` | Source/JavaScriptCore/bindings/runtime_root.cpp:77-91 | Some root that holds the object, and none only if there is none. |
| `NativeReferences.NativeRoots.AddNativeReference` | Source/JavaScriptCore/bindings/runtime_root.cpp:131-143 | One more reference from the root; the counts are conserved. |
| `NativeReferences.NativeRoots.RemoveNativeReference` | Source/JavaScriptCore/bindings/runtime_root.cpp:145-160 | One reference less from some root that holds the object; the counts are conserved. |
| `NativeReferences.NativeRoots.Destroy` | Source/JavaScriptCore/bindings/runtime_root.cpp:286-304 | The root's set goes and each of its objects loses one protection. |
| `NativeReferences.NothingLeftProtected` | Source/JavaScriptCore/bindings/runtime_root.cpp:286-304 | With the last root gone, the protection counts are what everyone else has made them. |
## Left out

- The estimate of log10 in `dtoa` (`dtoa.cpp:2763-2818`) is floating point; the model takes any integer estimate that is right or one too large. That its own estimate is so is what the comment in `dtoa.cpp:2783-2791` argues.
- Modes of `dtoa` other than 0, the floating-point quick path they use, and the branches for other floating-point formats and rounding modes.
- The small-integer path of `dtoa` computes with doubles that are exact integers; the model computes with the integers.
- The release of working bignums and of the result string at the end of `dtoa`, and the private memory pool behind `Balloc`.
- Bigints.Cmp: at least one of the numbers has a word; for two numbers without words the source reads in front of the arrays, and no caller offers them.
- BigintOps.MultAdd: at least one word, as the source's loop reads one before it tests; likewise BigintOps.Diff.
- BigintOps.I2b: values below 2^31; the source calls it with 1 and 625.
- Pow5.Pow5Mult: results that need every word of the largest block; mult and lshift ask for one word more than the result may need, and then for a class that has no free list. Likewise Strtod.ScaleNumbers.
- BigintOps.Lshift: numbers without words, of which the source reads one; results past the largest size class, which has no free list.
- In `strtod`: parsing the text, the first approximation and its refinement in double arithmetic with its tolerance stop, and scaled candidates for results that may underflow; that an unscaled candidate is at least 10^-256 is argued from `dtoa.cpp:1898-1907`.
- Strtod.CorrectionStep: decimals within 1200 bits of the largest block; a candidate at the top of the range that is rounded up reads as the double that would come next, where the source has an infinity.
- In the collector: suspending threads and finding stacks and registers (the stack is a sequence of words), what destructors do, and the bits of immediate values. Cell sizes above the limit are not tracked; memory from the system allocator reads as zero.
- Collector.Heap.Collect: the values in protected argument lists and what interpreters mark come as sequences of objects; a list inside an object is among its references.
- Collector.Heap.Mark: arguments lists in activations (`List::mark`) count as ordinary references.
- DateMath: local time and daylight saving, times that are not integer milliseconds, int overflow of the day number, and date parsing.
- Lexer.Lexer.Lex: string literals only; comments, numbers, identifiers, regular expressions, the count of lines and the grammar's needs are not modelled. The end marker recorded after an unfinished escape becomes 0xffff, as the narrowing does where assertions are off.
- URI encoding and decoding; the number parsers of `function.cpp`.
- ArrayStorage.ArrayInstance.Put: only index properties; other names, attributes, prototypes with index properties, getters and setters are not modelled.
- ArrayMethods: arrays without properties left past the end; undefined values count as absent, so that a property set to undefined and a deleted one are not told apart. Calls back into script and the other array functions (concat, slice, join, push, the iteration functions) are not modelled.
- ArrayMethods.UnShift: results of at most 2^32 - 1 elements, past which the source's unsigned sums wrap.
- ArrayMethods.Splice: lengths below 2^31, from which on the source's signed comparisons go wrong.
- ArrayStorage.ArrayInstance.PushUndefinedObjectsToEnd: `qsort` and its comparators, which run after it.
- MinSort.IndexedObject.Sort: comparators without effects on the object.
- Lists.ListWorld.CopyFrom: where a list appended to itself would read the array that is gone, the model stops and changes nothing.
- Lists.ListWorld: statistics; the immortal state, which the source never sets; new heap addresses come from the caller.
- NativeReferences.NativeRoots.RemoveNativeReference: the null object, for which the source returns at once.
- Native references: locks, and dispatch to other threads; `rootObjectForImp` is the same search as FindReferenceSet.
