# Countdown term enumerator

A model of the engine of a solver for the numbers round of Countdown. The
engine lists every arithmetic term that can be built from a multiset of
numbers with `+`, `-`, `*` and `/` under pruning rules, and it does this for
every sub-multiset of the numbers, shortest first. The engine has five parts,
each modelled here in its own form:

- `partition` splits a list by a boolean vector. It is an imperative loop:
  `Partitions.Partition`, specified by the function `Partitions.Split`.
- `selections` yields every boolean vector of length n except all-false and
  all-true. It flips one array in place as a binary counter:
  `Counter.Selections`, a method over an `array<bool>`, specified by
  `Counter.SelectionVectors`.
- `terms` is a recursive generator of terms. It is modelled as the pure
  function `Enumeration.Terms`, which returns the yielded terms in yield
  order. The term record `{op, args, val}` is the datatype
  `Expressions.Term`, and `Expressions.Wf` states the shape rules that the
  generator keeps.
- `calculations` sorts the numbers, records the distinct subsets in an
  insertion-ordered map, sorts them by length and yields their terms.
  It is the method `Calculation.Calculations`. The platform's stable array
  sort is modelled as a stable insertion sort in `Sorting`.
- `termToString` renders a term. It is `Rendering.TermToString`, with a
  reader `Rendering.ParseTerm` as its round-trip partner.

Over positive numbers the enumeration is exact: `Enumeration.TermsExactly`
proves that a term is yielded for the numbers iff it is well formed and its
leaves are those numbers, each used once. `Calculation.CalculationsExhaustive`
lifts this to every sub-multiset of the numbers.

Two behaviours of the code are worth knowing:

- For the numbers `[1, 2]` only `1 + 2` is produced. `2 - 1` is rejected
  because its value equals its right operand (line 81).
  `Enumeration.TermsOneTwo` proves this.
- The renderer wraps every node with more than one argument in parentheses
  (line 124), whatever the precedence of the operators.

## Model

| member | source | states |
|---|---|---|
| Partitions.Partition | countdown.js:5-12 | The loop returns exactly `Split(xs, selection)`: ls holds the elements at true positions and rs those at false positions. |
| Partitions.Split | countdown.js:5-12 | ls has as many elements as there are true positions and rs the rest. ls is empty iff no position is true, and rs is empty iff no position is false. |
| Partitions.CountTrue | countdown.js:8-10 | The count of true positions is at most the length. It is 0 iff no position is true and the full length iff no position is false. |
| Partitions.SplitMultiset | countdown.js:8-10 | The two sides together hold exactly the input elements: none is lost or duplicated. |
| Partitions.MergeSplit | countdown.js:3-12 | Merging the two sides back by the vector gives the input, so the split keeps the order of the elements. |
| Partitions.SplitMerge | countdown.js:3-12 | Splitting a merge gives back both sides, so the split is one-to-one for a fixed vector. |
| Partitions.SplitAtTrue | countdown.js:8-10 | The element at a true position i lands in ls at index "number of true positions before i". |
| Partitions.SplitAtFalse | countdown.js:8-10 | The element at a false position i lands in rs at index "number of false positions before i". |
| Partitions.SplitAllTrue | countdown.js:5-12 | An all-true vector puts the whole input in ls. |
| Partitions.SplitSelectionFor | countdown.js:5-12 | For every sub-multiset a of the input there is a vector whose true side holds exactly a. |
| Counter.Selections | countdown.js:15-32 | The snapshots the generator yields are exactly `SelectionVectors(n)`. The carry loop's index stays below n, because every array access is checked. |
| Counter.SelectionVectors | countdown.js:20-22 | There are 2^n - 2 vectors: none for n = 0, none for n = 1. Each has length n and is neither all-false nor all-true. |
| Counter.SelectionValue | countdown.js:22-30 | The k-th vector (from 0) encodes k + 1 in binary, least significant position first. |
| Counter.SelectionsDistinct | countdown.js:22-30 | No vector is yielded twice. |
| Counter.SelectionsComplete | countdown.js:14-32 | Every vector that is neither all-false nor all-true is yielded. |
| Counter.SelectionProper | countdown.js:20-22 | The binary forms of 1 .. 2^n - 2 are neither all-false nor all-true. |
| Counter.ValueUpdate | countdown.js:26-27 | Helper of `Counter.Selections`: flipping position j changes the encoded number by 2^j. |
| Counter.ValueBound | countdown.js:20-21 | Helper of `Counter.SelectionsComplete`: a vector of length n encodes a number below 2^n. |
| Counter.ValueOfBits | countdown.js:22-30 | Helper of `Counter.SelectionValue`: encoding the n low bits of k < 2^n gives back k. |
| Counter.BitsOfValue | countdown.js:22-30 | Helper of `Counter.SelectionsComplete`: the n low bits of a vector's encoded number are the vector. |
| Counter.ValueZero | countdown.js:14 | Helper of `Counter.SelectionProper`: a vector encodes 0 iff it has no true position. |
| Counter.ValueFull | countdown.js:14 | Helper of `Counter.SelectionProper`: a vector of length n encodes 2^n - 1 iff it has no false position. |
| Expressions.WfEval | countdown.js:58-91 | The value cached in every node of a well-formed term equals the term's value evaluated from its leaves. |
| Expressions.LeavesNonEmpty | countdown.js:42 | Every well-formed term has at least one leaf. |
| Expressions.LeavesPair | countdown.js:61-91 | The leaves of a binary node are those of its left operand followed by those of its right. |
| Expressions.LeavesCons | countdown.js:58-71 | Flattening l into a sum or product puts l's leaves before the leaves of the flattened node. |
| Enumeration.AddStep | countdown.js:51-63 | At most one sum is built from a pair. When built, its first argument is l and its value is l + r. Partners: `AddSound` (every sum built is sound) and `AddYields` (every well-formed sum is built from its operands). |
| Enumeration.MulStep | countdown.js:64-76 | At most one product is built. When built, its first argument is l, its value is l * r, and neither operand has value 1. Partners: `MulSound` and `MulYields`. |
| Enumeration.SubStep | countdown.js:77-84 | At most one difference is built. When built, it is the binary node l - r, with a positive value that differs from r's. Partners: `SubSound` and `SubYields`. |
| Enumeration.DivStep | countdown.js:85-93 | At most one quotient is built. When built, it is the binary node l / r, with r above 1, an exact value (value * r == l) that differs from r's. Partners: `DivSound` and `DivYields`. |
| Enumeration.CombinePair | countdown.js:51-93 | One left/right pair yields at most four terms, one per operator. Partners: `PairSound` and `OperandsYield`. |
| Enumeration.CombineRow | countdown.js:50-94 | The inner loop yields a term iff that term is built from l and one of the right terms. It yields at most four terms per right term. Partners: `CombineRowSound` and `CombineRowHas`. |
| Enumeration.Combine | countdown.js:49-95 | The nested loops yield a term iff the inner loop yields it for one of the left terms. They yield at most four terms per left/right pair. Partners: `CombineSound` and `CombineHas`. |
| Enumeration.Flatten | countdown.js:47-96 | A term is in the concatenation of the per-selection blocks iff it is in one of them. |
| Enumeration.TermsOver | countdown.js:47-96 | A term is yielded by the loop over the selections iff it is among the terms of some selection's split. Partners: `TermsOverSound` (every such term is sound) and `TermsOverHas` (every selection's terms are reached). |
| Enumeration.SplitTerms | countdown.js:48-95 | One selection's split yields at most four terms per pair of a term over the true side and a term over the false side. Partners: `SplitTermsSound` (each is sound over the whole input) and `YieldedFromSplit` (each pair result is yielded by `Terms`). |
| Enumeration.Terms | countdown.js:40-97 | No numbers yield nothing, and one number n yields exactly the leaf n. The rest of its behaviour is stated by `TermsSound`, `TermsComplete` and `TermsExactly`: over positive numbers it yields exactly the well-formed terms whose leaves are those numbers. |
| Enumeration.TermsWellFormed | countdown.js:40-97 | Every yielded term is well formed. Cached values are their operators applied to their arguments. Sums and products are flattened to the right, with non-decreasing arguments and no subtraction or division inside. Products have no factor 1. Subtractions and divisions are binary, never nest in their own kind and never equal their right operand. Subtraction results are positive, and division is exact by a divisor above 1. |
| Enumeration.TermsEvaluate | countdown.js:58-91 | The cached value of every yielded term equals its value evaluated from the leaves. |
| Enumeration.TermsLeaves | countdown.js:41-50 | The leaves of every yielded term are a permutation of the input numbers. |
| Enumeration.TermsPositive | countdown.js:79-91 | With positive inputs, every value in every yielded term is positive. |
| Enumeration.TermsOneTwo | countdown.js:40-97 | For [1, 2] exactly one term is yielded, 1 + 2. |
| Enumeration.SplitShrinks | countdown.js:47-50 | Both sides of each split are non-empty and shorter than the input, so the recursion ends. |
| Enumeration.TermsSound | countdown.js:40-97 | Every yielded term is well formed and uses the input numbers as leaves. Its values are positive when the inputs are. |
| Enumeration.TermsOverSound | countdown.js:47-96 | The same holds for the terms of every split, over the whole list of selections. |
| Enumeration.SplitTermsSound | countdown.js:48-95 | The same holds for the terms of one split. |
| Enumeration.CombineSound | countdown.js:49-95 | The same holds when every left term is combined with every right term. |
| Enumeration.CombineRowSound | countdown.js:50-94 | The same holds when one left term is combined with every right term. |
| Enumeration.PairSound | countdown.js:51-93 | Each term built from one left/right pair is sound over the union of both sides' numbers. |
| Enumeration.AddSound | countdown.js:51-63 | Each sum built is sound. |
| Enumeration.MulSound | countdown.js:64-76 | Each product built is sound. |
| Enumeration.SubSound | countdown.js:77-84 | Each difference built is sound. |
| Enumeration.DivSound | countdown.js:85-93 | Each quotient built is sound. |
| Enumeration.FlattenSound | countdown.js:56-59 | Prepending l to a sum's or product's arguments keeps them non-decreasing and the cached value right. |
| Enumeration.BinarySound | countdown.js:60-91 | A binary node whose operator's own conditions hold is sound. |
| Enumeration.TermsComplete | countdown.js:40-97 | Over positive numbers, every well-formed term whose leaves are exactly the numbers is yielded. |
| Enumeration.TermsExactly | countdown.js:40-97 | Over positive numbers, a term is yielded iff it is well formed and its leaves are exactly the numbers. |
| Enumeration.OperandsSplit | countdown.js:56-61 | A well-formed node splits into the two operands the generator combined: its first argument and, for a longer sum or product, the node over the remaining arguments. Both are well formed, and their leaves together are the node's. |
| Enumeration.OperandsYield | countdown.js:51-93 | A well-formed node whose second operand is positive is among the terms built from its two operands. |
| Enumeration.AddYields | countdown.js:55-62 | A well-formed sum is built from its operands. |
| Enumeration.MulYields | countdown.js:68-75 | A well-formed product whose second operand is positive is built from its operands. |
| Enumeration.SubYields | countdown.js:78-83 | A well-formed difference is built from its operands. |
| Enumeration.DivYields | countdown.js:87-92 | A well-formed quotient is built from its operands. |
| Enumeration.CombineRowHas | countdown.js:50-94 | The inner loop reaches every right term. |
| Enumeration.CombineHas | countdown.js:49-95 | The outer and inner loops reach every left/right pair. |
| Enumeration.TermsOverHas | countdown.js:47-96 | The loop over the selections reaches every selection. |
| Enumeration.SplitFor | countdown.js:47-48 | Splitting the numbers into any two non-empty parts is done by one of the selections the generator visits. |
| Enumeration.YieldedFromSplit | countdown.js:47-95 | A term built from a left and a right term of some split is yielded. |
| Rendering.TermToString | countdown.js:119-125 | A node with more than one argument is rendered inside parentheses. Partner: `RenderRoundTrip`, which reads every rendering back. |
| Rendering.RenderRoundTrip | countdown.js:119-125 | Reading back the rendering of a well-formed term with non-negative leaves gives exactly that term, so every node is rendered fully parenthesised and unambiguously. |
| Rendering.RenderInjective | countdown.js:119-125 | Distinct well-formed terms with non-negative leaves render to distinct strings. |
| Rendering.ParseRender | countdown.js:119-125 | A rendered term followed by text that cannot extend it reads back as the term and that text. |
| Rendering.ParseOpenRender | countdown.js:123-124 | Helper of `Rendering.ParseRender`: reading the opening parenthesis and the first rendered argument leaves the reader at the remaining arguments. |
| Rendering.ParseChainRender | countdown.js:123-124 | Helper of `Rendering.ParseRender`: reading the rendered arguments from position k onwards, up to the closing parenthesis, rebuilds the node. |
| Rendering.ParseChainNext | countdown.js:123 | Helper of `Rendering.ParseChainRender`: reading one rendered argument and the operator symbol after it moves on to the next argument. |
| Rendering.ParseChainLast | countdown.js:123-124 | Helper of `Rendering.ParseChainRender`: reading the last rendered argument and the closing parenthesis rebuilds the node. |
| Rendering.ParseNumber | countdown.js:120-121 | Helper of `Rendering.ParseRender`: the decimal text of a natural number reads back as that number. |
| Rendering.NatToString | countdown.js:121 | The decimal text is non-empty and made of digits, with no leading zero: 0 is "0" and any other number starts with a non-zero digit. |
| Sorting.SortBy | countdown.js:103 | The sort returns the same elements: the same multiset and the same length. |
| Sorting.SortBySorted | countdown.js:103 | The result of the sort is ordered by the comparator's key. |
| Sorting.SortByStable | countdown.js:112 | Elements with equal keys keep their relative order. |
| Calculation.Record | countdown.js:108 | Setting a key leaves it among the keys and adds at most one. Partner: `RecordKeys`. |
| Calculation.CalculationSubsets | countdown.js:103-112 | The subsets are ordered by length, as the final sort at line 112 leaves them. Partners: `CalculationSubsetsVisit` (each non-empty ascending sub-multiset of the numbers appears exactly once, and nothing else does) and `FiveFive` (the subsets of [5, 5]). |
| Calculation.TermsOfEach | countdown.js:113-115 | A term is produced iff it is among the terms of one of the subsets. Partners: `TermsOfEachSound` and `TermsOfEachComplete`. |
| Calculation.RecordKeys | countdown.js:108 | Setting a key adds it if it is new and never duplicates it. |
| Calculation.DistinctSubsets | countdown.js:105-110 | The loop records the subset of every selection, then the whole sorted list, and ends with exactly `Keys(sorted)`. |
| Calculation.Calculations | countdown.js:101-116 | The method produces exactly the terms of each subset of `CalculationSubsets(numbers)`, one subset after another. |
| Calculation.CalculationSubsetsVisit | countdown.js:102-112 | The subsets are ordered by length. Each is an ascending sub-multiset of the numbers, empty only when there are no numbers. Every non-empty ascending sub-multiset is visited exactly once. This is the partner of `CalculationSubsets`. |
| Calculation.CalculationsSound | countdown.js:101-116 | Every calculation is well formed and uses no number more often than it is given. Every value in it is positive when the numbers are. |
| Calculation.CalculationsComplete | countdown.js:104-115 | Every term over any non-empty ascending sub-multiset of the numbers is among the calculations. |
| Calculation.CalculationsExhaustive | countdown.js:101-116 | With positive numbers, every well-formed term whose leaves are drawn from the numbers, none more often than given, is a calculation. |
| Calculation.FiveFive | countdown.js:104-112 | The numbers [5, 5] visit [5] once and then [5, 5]. |
| Calculation.NoNumbers | countdown.js:101-116 | No numbers give no calculations. |
| Calculation.RecordedKeys | countdown.js:105-108 | The recorded map keys are non-empty ascending sub-multisets and none is repeated. The subset of every selection is among them. |
| Calculation.KeyFound | countdown.js:105-109 | Every non-empty ascending sub-multiset of the sorted numbers becomes a key. |
| Calculation.KeysVisit | countdown.js:105-109 | The keys are exactly the non-empty ascending sub-multisets, each once. |
| Calculation.SplitAscending | countdown.js:103-107 | A subset taken from the ascending list is ascending. |
| Calculation.AscendingUnique | countdown.js:103-107 | Helper of `Calculation.SubsetTaken`: two ascending lists with the same elements are equal, so a subset of the sorted numbers is fixed by its elements. |
| Calculation.SubsetTaken | countdown.js:106-107 | Every ascending sub-multiset of the ascending list is the subset taken by some selection vector. |
| Calculation.TermsOfEachSound | countdown.js:113-115 | Terms produced for subsets of a multiset are sound with respect to that multiset. This is the partner of `TermsOfEach`. |
| Calculation.TermsOfEachComplete | countdown.js:113-115 | The terms of every listed subset are among those produced. |

## Left out

- The browser page and the worker (`index-ui.js`, `index-worker.js`) are not part of this model, and neither is the demo script at countdown.js:127-137, which prints the calculations that hit a target.
- Generators are modelled as the sequence of everything they yield, in yield order. Laziness, and stopping early, are not modelled.
- `selections` yields the same array every time and then mutates it. The model records a snapshot per yield. Every consumer partitions the vector before it resumes the generator, so the difference cannot be observed.
- Numbers are unbounded integers, not IEEE doubles. Precision loss above 2^53 is not modelled. `Number.isInteger(l / r)` becomes `l % r == 0`, which is equivalent for divisors above 1.
- A leaf also carries `args` (the one-element number array). Nothing reads that field, so the model's leaf holds only its value.
- The map is keyed by `subset.join(",")`. The model keys it by the list itself, since joining integer lists with commas is one-to-one.
- The platform's array sort is modelled as a stable insertion sort. Only its result, ordered, permuted and stable, matters.
- Enumeration.AddStep: the flattening test reads `r.args[0]` only when `r.args` is non-empty. A sum always has at least two arguments, so the engine's unguarded read never fails.
- Enumeration.MulStep: guarded the same way as the sum.
- Expressions.Apply: reads a chain of more than two operands of `-` as a - (b + c), and of `/` as a / (b * c), following the engine's comments. Such chains are never built.
- Enumeration.Terms: nothing is stated about duplicate terms. Repeated numbers do produce duplicates, which the engine's own notes leave open.
- Enumeration.TermsComplete: stated for positive numbers only. With non-positive numbers some well-formed terms are not yielded. For example, the product of -2, -1 and -1 is never built, because its right operand -1 * -1 has value 1.
- Enumeration.TermsExactly: limited to positive numbers in the same way.
- Calculation.CalculationsExhaustive: limited to positive numbers in the same way.
- Enumeration.Terms: the engine expects sorted numbers, but the model does not require it. Its properties hold for any order.
- Rendering.RenderRoundTrip: holds for terms with non-negative leaves only. A negative leaf renders with a leading `-`, which reads like a subtraction.
- Rendering.RenderInjective: limited in the same way as the round trip.
