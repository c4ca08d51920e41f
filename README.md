# iter.js, modelled in Dafny

This project models iter.js, a chainable sequence library whose operators are JavaScript generator bodies, all in `src/iter.js`. Each operator works here on a finite Dafny `seq<T>`, and each user callback is a function parameter. The callbacks receive positions exactly as the library passes them:

- a comparer or equality callback gets `(lhsValue, rhsValue, lhsIndex, rhsIndex)`;
- a predicate or transform gets `(value, index)`;
- a combiner gets `(current, value, index)`.

Every operator that the library writes as a loop is modelled twice:

- a recursive specification function over a cursor position (`MergeFrom`, `ScanFrom`, `TakeFrom`, …);
- a `Compute…` method whose `while`/`for` loop steps through the input the way the generator does. It has the same cursor variables, the same `-1` sentinels and the same break and continue points. It is proved equal to the specification.

Lemmas then state what each result means:

- permutation and sortedness for `merge`;
- element sets and strict order for the four set operations;
- the seed rule for `scan` and `fold`;
- longest-prefix facts for `take`/`skip`;
- the slice structure of `buffer`/`window`;
- first-index tie-breaking for `min`/`max`/`minmax`;
- last-writer-wins for `toMap`.

Some operators only delegate to others (`do`, `at`, `max`, `fold`, instance `repeat`). They are modelled as the same delegation, and a lemma gives their meaning.

Files, one module each:

| file | module | iter.js operators |
|---|---|---|
| wrappers.dfy | Wrappers | `Option`, for `null`/`undefined` results |
| callbacks.dfy | Callbacks | callback types, the default comparer and equality, total (pre)order predicates |
| sequences.dfy | Sequences | shared sequence facts (`Slot`, `Elements`, splitting lemmas) |
| factories.dfy | Factories | `iter.range`, `iter.repeat`, `iter.concat` / `flatten`, `iter.zip` |
| comparisons.dfy | Comparisons | `iter.compare`, `iter.equal`, `iter.findMismatch` |
| merge.dfy | Merging | `iter.merge` |
| setops.dfy | SetOperations | `iter.setUnion`, `setIntersection`, `setSymmetricDifference`, `setDifference` |
| scan.dfy | Scanning | `scan` |
| chunks.dfy | Chunks | `buffer`, `window` |
| prefixes.dfy | Prefixes | `take`, `skip` |
| transforms.dfy | Transforms | `map`, `do`, `filter`, `filterConsecutiveDuplicates`, instance `repeat` |
| terminals.dfy | Terminals | `length`, `isEmpty`, `first`, `last`, `find`, `at`, `fold`, `min`, `max`, `minmax`, `every`, `some`, `toArray`, `toObject`, `toMap` |

Order properties are stated under explicit hypotheses:

- `IndexFree`: the comparer ignores the positions;
- `TotalPreorder`: antisymmetric in sign and transitive, ties allowed;
- `TotalOrder`: ties only between identical values.

The library does not enforce any of these. For example, a comparer that always answers 1 makes `setUnion([3, 6], [3, 5])` yield `[3, 5, 3, 6]`. So the permutation, length and "draws from the inputs" facts are proved for every comparer.

## Model

| member | source | states |
|---|---|---|
| Callbacks.NaturalOrderIsTotalOrder | src/iter.js:109 | the default comparer `(l < r) ? -1 : Number(l > r)` on numbers is a total order |
| Factories.ComputeRange | src/iter.js:33-39 | the loop `while (start !== end) yield start++` yields exactly `Range(start, end)` |
| Factories.RangeMeaning | src/iter.js:33-39 | range(start, end) has end - start items, item k being start + k |
| Factories.ComputeRepeat | src/iter.js:47-54 | the counted loop yields exactly `Repeat(value, count)` |
| Factories.RepeatMeaning | src/iter.js:47-54 | repeat(value, count) is count copies of value |
| Factories.ComputeConcat | src/iter.js:61-67 | the nested loops over the iterables yield exactly `Concat(ss)` |
| Factories.ConcatLength | src/iter.js:61-67 | the output is as long as all inputs together |
| Factories.ConcatAppend | src/iter.js:61-67 | concatenating two argument lists concatenates the outputs |
| Factories.ConcatWithSource | src/iter.js:591-593 | the instance concat puts the source's items first, then those of the others |
| Factories.MaxLength | src/iter.js:81-96 | the number of rounds zip runs: every input is at most that long, and one input attains it unless there are none |
| Factories.ComputeZipRow | src/iter.js:82-90 | one round advances every input once; slot k is input k's item or absent, and the flag is set iff some input was not done |
| Factories.ComputeZip | src/iter.js:75-98 | the rounds loop, stopping at the first round where every input is done, yields exactly `Zip(ss)` |
| Factories.ZipMeaning | src/iter.js:75-98 | zip yields as many tuples as the longest input; slot k of tuple i is `ss[k][i]`, or absent once input k has ended |
| Factories.ZipLeavesHoles | test/iter.zip.js:63-77 | zipping `[5]`, `[2, 9]`, `[13, 14]` gives two tuples, the second with a hole in the first slot |
| Comparisons.CompareFrom | src/iter.js:115-131 | the result is -1, 0 or 1 whatever the comparer's magnitudes |
| Comparisons.ComputeCompare | src/iter.js:109-133 | the lockstep loop returns `Compare(l, r, cmp)`, always -1, 0 or 1 |
| Comparisons.CompareAtFirstDifference | src/iter.js:109-133 | compare is the sign of the comparer at the first position where it is non-zero; otherwise -1 if lhs is a proper prefix, 1 if rhs is, 0 if the lengths agree |
| Comparisons.CompareReflexive | src/iter.js:109-133 | compare(A, A) is 0 when the comparer finds every item equal to itself |
| Comparisons.CompareAntisymmetric | src/iter.js:109-133 | swapping the sides negates the result for a sign-antisymmetric comparer |
| Comparisons.ComputeEqual | src/iter.js:142-161 | the lockstep loop returns `Equal(l, r, eq)` |
| Comparisons.EqualMeaning | src/iter.js:142-161 | equal holds iff the lengths agree and `equals(l[p], r[p], p, p)` holds at every p |
| Comparisons.EqualReflexive | src/iter.js:142-161 | equal(A, A) for an equality that holds of every item with itself |
| Comparisons.ComputeFindMismatch | src/iter.js:209-231 | the lockstep loop returns `FindMismatch(l, r, eq)` |
| Comparisons.FindMismatchNoneIffEqual | src/iter.js:209-231 | findMismatch returns null exactly when equal returns true under the same equals |
| Comparisons.FindMismatchIsFirst | src/iter.js:209-231 | a mismatch is at the smallest differing position, with both values and absent for a side that has ended |
| Merging.ComputeMerge | src/iter.js:170-200 | the two-cursor loop, emitting lhs then rhs on a tie and advancing both, yields exactly `Merge(l, r, cmp)` |
| Merging.MergeTieStep | src/iter.js:186-195 | on a tie the output continues with the lhs item, then the rhs item, then the merge of both remainders |
| Merging.MergePermutation | src/iter.js:170-200 | for any comparer the output is a permutation of lhs followed by rhs, so its length is the sum |
| Merging.MergeSorted | src/iter.js:170-200 | inputs sorted under a total preorder give a sorted output |
| Merging.MergeKeepsDuplicates | test/iter.merge.js:26-30 | merging `[3, 9, 15, 19]` with `[3, 7, 9, 10, 15, 17, 19]` keeps every duplicate |
| Merging.MergeFollowsComparer | test/iter.merge.js:47-52 | a comparer that always answers 1 gives `[3, 5, 3, 6]` from `[3, 6]` and `[3, 5]` |
| SetOperations.ComputeSetUnion | src/iter.js:242-277 | the two-cursor loop yields exactly `SetUnion(l, r, cmp)` |
| SetOperations.SetUnionCorrect | src/iter.js:242-277 | for strictly sorted inputs under a total order: the elements are A ∪ B and the output is strictly sorted |
| SetOperations.SetUnionFollowsComparer | test/iter.setUnion.js:61-67 | a comparer that always answers 1 gives `[3, 5, 3, 6]`: the behaviour follows the comparer, not set semantics |
| SetOperations.SetUnionFromExhausted | src/iter.js:250-256 | once either input is exhausted, part-way or from the start, the union copies the rest of the other, for any comparer |
| SetOperations.ComputeSetIntersection | src/iter.js:286-311 | the two-cursor loop yields exactly `SetIntersection(l, r, cmp)` |
| SetOperations.SetIntersectionCorrect | src/iter.js:286-311 | for strictly sorted inputs under a total order: the elements are A ∩ B and the output is strictly sorted |
| SetOperations.ComputeSetSymmetricDifference | src/iter.js:320-354 | the two-cursor loop yields exactly `SetSymmetricDifference(l, r, cmp)` |
| SetOperations.SetSymmetricDifferenceCorrect | src/iter.js:320-354 | for strictly sorted inputs under a total order: the elements are A △ B and the output is strictly sorted |
| SetOperations.SetSymmetricDifferenceOfSubset | test/iter.setSymmetricDifference.js:12-17 | `[1, 2]` against `[1, 2, 3, 4]` gives `[3, 4]` |
| SetOperations.SetSymmetricDifferenceFromExhausted | src/iter.js:328-334 | once either input is exhausted, part-way or from the start, the symmetric difference copies the rest of the other, for any comparer |
| SetOperations.ComputeSetDifference | src/iter.js:363-393 | the two-cursor loop yields exactly `SetDifference(l, r, cmp)` |
| SetOperations.SetDifferenceCorrect | src/iter.js:363-393 | for strictly sorted inputs under a total order: the elements are A ∖ B and the output is strictly sorted |
| SetOperations.SetDifferenceFromExhausted | src/iter.js:371-373 | once rhs is exhausted, part-way or from the start, every remaining lhs item is passed through without a comparer call, for any comparer |
| SetOperations.SetDifferenceOfSuperset | test/iter.setDifference.js:5-9 | `[1, 2, 3, 4, 5]` minus `[3, 4]` is `[1, 2, 5]` |
| SetOperations.SetOperationsWithEmpty | src/iter.js:242-393 | for any comparer, an empty side: union and symmetric difference give the other side, intersection gives nothing, difference gives lhs |
| Scanning.ComputeScan | src/iter.js:403-418 | the loop, with `current` undefined until the seed or the first item sets it, yields exactly `Scan(s, combine, seed)` |
| Scanning.CombinedFirst | src/iter.js:407-415 | folding the first item into the start value, then the rest, is the fold of all |
| Scanning.ScanSeededMeaning | src/iter.js:403-418 | seeded: one result per item, result t folding s[..t+1] into the seed, the first `combine(seed, s[0], 0)` |
| Scanning.ScanUnseededMeaning | src/iter.js:403-418 | unseeded: max(n - 1, 0) results, result t folding s[1..t+2] into s[0], so combine first sees index 1 |
| Scanning.ScanRunningSums | test/scan.js:61-77 | running sums of `[3, 5, 7]`: `[8, 15]` unseeded, `[5, 10, 17]` with seed 2 |
| Chunks.ComputeBuffer | src/iter.js:425-440 | push, yield and reset at size, yield the non-empty remainder: exactly `Buffer(s, size)` |
| Chunks.BufferFlatten | src/iter.js:425-440 | flattening the chunks gives back the input |
| Chunks.BufferChunkSizes | src/iter.js:425-440 | for size > 0 every chunk is non-empty and at most size long, and all but the last have exactly size items |
| Chunks.BufferNonPositive | src/iter.js:431-438 | a size of 0 or less is never reached, so a non-empty input comes back as one chunk |
| Chunks.BufferKeepsExtras | test/buffer.js:33-38 | 11 items in chunks of 3 end with the 2-item chunk `[5, 6]` |
| Chunks.ComputeWindow | src/iter.js:447-463 | the shift/push buffer, yielding a copy whenever it holds size items, yields exactly `Window(s, size)` |
| Chunks.WindowFromLength | src/iter.js:451-461 | after n items have been consumed, the number of windows still to come is \|s\| - max(n, size - 1), or none |
| Chunks.WindowFromAt | src/iter.js:451-461 | after n items, the t-th window still to come is the size items ending at position max(n, size - 1) + t |
| Chunks.WindowMeaning | src/iter.js:447-463 | for size > 0: max(n - size + 1, 0) windows, the i-th equal to s[i..i+size] |
| Chunks.WindowNonPositive | src/iter.js:451-460 | a size of 0 or less yields nothing |
| Chunks.WindowShortInputs | test/window.js:12-24 | one item with a 2-window yields nothing; two items yield `[[1, 2]]` |
| Prefixes.PrefixLength | src/iter.js:470-505 | the length of the longest prefix whose items satisfy the predicate at their positions: all before it pass, the one at it fails |
| Prefixes.PrefixLengthUnique | src/iter.js:470-505 | any length with those two properties is that prefix length |
| Prefixes.ComputeTake | src/iter.js:470-482 | the loop yields `Take(s, p)` and calls the predicate with (s[i], i) only up to and including its first false |
| Prefixes.TakeIsLongestPrefix | src/iter.js:470-482 | take(p) is s[..PrefixLength(s, p)] |
| Prefixes.ComputeSkip | src/iter.js:489-505 | the doneSkipping loop yields `Skip(s, p)` and calls the predicate only up to and including its first false |
| Prefixes.SkipDropsLongestPrefix | src/iter.js:489-505 | skip(p) is s[PrefixLength(s, p)..] |
| Prefixes.TakeThenSkip | src/iter.js:470-505 | under one predicate, take and skip split the input in two |
| Prefixes.TakeCount | src/iter.js:471 | take(n) with the `n-- !== 0` counter is s[..n] for 0 <= n < \|s\|, and everything otherwise, including a negative n |
| Prefixes.SkipCount | src/iter.js:490 | skip(n) with the `n-- > 0` counter drops min(n, \|s\|) items, none for n <= 0 |
| Prefixes.TakeCountThenSkipCount | src/iter.js:470-505 | on one traversal take(n) followed by skip(n) gives back the input |
| Prefixes.TakeSkipEven | test/take.js:54-60 | over `[4, 6, 7, 6]` with "is even": take gives `[4, 6]`, skip gives `[7, 6]`, three predicate calls |
| Prefixes.TakeCountExamples | test/take.js:5-31 | take 2, 5 and 0 of `[3, 5, 7]` |
| Transforms.ComputeMap | src/iter.js:512-520 | the loop yields exactly `Map(s, f)` |
| Transforms.MapMeaning | src/iter.js:512-520 | one result per item, result k being transform(s[k], k) |
| Transforms.MapExamples | test/map.js:5-24 | doubling `[3, 5, 7]`, and the transform receives the position |
| Transforms.DoPassesThrough | src/iter.js:544-546 | do, a map whose transform returns its item, passes every item through unchanged |
| Transforms.ComputeFilter | src/iter.js:527-537 | the loop yields exactly `Filter(s, p)` |
| Transforms.KeptPositions | src/iter.js:527-537 | the accepted positions, strictly increasing, each accepted, and every accepted position listed |
| Transforms.FilterMeaning | src/iter.js:527-537 | filter yields, in order, exactly the items at the accepted positions; x is in the output iff some (s[k], k) with s[k] = x is accepted |
| Transforms.FilterAcceptAll | src/iter.js:527-537 | a predicate that accepts everything keeps everything |
| Transforms.FilterExamples | test/filter.js:5-24 | the even items of `[3, 4, 5, 6, 7]`, and all of `[2, 4, 6, 8]` |
| Transforms.ComputeFilterConsecutiveDuplicates | src/iter.js:566-584 | the loop with lastValueIndex = -1 and index starting at 1 yields exactly the specification and makes exactly the equals calls of `DedupCalls` |
| Transforms.FilterConsecutiveDuplicatesSameValue | src/iter.js:566-584 | with the default equality no two neighbours of the output are equal, and the output has exactly the input's values |
| Transforms.FilterConsecutiveDuplicatesIsRunHeads | src/iter.js:566-584 | with the default equality the output is exactly `filter` of the items that start a run: position 0 and each position whose item differs from its left neighbour |
| Transforms.FilterConsecutiveDuplicatesKeepsLaterRuns | src/iter.js:566-584 | only adjacent repeats go: `[1, 2, 1]` is kept whole and `[1, 1, 2, 2, 1]` gives `[1, 2, 1]` |
| Transforms.FilterConsecutiveDuplicatesDrawsFromInput | src/iter.js:566-584 | for any equals the output is no longer than the input, uses only its values, and starts with its first item |
| Transforms.DedupCallsFromMeaning | src/iter.js:574-580 | every item after the first is compared exactly once, at its own position, against a kept earlier item and that item's position |
| Transforms.FilterConsecutiveDuplicatesCallbacks | test/filterConsecutiveDuplicates.js:33-41 | `[3, 3, 5, 5, 5]` gives `[3, 5]` with the four logged equals calls; `[2, 2, 4, 4, 2, 4]` gives `[2, 4, 2, 4]` |
| Transforms.FilterConsecutiveDuplicatesUsesLastKept | src/iter.js:574-580 | items are compared with the last kept item and its position, not with their neighbour |
| Transforms.RepeatSequenceUnfold | src/iter.js:609-611 | repeating count times is one copy followed by count - 1 copies |
| Transforms.RepeatSequenceMeaning | src/iter.js:609-611 | count copies of s: count·\|s\| items, item q·\|s\| + k being s[k] |
| Transforms.RepeatSequenceExamples | test/repeat.js:5-31 | `[3, 5, 7]` twice and once, and `[3, 7]` zero times |
| Terminals.ComputeLength | src/iter.js:680-686 | the counting loop returns the number of items |
| Terminals.ComputeLast | src/iter.js:713-724 | the loop with index starting at -1 returns the last item and its position, null when empty |
| Terminals.IsEmptyMeaning | src/iter.js:692-707 | isEmpty holds exactly when first (and last) return null; otherwise first is at index 0 |
| Terminals.ComputeFind | src/iter.js:731-739 | the loop with its pre-incremented index returns `Find(s, p)` |
| Terminals.FindMeaning | src/iter.js:731-739 | null iff no (s[i], i) satisfies the predicate; otherwise the first one that does, with its position |
| Terminals.AtMeaning | src/iter.js:746-748 | at(n), a find on the index, is the item at position n, or null when n is not a position |
| Terminals.FirstAndLastAreAt | src/iter.js:700-724 | first is at(0) and last is at(length - 1) |
| Terminals.FindAndAtExamples | test/find.js:19-24 | over range(3, 10) the first item >= 7 is 7 at index 4, as is at(4); range(1, 3) has nothing at 2 |
| Terminals.FoldMeaning | src/iter.js:756-759 | seeded: the fold of every item into the seed, or undefined when empty; unseeded: the fold of s[1..] into s[0], undefined for fewer than two items |
| Terminals.FoldSums | test/fold.js:5-58 | sums with and without seed 2, including the undefined results for `[3]` unseeded and for `[]` seeded |
| Terminals.MinFrom | src/iter.js:799-817 | the running minimum is always an input item at its own position |
| Terminals.ComputeMin | src/iter.js:799-817 | the loop with minIndex = -1 returns `Min(s, cmp)` |
| Terminals.MinMeaning | src/iter.js:799-817 | under a total preorder: null iff empty; otherwise at or below every item and strictly below every earlier one (ties keep the first) |
| Terminals.NegatedIsTotalPreorder | src/iter.js:824-826 | the negated comparer max hands to min is again a total preorder |
| Terminals.MaxMeaning | src/iter.js:824-826 | under a total preorder: max is at or above every item and strictly above every earlier one (ties keep the first) |
| Terminals.ComputeMinmax | src/iter.js:766-792 | the one-pass loop with two running indices returns `Minmax(s, cmp)` |
| Terminals.MinmaxIsMinAndMax | src/iter.js:766-792 | for any comparer, minmax returns exactly what min and max return |
| Terminals.MinMaxExamples | test/minmax.js:19-31 | `[3, 5, 2, 7, 5]` has min 2 at 2 and max 7 at 3; a comparer that always answers 0 gives the first item for both |
| Terminals.ComputeEvery | src/iter.js:833-840 | the loop stops at the first false and returns `Every(s, p)` |
| Terminals.EveryMeaning | src/iter.js:833-840 | every holds iff the predicate holds of every (s[i], i), so of an empty iter |
| Terminals.ComputeAny | src/iter.js:847-854 | the loop stops at the first true and returns `Any(s, p)` |
| Terminals.AnyMeaning | src/iter.js:847-854 | some holds iff the predicate holds of some (s[i], i), which is exactly when find does not return null |
| Terminals.ComputeToArray | src/iter.js:860-866 | the push loop returns the items in order |
| Terminals.KeyValuePairsMeaning | src/iter.js:875-881 | one pair per item, pair i being (keySelector(s[i], i), valueSelector(s[i], i)) |
| Terminals.ComputeToMap | src/iter.js:889-895 | storing the pairs one at a time builds `ToMap` of the key/value pairs |
| Terminals.ToMapMeaning | src/iter.js:903-905 | the keys are those of the pairs, and each maps to the value of the last pair with that key |
| Terminals.ToMapLaterKeyWins | src/iter.js:889-905 | a duplicate key keeps the value of its later pair |

## Left out

- Infinite sources. This covers `range(start)` without an end, `repeat` without a count and the instance `repeat()` without a count. `range` with start > end and `repeat` with a negative count also never terminate. So `Range` requires start <= end and counts are naturals.
- The iterator and generator machinery: `Symbol.iterator`, `yield*`, lazy suspension, and the branch of `iter()` that extends an object with a `Symbol.iterator`. `iter(x)` and `iter.values(...items)` wrap a collection unchanged, and a Dafny sequence stands for itself.
- The thin instance wrappers at src/iter.js:591-661 and 921-943 only reorder arguments. The two that add something are modelled: the instance `concat` is `Factories.ConcatWithSource` and the instance `repeat` is `Transforms.RepeatSequence`. The instance `zip` is `Zip([s] + others)`.
- Re-traversal of a counted `take(n)` or `skip(n)` iter. The counter lives in the operator's closure, so a second traversal takes everything or skips nothing. `TakeCounter`/`SkipCounter` give the counter's value on the first traversal only; a count that is not an integer is not modelled.
- JavaScript values: `Object.is` corner cases (NaN, ±0), the `<`/`>` default comparer across mixed types, and mixed-type sequences. Items have one generic type `T`, the callbacks are supplied, and the examples use integers. So the accumulator of `scan`/`fold` has the item type too (`Scanning.Combined` is generic in it).
- Zip tuples as sparse arrays. JavaScript shortens a tuple whose trailing slots are holes; here every tuple has one `Option` slot per input.
- toSet is left out: it depends on JavaScript `Set` insertion-order semantics.
- toObject's coercion of keys to property names is left out. `toObject` and `toMap` are both modelled as the Dafny `map` the pairs build in order (`Terminals.ToMap`).
- forEach and the callback of do: effects only, outside a functional model. `Transforms.Do` keeps only the pass-through. The order of the callback calls is recorded for `take`/`skip` and `filterConsecutiveDuplicates`, but not for the other operators.
- `flatten` over strings and arbitrary iterables: its input is a `seq<seq<T>>`. `flatten` is `Factories.Concat`.
- `src/iter.d.ts` and `gulpfile.js` are not part of this model: a type declaration surface and build tooling, with no behaviour.
- Terminals.MinMeaning, Terminals.MaxMeaning: assume a total preorder that ignores positions. For other comparers only `Terminals.MinFrom` (the result is an input item at its own position) and `Terminals.MinmaxIsMinAndMax` hold.
- Chunks.BufferChunkSizes: does not state the number of chunks (the ceiling of |s| / size), because the division facts are too costly for the solver; the sizes fix it together with `Chunks.BufferFlatten`.
- SetOperations.SetUnionCorrect, SetIntersectionCorrect, SetSymmetricDifferenceCorrect, SetDifferenceCorrect assume a total order that ignores positions, and strictly sorted inputs, as the library documents. Without those, the results follow the comparer.

## Where the tests and the code differ

The model follows `src/iter.js`:

- test/interleave.js, test/count.js and test/removeConsecutiveDuplicates.js call methods that `src/iter.js` does not define.
- test/iter.findMismatch.js:8 and :36 expect arrays. `src/iter.js:209-231` returns null or a `{lhsValue, rhsValue, index}` object, modelled as `Comparisons.Mismatch`.
- src/iter.d.ts:53 gives `flatten` an optional transform. `src/iter.js:552-559` has none.
