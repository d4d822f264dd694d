# Natural merge sort of `Collections.Extensions`

This project models `NaturalMergeSort`, the adaptive merge sort that the
`Collections.Extensions` class adds to arrays, together with every private
helper it uses.

The sort works in four steps:

1. It splits the array into its *bitonic runs*. A run is a stretch that
   rises (ties allowed) to a high point and then falls (ties allowed). Each
   run is kept as an index triple `(left, highPoint, right)`, all three
   inclusive.
2. Each pass merges the runs two at a time into a second buffer of the same
   length. The first run of a pair is merged ascending and the second
   descending, so together they form one bitonic run again. A last, unpaired
   run is merged ascending on its own.
3. The two buffers swap roles after every pass, until only one run is left.
4. That last run is merged ascending, unless it has no falling part. The
   result is then copied back into the caller's array, unless it is already
   there.

The model is imperative, like the code it models. Arrays are Dafny
`array`s, and every loop is a `while` loop with invariants. Each method is
proved against a specification:

- `Merged` (a ghost function) lists the elements of a run in the order the
  directed merge takes them.
- `Placed` gives the buffer after a run of writes that start at one index
  and move one step at a time, up or down.
- `Tiles`, `AllBitonic` and `AllMaximal` describe the run lists.

The properties the code promises are lemmas about these functions. Under a
total preorder, the directed merge is sorted and is a permutation. The runs
the scan finds are the only tiling by runs that cannot be grown. Two runs
merged in opposite directions form a bitonic run.

Places where the model's structure differs from the code:

- The comparison is a parameter `compare: (T, T) -> int`, like .NET's
  `Comparison<T>`. The caller promises, and the code never checks, that
  `compare` is a total preorder: swapping the arguments flips the sign, and
  "sorts no later than" is transitive. That promise is `IsTotalPreorder`.
  - Without it, the sort still ends and still permutes the array.
  - With it, the array also comes out sorted.
- `List<BitonicSequence>` becomes `seq<BitonicSequence>`. The methods that
  fill a list with `Clear` and `Add` instead return the new sequence.
- The `ref` swaps of `Swap` (lines 151-152 and 175-180) become Dafny's
  simultaneous assignment `a, b := b, a`.
- Some long method bodies are split into helper methods, each covering the
  lines cited for it in the table below. The statements and their order
  are unchanged. Where the loop of `MergeSort` hands over to a helper and
  `return`s, the model does the same.
- The unit test `TestNaturalSort` is modelled as a verified client,
  `ExtensionsTests.NaturalSortAgreesWithArraySort`. It states that for every
  integer array the sort gives the unique sorted rearrangement that
  `Array.Sort` produces. The test itself checks only the arrays of length
  0 to 8 over `{0..len-1}`.

## Model

| member | source | states |
|---|---|---|
| Extensions.NaturalMergeSort | Personal/Collections/Extensions.cs:104-167 | The sort always terminates and leaves `values` a permutation of its old contents, whatever `compare` is. Under a total preorder, `values` comes out sorted. An array already in order, including every array of length 0 or 1, is left exactly as it was. The pass loop ends because each pass turns k >= 2 runs into (k + 1) / 2 < k runs. |
| Extensions.FinishSort | Personal/Collections/Extensions.cs:155-166 | Once one bitonic run covers the whole buffer, it ends up in the caller's array as a sorted permutation of the buffer. A run with no falling part is not merged: `values` then ends up holding the buffer's old contents unchanged. The array is left untouched when the buffer already is the caller's array. |
| Extensions.SortedAscendingMeansSorted | Personal/Collections/Extensions.cs:170-173 | `IsSortedAscending` (high point equals right end) implies that the run's elements are sorted. For a run the scan could not grow, the converse holds too. So skipping the final merge is always correct. When the scan found a single run, the merge is skipped exactly when the run is in order. A run built by a pass can already be in order and still be merged, because a tie at line 210 puts the high point at the first run's right end (input `[1, 0, 1]` with `a - b` gives the run `(0, 1, 2)` over `[0, 1, 1]`). |
| Extensions.Copy | Personal/Collections/Extensions.cs:268-278 | `to` ends up holding the first `to.Length` elements of `from`. When the two are the same array, nothing changes. |
| Extensions.CombineSuccessiveSequences | Personal/Collections/Extensions.cs:182-216 | One pass turns k runs into (k + 1) / 2 runs. The new runs again tile `[0, n)`, and run j spans source runs 2j and 2j + 1 (`Pairs`). A trailing unpaired run gets `highPoint == right`. Each new run's index range holds exactly the elements that the same range of the source held, that is the elements of the source runs it spans (`AllHoldOwnElements`). So the whole destination is a permutation of the source. If the source runs were bitonic under a total preorder, so are the new ones. |
| Extensions.MergePair | Personal/Collections/Extensions.cs:201-214 | Merging one pair, the first run ascending and the second descending, keeps the pass invariant. The returned high point is the larger of the two meeting elements, with a tie going to the first run's right end. Nothing outside the pair's span changes, and the span holds exactly the two runs' elements. When `compare` is a total preorder and the source runs were bitonic, the new run is bitonic there. |
| Extensions.MergeLast | Personal/Collections/Extensions.cs:191-198 | Merging the last, unpaired run ascending keeps the pass invariant, and the run is recorded with its high point at its right end. Nothing before the run changes, and the run's range holds exactly its own elements. |
| Extensions.MergeRun | Personal/Collections/Extensions.cs:195-205 | A merge called by a pass touches only the run's index range, fills it with exactly the run's elements, and, for a bitonic run under a total preorder, leaves the range non-decreasing (ascending) or non-increasing (descending). |
| Extensions.ComputeBitonicSequences | Personal/Collections/Extensions.cs:218-266 | The runs found tile `[0, n)` in order, with `left <= highPoint <= right` for each. Every run is bitonic. None could be grown: the rise stops at the end or before a strict fall, and the run stops at the end or before a strict rise. |
| Extensions.ScanRun | Personal/Collections/Extensions.cs:241-261 | The two scans from `left` (first the longest rise, then the longest fall) yield a bitonic run that cannot be grown, and its high point is the last element of the rise. |
| Extensions.MergeSort | Personal/Collections/Extensions.cs:280-357 | The destination is the old destination with the run's merge order (`Merged`) written from the run's left end upwards (ascending) or from its right end downwards (descending). Nothing outside the run is written. |
| Extensions.MergeNext | Personal/Collections/Extensions.cs:342-355 | One comparison step writes the element that sorts first (the left one on a tie), moves that cursor inwards and extends the written prefix of the merge order by one. |
| Extensions.MergeRemainder | Personal/Collections/Extensions.cs:325-340 | Once a cursor reaches the high point, copying the rest of the other side without comparisons completes exactly the merge order. |
| Extensions.MergeLeftSideOfBitonicSequence | Personal/Collections/Extensions.cs:359-371 | Copies `source[left..right]` left to right into consecutive destination slots in the direction of `increment`, and writes nothing when `left > right`. |
| Extensions.MergeRightSideOfBitonicSequence | Personal/Collections/Extensions.cs:373-385 | Copies `source[left..right]` right to left, i.e. reversed, into consecutive destination slots in the direction of `increment`, and writes nothing when `left > right`. |
| Extensions.MergedIntoPlace | Personal/Collections/Extensions.cs:322-356 | After a directed merge, the indices outside the run are unchanged and the run's range holds exactly its old elements. For a bitonic run under a total preorder, the range is non-decreasing when merged ascending and non-increasing when merged descending. |
| Extensions.PairBitonic | Personal/Collections/Extensions.cs:204-214 | An ascending merge followed by an adjacent descending merge gives one bitonic run whose high point is the one chosen at lines 210-212, and the runs already built below stay bitonic. |
| Extensions.PassComplete | Personal/Collections/Extensions.cs:187-215 | At the end of a pass, the new runs tile the array and there are (k + 1) / 2 of them. Each new run holds exactly its own range's elements of the source, and so the whole destination is a permutation of the source. |
| Extensions.TiledPermutation | Personal/Collections/Extensions.cs:187-215 | When runs tile `[0, n)` and each run's range holds exactly what that range held before, the whole of `[0, n)` holds exactly what it held before. |
| Extensions.PairPermutation | Personal/Collections/Extensions.cs:201-205 | After the two merges of a pair, the span of the two runs holds exactly the elements of both, and nothing before the pair changes. |
| Extensions.PairFrame | Personal/Collections/Extensions.cs:201-205 | The two merges of a pair change no index outside the span of the two runs. |
| BitonicRuns.MergedPermutation | Personal/Collections/Extensions.cs:325-356 | The directed merge takes every element of the run exactly once, whatever the comparison. |
| BitonicRuns.MergedSorted | Personal/Collections/Extensions.cs:325-356 | Under a total preorder, merging a run whose rising and falling parts are each ordered yields a sorted sequence. |
| BitonicRuns.MergedRisingRest | Personal/Collections/Extensions.cs:334-339 | Once the right cursor stands on the high point, the rest of the merge is the rising part read left to right, which is what `MergeLeftSideOfBitonicSequence` copies. |
| BitonicRuns.MergedFallingRest | Personal/Collections/Extensions.cs:327-333 | Once the left cursor stands on the high point, the rest of the merge is the falling part read right to left, which is what `MergeRightSideOfBitonicSequence` copies. |
| BitonicRuns.JoinedRunIsBitonic | Personal/Collections/Extensions.cs:207-214 | An ascending range directly followed by a descending one is a bitonic run whose high point is the meeting element that sorts later (the ascending side's on a tie). |
| BitonicRuns.MaximalTilingIsUnique | Personal/Collections/Extensions.cs:236-265 | Only one tiling of an array by bitonic runs that cannot be grown exists, so the run scan's result is determined by the array alone. |
| BitonicRuns.AscendingInputIsOneRun | Personal/Collections/Extensions.cs:241-264 | A range that never falls is a single run rising to its last element, so the pass loop is skipped and no final merge happens. |
| Ordering.AscendingIffSorted | Personal/Collections/Extensions.cs:170-173 | Under a total preorder, "no adjacent step falls" (what the scan checks) and "sorted" mean the same thing, in both directions. |
| ExtensionsTests.NaturalSortAgreesWithArraySort | Personal/CollectionsTests/ExtensionsTests.cs:10-32 | For any integer array and any sorted rearrangement of it (what `Array.Sort` returns), the natural merge sort with the comparison `a - b` returns exactly that array. |
| ExtensionsTests.SortedPermutationsAgree | Personal/CollectionsTests/ExtensionsTests.cs:34-43 | Two integer sequences that are both sorted and hold the same elements are equal element by element, which is the comparison `AssertEquals` makes. |
| ExtensionsTests.Difference | Personal/CollectionsTests/ExtensionsTests.cs:12 | The test's comparison is negative exactly when the first argument is smaller and zero exactly when the two are equal, so it is a total preorder (`DifferenceIsTotalPreorder`). |

## Left out

- Personal/BrownianTree (`BrownianTree.cs`, `Form1.cs`, `Program.cs`): a random-walk generator, WinForms drawing and bitmap file output. These use randomness, floating point, UI and I/O, and are not part of the sort.
- The array pooling mentioned in the documentation comment (Extensions.cs:62-63) is not in the code, which allocates `new T[length]` at line 112. The model allocates the same way.
- The "entire sequence above or below" shortcut that the comment at Extensions.cs:127-143 describes is not implemented in the code, so it is not modelled.
- The commented-out `Order` method (Extensions.cs:34-39), the unused `SortAnalysis` enum (Extensions.cs:11-16) and the `DebuggerDisplay` string (Extensions.cs:18, 32) have no effect on the sort.
- The comparison counts claimed in the documentation comment (n comparisons on sorted input, O(n log s) in general) are not modelled. The model states what the sort computes, not how many comparisons it makes.
- NaturalMergeSort: does not state that no scratch array is allocated for arrays of length 0 or 1, because allocation is not observable in a postcondition. It states only that such arrays are left untouched.
- NaturalMergeSort: the scratch array starts filled with Dafny's default value of `T` (hence `T(0)`), where .NET uses `default(T)`. The sort overwrites every index before reading it, so the result does not depend on that value.
- NaturalMergeSort: the element type must be `T(!new)`, because `IsTotalPreorder` quantifies over all values of `T`. This rules out element types that hold references (class instances), which .NET's `NaturalMergeSort<T>` also sorts. The sort itself looks at elements only through `compare`, so it does not depend on what `T` is.
- CombineSuccessiveSequences: states that the new runs are bitonic only when the old ones were and `compare` is a total preorder. Which of the two meeting indices becomes the high point is stated by `MergePair`, not by the pass as a whole.
- The comparison is a pure, total function. A .NET `Comparison<T>` that throws or has side effects is not modelled. Neither is a null array, a null comparison or an allocation failure.
- Copy: requires `to.Length <= from.Length`. When that is violated, `Array.Copy` throws, and the model does not model the exception.
- Difference: uses unbounded integers, while the test's `(a, b) => a - b` is 32-bit arithmetic that can wrap around. The test's values (0 to 7) never wrap.
- The `Increment` odometer (ExtensionsTests.cs:45-64) only enumerates the test's inputs. The verified client covers all inputs at once instead.
