# Merge-sort engine of the sorting benchmark

The benchmark compares two merge sorts over `int` arrays. One is a top-down
sort that recurses on halves. The other is a bottom-up sort that doubles a
run length. Both share one `merge` step and count its comparisons in a
field of the sorter object. This project models that engine, the class
`MergeSort` of `MergeSort.java`, and proves what it does to the array and
the counter.

The model has two layers.

- **Values.** Pure functions describe each operation's effect on the
  array's contents and on the counter. They are defined in modules `Runs`,
  `Merging`, `TopDownSort` and `BottomUpSort`, and return an
  `Outcome(list, count)`:
  - `Merge` and `MergeComparisons` merge two runs and count the comparisons.
  - `MergeStep` is one call of `merge` on the whole array.
  - `TopDown` is the recursive sort.
  - `Pass` is one sweep of the iterative sort's inner loop.
  - `BottomUpFrom` and `BottomUp` are the iterative sort's outer loop.

  The properties are lemmas about these functions: ordering, permutation,
  frame, comparison bounds, uniqueness of the result, and examples.
- **State.** The class `MergeSortEngine.MergeSort` has the field `count`:
  - `Merge`, `RecursiveSortRange`, `RecursiveSort` and `IterativeSort`
    work in place on `array<int>` parameters, with the same loops and
    recursion as the Java code.
  - Each method's `ensures` ties the new array contents and the new counter
    to the matching value function of the old contents.
  - The public sorts also state outright that the result is a non-increasing
    permutation of the input, that the count is bounded, and that arrays of
    length at most 1 are unchanged with a count of 0.

**The order is non-increasing.** The merge loop takes `list[i]` when
`list[j] < list[i]` and takes `list[j]` otherwise (MergeSort.java:108-112).
It therefore always emits the larger head, and on a tie it emits the head
of the right run. Both sorts leave the array in non-increasing order; the
doc comments of the two sorts (MergeSort.java:24 and :66) say only "the
list in sorted order".

**The two sorts need not count the same comparisons.** The recursive split
at `l + (r - l) / 2` (MergeSort.java:53) and the bottom-up blocks of
`2 * size` (MergeSort.java:76-78) cut an array into the same runs only when
its length is 0 or a power of two (1 and 2 included); for every other length
the first split differs (floor(n/2) against the largest power of two below n).
`CountsDiffer` shows that on `[1, 2, 3]` the recursive sort counts 3
comparisons and the iterative sort counts 2. On `[3, 1, 4, 1]`, whose
length is a power of two, both sorts leave `[4, 3, 1, 1]` and count 5
comparisons (`ScenarioExample`). An input that is already in order is not
always the cheapest arrangement either: the iterative sort counts 3
comparisons on `[3, 2, 1]` and 2 on `[1, 2, 3]` (`SortedInputCountsMore`).

The final arrays always agree (`SortsAgree`), because a multiset has only
one non-increasing arrangement.

## Model

| member | source | states |
|---|---|---|
| Runs.Merge | MergeSort.java:101-114 | the sequence the `k` loop writes into `temp`: while both runs have elements, the left head when the right head is strictly smaller and otherwise the right head (so ties go right); once a run is exhausted, the rest of the other; its contract gives the output length as the sum of the run lengths, and MergePermutes, MergeNonIncreasing and MergeFromIsMerge state its properties |
| Runs.MergeComparisons | MergeSort.java:101-113 | the comparisons `count++` records during that merge, one per element emitted while both runs have elements; its contract bounds it by the total length and makes it zero exactly when one of the runs is empty |
| Runs.MergeFrom | MergeSort.java:99-114 | the loop itself, from indices `i` and `j`: the branch `i == m` first, then `j == r` (with r clamped to `hi`), then one counted comparison and the test `list[j] < list[i]`; its contract gives the length of what remains to be emitted, (m - i) + (hi - j) |
| Merging.MergeStep | MergeSort.java:91-117 | one call `merge(list, temp, l, m, r)` on the array's contents: unchanged with no count when m >= n; otherwise r clamped to n, the window [l, r) replaced by the merge of its two runs and the rest kept; its contract keeps the array length, and MergeStepFrame, MergeStepParts, MergeStepPermutes, MergeStepWindowPermutes, MergeStepSorts and MergeStepCount state its properties |
| TopDownSort.TopDown | MergeSort.java:45-61 | the recursive sort of a range: length at most 1 left as it is with no count; otherwise split at half the length (l + (r - l) / 2 in array terms), both halves sorted and merged, and the counts added; its contract keeps the length, and TopDownSorts and TopDownCountBound state its properties |
| BottomUpSort.Pass | MergeSort.java:77-79 | one run of the inner `left` loop from a block start on: while a second run of length `size` starts before the end, the first two runs (the second cut at the end) are merged and the pass goes on after them; a lone last run is left as it is; its contract keeps the length, and PassSorts, PassPermutes and PassCount state its properties |
| BottomUpSort.BottomUpFrom | MergeSort.java:76-79 | the outer `size` loop from run length `size` on: while size < n, one pass and then the rest from size * 2, the counts added; its contract keeps the length, and BottomUpFromSorts and BottomUpFromCountBound state its properties |
| BottomUpSort.BottomUp | MergeSort.java:69-81 | the iterative sort, the outer loop from run length 1; its contract keeps the length, and BottomUpSorts and BottomUpCountBound state its properties |
| MergeSortEngine.SortedInputCountsMore | MergeSort.java:76-79 | [3, 2, 1] is already non-increasing and has the same values as [1, 2, 3], yet the iterative sort counts more comparisons on it (3 against 2) |
| MergeSortEngine.BottomUpSortedExample | MergeSort.java:69-81 | the iterative sort of [3, 2, 1] leaves it unchanged and counts 3 comparisons |
| MergeSortEngine.MergeSort.constructor | MergeSort.java:15-19 | a new sorter starts with a comparison count of 0 |
| MergeSortEngine.MergeSort.GetCount | MergeSort.java:124-126 | reports exactly the counter field `count` |
| MergeSortEngine.MergeSort.Merge | MergeSort.java:91-117 | the array becomes `MergeStep` of its old contents: unchanged when m >= n; otherwise with r clamped to n, [l, r) holds the merge of the two runs and everything else is unchanged; the counter grows by exactly that merge's comparisons |
| MergeSortEngine.MergeSort.MergeLoop | MergeSort.java:99-114 | the `k` loop writes into temp[l..r) exactly the merge of list[l..m) and list[m..r), and adds exactly `MergeComparisons` of the two runs to the counter; loop invariants tie temp[l..k) to the output so far and the rest of the output to the unconsumed input |
| MergeSortEngine.EmitLeft | MergeSort.java:104-109 | one unfolding of `MergeFrom`, the proof step of the loop's left-head branches: when the right run is exhausted or its head is smaller, the next output element is the left head, counted as a comparison only if the right run is not exhausted |
| MergeSortEngine.EmitRight | MergeSort.java:102-111 | one unfolding of `MergeFrom`, the proof step of the loop's right-head branches: when the left run is exhausted or the right head is not smaller (ties included), the next output element is the right head, counted as a comparison only if the left run is not exhausted |
| MergeSortEngine.ArrayCopy | MergeSort.java:116 | `System.arraycopy` between two distinct arrays: the destination window takes the source window, and the rest of the destination is unchanged |
| MergeSortEngine.MergeSort.RecursiveSortRange | MergeSort.java:45-61 | the array becomes the old contents with [l, r) replaced by `TopDown` of that range, so nothing outside [l, r) changes; the counter grows by `TopDown`'s count; a range of length <= 1 is left unchanged and counts nothing; for longer ranges the split m = l + (r - l) / 2 satisfies l < m < r, so both recursive calls shrink and the merge never takes its m >= n exit |
| MergeSortEngine.MergeSort.RecursiveSort | MergeSort.java:28-36 | resets the counter; the array becomes `TopDown` of the input: a non-increasing permutation of it; the count is that sort's count alone, at most n * ceil(log2 n); n <= 1 leaves the array unchanged with count 0 |
| MergeSortEngine.MergeSort.IterativeSort | MergeSort.java:69-81 | resets the counter; the array becomes `BottomUp` of the input: a non-increasing permutation of it; the count is `BottomUp`'s count, at most n * ceil(log2 n); n <= 1 leaves the array unchanged with count 0; the outer-loop invariant keeps blocks of length `size` sorted and the array a permutation of the input |
| MergeSortEngine.SortsAgree | MergeSort.java:28-81 | on every input the recursive and the iterative sort leave the same array |
| MergeSortEngine.CountsDiffer | MergeSort.java:53-78 | on [1, 2, 3] both sorts leave the same array, but they count different numbers of comparisons (3 and 2) |
| MergeSortEngine.ScenarioExample | MergeSort.java:28-81 | on [3, 1, 4, 1] both sorts leave [4, 3, 1, 1] and count 5 comparisons |
| MergeSortEngine.TopDownExample | MergeSort.java:45-61 | the recursive sort of [1, 2, 3] leaves [3, 2, 1] and counts 3 comparisons |
| MergeSortEngine.BottomUpExample | MergeSort.java:69-81 | the iterative sort of [1, 2, 3] leaves [3, 2, 1] and counts 2 comparisons |
| Runs.MergeFromIsMerge | MergeSort.java:99-114 | the element-at-a-time merge, as the loop produces it from indices i and j, equals the merge of the runs `Merge` and counts `MergeComparisons` |
| Runs.MergeTakesLeft | MergeSort.java:105-109 | one unfolding of `Merge` and `MergeComparisons`: the merge emits the left head when the right run is empty or its head is strictly smaller, with one comparison if the right run is not empty |
| Runs.MergeTakesRight | MergeSort.java:102-111 | one unfolding of `Merge` and `MergeComparisons`: the merge emits the right head when the left run is empty or on a tie or a larger right head, with one comparison if the left run is not empty |
| Runs.MergePermutes | MergeSort.java:101-114 | the merge of two runs is a permutation of their union |
| Runs.MergeNonIncreasing | MergeSort.java:101-114 | merging two non-increasing runs gives a non-increasing run |
| Runs.MergeComparisonsBounds | MergeSort.java:101-113 | a merge counts at least as many comparisons as the shorter run has elements and, when it emits anything, fewer than it emits |
| Runs.NonIncreasingUnique | MergeSort.java:28-81 | two non-increasing sequences with the same multiset are equal |
| Merging.MergeStepFrame | MergeSort.java:92-98 | one merge step changes no position outside [l, min(r, n)); when m >= n it changes nothing and counts nothing |
| Merging.MergeStepParts | MergeSort.java:96-116 | when m < n, the merge step keeps the prefix before l and the suffix from min(r, n) on, and puts the merge of the two runs between them |
| Merging.MergeStepPermutes | MergeSort.java:91-117 | a merge step permutes the whole array |
| Merging.MergeStepWindowPermutes | MergeSort.java:96-116 | the merged window [l, min(r, n)) is a permutation of its old contents |
| Merging.MergeStepSorts | MergeSort.java:101-116 | if list[l..m) and list[m..min(r, n)) are non-increasing, the merged window is non-increasing |
| Merging.MergeStepCount | MergeSort.java:101-113 | a merging step counts at least min(m - l, r' - m) and at most (r' - l) - 1 comparisons, where r' = min(r, n) |
| TopDownSort.TopDownSorts | MergeSort.java:45-61 | the recursive sort of a range gives a non-increasing permutation of it |
| TopDownSort.TopDownPermutes | MergeSort.java:45-61 | the recursive sort returns a rearrangement of its range: the multiset of values is unchanged |
| TopDownSort.TopDownOrders | MergeSort.java:45-61 | the recursive sort leaves its range non-increasing |
| TopDownSort.TopDownKeepsSorted | MergeSort.java:45-61 | a range that is already non-increasing comes back unchanged |
| TopDownSort.TopDownRangeStep | MergeSort.java:51-59 | given a split l < m < r with m = l + (r - l) / 2, sorting [l, m), then [m, r), then merging leaves the array's contents with [l, r) replaced by its sort, and counts the sort's comparisons |
| TopDownSort.TopDownRange | MergeSort.java:53-59 | the recursive sort of s[l..r) with m = l + (r - l) / 2 merges the sorts of s[l..m) and s[m..r) |
| TopDownSort.TopDownCountBound | MergeSort.java:45-61 | the recursive sort of n elements counts at most n * ceil(log2 n) comparisons |
| BottomUpSort.MergeStepAdvancesPass | MergeSort.java:77-78 | one `merge(list, temp, left, left + size, left + 2*size)` advances the inner loop's state: the part done and the part still to do together still make the same pass, and the counts add up |
| BottomUpSort.BottomUpFromStep | MergeSort.java:76 | one unfolding of `BottomUpFrom`, the proof step of the outer loop: one round of the outer loop is one pass at run length `size` followed by the rounds from run length `size * 2` |
| BottomUpSort.PassSorts | MergeSort.java:76-79 | if every block of length `size` is non-increasing, then after one pass every block of length 2 * size is non-increasing |
| BottomUpSort.PassPermutes | MergeSort.java:77-79 | one pass permutes the array |
| BottomUpSort.PassCount | MergeSort.java:77-79 | one pass over n elements counts at most n comparisons |
| BottomUpSort.SortedRunsBlock | MergeSort.java:76-79 | when the blocks of length w are sorted, each block [k*w, min((k+1)*w, n)) is non-increasing |
| BottomUpSort.BottomUpSorts | MergeSort.java:76-79 | the iterative sort gives a non-increasing permutation of the input |
| BottomUpSort.BottomUpKeepsSorted | MergeSort.java:76-79 | an input that is already non-increasing comes back unchanged |
| BottomUpSort.BottomUpCountBound | MergeSort.java:76-79 | the iterative sort of n elements counts at most n * ceil(log2 n) comparisons |
| Runs.CeilLog2Least | MergeSort.java:76 | the doubling `size = size * 2` from 1 reaches n after CeilLog2(n) rounds and not one fewer: 2^CeilLog2(n) >= n, and 2^(CeilLog2(n) - 1) < n when n > 1 |

## Left out

- `finishTime` and `getTime` (MergeSort.java:11, 33-35, 74, 80, 133-135) are not modelled. They read the wall clock (`System.nanoTime`).
- `UnsortedException` is not modelled. No method of `MergeSort` ever throws it, despite the `throws` clauses.
- `SortInterface` only declares the four operations and has no behaviour of its own. The class is modelled directly.
- The benchmark driver (`BenchmarkSorts`) and the report window (`BenchmarkReport`) are not modelled. Their work is random data generation, file and console I/O, floating-point statistics and a GUI.
- MergeSortEngine.MergeSort.RecursiveSort: requires `NoOverflow(n)`, as does IterativeSort. This means n * ceil(log2 n) and 3n both fit in a 32-bit `int`. Java's wrap-around of `count++` and `left + 2 * size` is not modelled for larger arrays.
- MergeSortEngine.MergeSort.RecursiveSortRange: requires `l <= r <= list.Length`, `list != temp` and `list.Length <= temp.Length`, and its indices are `nat`, so a negative `l` is excluded. The public Java method accepts any arguments. With `r - l <= 1` (including `r < l`) it returns at once. With `0 <= l` and `r > list.length` it raises no error: `merge` returns when `m >= n` and clamps `r` to `n` (MergeSort.java:92-98), so the call sorts `[l, min(r, n))`, but it splits from the unclamped range, so its count can differ from `TopDown` of that window. Only a negative `l` or a `temp` shorter than a merge window can make it throw `ArrayIndexOutOfBoundsException`. Its only caller, `recursiveSort(int[])`, passes `0`, `n` and a fresh `new int[n]`, which meet every requirement.
- MergeSortEngine.MergeSort.Merge: requires `list != temp`, `l <= m <= r` and a scratch array at least as long as the list. These are the only calls both sorts make. The contract does not state what is left in `temp` afterwards.
- MergeSortEngine.MergeSort.MergeLoop: the `k` loop of `merge` is written as its own method, with the clamped `r` passed in as `hi`. This keeps `list` outside the loop's frame. The steps and branches are those of the Java loop.
- MergeSortEngine.ArrayCopy: models `System.arraycopy` only for two distinct arrays. That is the only way `merge` uses it.
- MergeSortEngine.MergeSort.GetCount: returns an unbounded integer, not a 32-bit `int`. The count is shown to be at most `IntMax` after either sort.
- The cost of an already sorted input is not bounded by that of other arrangements; for the iterative sort such a bound is false (`SortedInputCountsMore`). What is proved for sorted input is that it comes back unchanged (`TopDownKeepsSorted`, `BottomUpKeepsSorted`).
- No equal-count lemma relates the two sorts, not even for lengths that are powers of two; in general the counts differ (`CountsDiffer`).
