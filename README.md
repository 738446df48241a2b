# Merge sort of main.c, verified

This project models the sequential sorting core of a small MPI program.
`main.c` scatters an integer array over the processes. Each process sorts its
block with `mergeSort`. The root gathers the sorted blocks side by side and
merges them with `mergeSortWithDepth`, passing the number of processes as the
depth. The three C routines are modelled as Dafny methods on `array<int>`:

- `merge` (main.c:83-115) becomes `ArraySort.MergeRuns`;
- `mergeSort` (main.c:117-125) becomes `ArraySort.MergeSort`;
- `mergeSortWithDepth` (main.c:127-135) becomes `ArraySort.MergeSortWithDepth`.

All three work in place on the inclusive index range `[l..r]`, with `b` as
scratch space over the same indices. Each method states its whole new state
through a function on sequences:

- `Merging.Merge` is the two-pointer merge, with ties going left;
- `Halving.FullSort` is the recursive halving at `(l + r) / 2`;
- `Halving.SortWithDepth` is the same halving, continued only while the depth
  is above 1 and halved at each level.

The properties the program relies on are proved about these functions:

- sortedness, permutation and stability of the merge;
- sortedness and permutation of the full sort;
- what the depth-limited halving guarantees when its leaves are sorted;
- that the root's final call sorts the gathered blocks when the number of
  processes is a power of two.

Three modules follow that structure:

- `Merging` (merging.dfy) holds the merge and its properties. Stability is
  stated on elements labelled with their position (`Tagged`), because equal
  plain integers cannot be told apart.
- `Halving` (halving.dfy) holds the split point, both halvings, and the
  lemmas about the gather at the root.
- `ArraySort` (array_sort.dfy) holds the C routines as methods.

In `ArraySort`, `merge` keeps its C structure:

- the two-pointer `while` loop;
- one of the two tail loops that copy the rest of the unexhausted run;
- the copy back from `b` to `a`.

The body of each loop is a separate step method (`MergeStep`, `TailStep`)
that keeps the loop state `MergedSoFar`. The two recursive calls of each
sort are likewise grouped in `SortHalves` and `SortHalvesWithDepth`. This
grouping does not change the order of calls or writes.

The C pointers `int *a, int *b` become two distinct arrays. Both are at
least `r + 1` long, which is how `main` allocates them. C's `/` truncates
toward zero and Dafny's does not. The two agree here: the midpoint divides
`l + r >= 0`, and `depth / 2` is only computed when `depth > 1`.

main.c has no pairwise exchange between processes. Its only communication is
`MPI_Scatter` and `MPI_Gather` (main.c:43, 55), followed by the depth-limited
merge at the root (main.c:58). The model follows that code.

## Model

| member | source | states |
|---|---|---|
| Merging.Merge | main.c:90-111 | the merge of two runs is exactly as long as both runs together |
| Merging.MergePermutes | main.c:90-111 | the merge holds exactly the multiset union of the two runs: nothing is dropped or duplicated |
| Merging.MergeSorted | main.c:90-111 | merging two non-decreasing runs gives a non-decreasing result |
| Merging.SortedPermutationIsUnique | main.c:117-125 | two sorted sequences with the same multiset are equal, so a sorting routine's result is determined by its input's elements |
| Merging.MergeForgetsTags | main.c:91-97 | the merge of labelled elements, comparing values with `<=`, drops to exactly the integer merge when the labels are removed |
| Merging.MergeTaggedPermutes | main.c:90-111 | the labelled merge is a permutation of its two runs |
| Merging.MergeIsStable | main.c:91 | with left-run labels below right-run labels, the labelled merge of two stably ordered runs is ordered by value and then by label: ties leave the left run first |
| Merging.MergeOfRunsIsStable | main.c:91 | for sorted runs labelled with their positions, the merge orders equal values by original position and, without labels, is `Merge` |
| Halving.Midpoint | main.c:120 | for `l < r` the midpoint satisfies `l <= m < r`, and the left half `[l..m]` has `LeftLength(r - l + 1)` elements |
| Halving.LeftLength | main.c:120 | the left half of two or more elements is non-empty, shorter than the range, and equal to the right half or one longer |
| Halving.FullSort | main.c:117-125 | the halving sort keeps the length of its input |
| Halving.SortWithDepth | main.c:127-135 | the depth-limited halving keeps the length of its input |
| Halving.FullSortSplits | main.c:119-123 | one unfolding of the definition of `FullSort`, with the split point and the halves as parameters: on two or more elements the full sort is the merge of the full sorts of the two halves; `ArraySort.FullSortRange` uses it on array ranges |
| Halving.DepthSplits | main.c:129-133 | one unfolding of the definition of `SortWithDepth`: at depth above 1 on two or more elements, the depth-limited sort merges the halves sorted with `depth / 2`; `ArraySort.DepthRange` uses it on array ranges |
| Halving.FullSortPermutes | main.c:117-125 | the full sort is a permutation of its input |
| Halving.FullSortSorts | main.c:117-125 | the full sort is non-decreasing |
| Halving.FullSortKeepsSorted | main.c:117-125 | an already sorted input comes out unchanged |
| Halving.SortWithDepthPermutes | main.c:127-135 | the depth-limited sort is a permutation of its input, whatever the depth |
| Halving.SortWithDepthSorts | main.c:127-135 | if every sub-range where the halving stops is sorted (`LeavesSorted`), the result is sorted |
| Halving.DeepEnoughIsFullSort | main.c:127-135 | from depth `2 * n - 2` on, the depth-limited sort of `n` elements is the full sort |
| Halving.BlocksAreLeaves | main.c:41-58 | for a power-of-two count of equally long sorted blocks, the halving with that count as depth stops exactly at the block boundaries, so its leaves are sorted |
| Halving.MergeGatheredBlocks | main.c:41-58 | the root's `mergeSortWithDepth` over the gathered blocks, with the process count as depth, yields a sorted permutation of everything gathered, when the count is a power of two |
| Halving.ThreeBlocksStayUnsorted | main.c:41-58 | with three processes the root's depth-3 merge halves once, at the middle of the array rather than at a block boundary: the sorted blocks [2], [1], [0] come out as the unsorted [0, 2, 1] |
| ArraySort.StartMerge | main.c:86-88 | with `h = l`, `j = m + 1`, `i = l`, nothing is taken yet and the loop state holds for the untouched scratch array |
| ArraySort.TakeLeft | main.c:91-93 | writing the left head at `i`, when the right run is exhausted or its head is not smaller, extends the merged prefix by the next element of the merge |
| ArraySort.TakeRight | main.c:94-96 | writing the right head at `i`, when the left run is exhausted or its head is larger, extends the merged prefix by the next element of the merge |
| ArraySort.FinishMerge | main.c:101-111 | once both runs are taken completely, the scratch range holds the whole merge and the rest of `b` is as before |
| ArraySort.MergeStep | main.c:90-99 | one pass of the loop takes `a[h]` when `a[h] <= a[j]` and `a[j]` otherwise, advances that index, leaves `a` unchanged, and keeps the loop state: `b[l..i]` is the merge's prefix of that length and the rest of `b` is as before |
| ArraySort.TailStep | main.c:101-111 | one pass of either tail loop copies the next element of the run that is not exhausted to `b[i]` and keeps the loop state |
| ArraySort.MergeIntoScratch | main.c:84-111 | after the loops, `b[l..r]` is the merge of `a[l..m]` and `a[m+1..r]`, and `b` outside `[l..r]` is unchanged |
| ArraySort.CopyBack | main.c:112-114 | the copy loop makes `a[l..r]` equal to `b[l..r]` and changes nothing else in `a` |
| ArraySort.MergeRuns | main.c:83-115 | `a` and `b` both end as their old contents with `[l..r]` replaced by the merge of the two runs, so `a[l..r] == b[l..r]` and nothing outside the range changes |
| ArraySort.MergeOutcome | main.c:83-115 | after `merge`, `a[l..r]` is a permutation of its old contents, sorted when both runs were sorted, and `a` outside `[l..r]` is unchanged |
| ArraySort.Halves | main.c:121-122 | the left call leaves the right half untouched, so after both calls the range holds the two sorted halves side by side and nothing outside it changed in `a` or `b` |
| ArraySort.MergeHalves | main.c:123 | merging the two halves placed side by side puts their merge over `[l..r]` in `a` and `b` and changes nothing else |
| ArraySort.FullSortRange | main.c:119-123 | the full sort of `[l..r]` is the merge of the full sorts of `[l..m]` and `[m+1..r]` at `m = (l + r) / 2` |
| ArraySort.DepthRange | main.c:129-133 | the same split for the depth-limited sort, with `depth / 2` on each half |
| ArraySort.MergeSort | main.c:117-125 | `a[l..r]` becomes `FullSort` of its old contents and `a` outside the range is unchanged; `b` outside `[l..r]` is unchanged, and `b[l..r]` ends equal to `a[l..r]` when `l < r` (the last `merge` copied it back) or stays as it was when `l >= r` |
| ArraySort.SortHalves | main.c:121-122 | the two recursive calls leave the full sorts of `[l..m]` and `[m+1..r]` side by side |
| ArraySort.MergeSortOutcome | main.c:117-125 | after `mergeSort`, `a[l..r]` is sorted and a permutation of its old contents, `a` outside is unchanged, and a range of at most one element is left as it was |
| ArraySort.MergeSortWithDepth | main.c:127-135 | `a[l..r]` becomes `SortWithDepth` of its old contents and `a` outside the range is unchanged; `b` outside `[l..r]` is unchanged, and `b[l..r]` ends equal to `a[l..r]` when `l < r` and `depth > 1`, or all of `b` stays as it was otherwise |
| ArraySort.SortHalvesWithDepth | main.c:131-132 | the two recursive calls with `depth / 2` leave the depth-limited sorts of both halves side by side |
| ArraySort.MergeSortWithDepthOutcome | main.c:127-135 | after `mergeSortWithDepth`, `a[l..r]` is a permutation of its old contents, sorted when every leaf sub-range was sorted, unchanged outside, and fully unchanged when `l >= r` or `depth <= 1` |

## Left out

- MPI start-up and shutdown, `MPI_Scatter`, `MPI_Gather` and `MPI_Barrier` (main.c:26-28, 43, 55, 78-79): message passing through a foreign library. The gather is modelled only by its result, the blocks laid side by side (`Halving.Concat`).
- Data generation with `srand` and `rand`, timing with `clock` and `double`, and all `printf` output, including the final comparison loop (main.c:32-37, 46-47, 59-70): I/O, library randomness and floating point.
- `qsort` and `cmpfunc` (main.c:12-14, 38): a library sort used only as the reference for the printed check.
- `malloc` and `free` (main.c:30-31, 42, 45, 53, 57, 71-76): the model takes the buffers as arrays of at least `r + 1` elements.
- connectivity.c is not part of this model: it is an all-pairs message test with no sorting logic.
- Halving.Midpoint: computes `(l + r) / 2` on unbounded integers. The C sum of two `int` indices could overflow past 2^31, but `main` sorts at most 130000000 elements, so `l + r` stays below that bound.
- Halving.MergeGatheredBlocks: assumes the gathered array is exactly the `P` blocks of `n / P` elements each. When `n` is not a multiple of `P`, `main` calls `mergeSortWithDepth` on all `n` positions, and the last `n mod P` of them were never written by the gather. The lemma also requires `P` to be a power of two; `ThreeBlocksStayUnsorted` shows the result for `P = 3`.
- ArraySort.MergeRuns, ArraySort.MergeSort, ArraySort.MergeSortWithDepth: require `a` and `b` to be different arrays. The C functions could be called with the same pointer twice, and then the copy back would be meaningless; `main` always passes two separate buffers.
