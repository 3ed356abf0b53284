# Sorting algorithms — a verified Dafny model

This project models the class `SortingAlgorithms`. It has five in-memory
sorting routines for integer arrays and their two helpers:

- selection sort;
- bubble sort with an early exit;
- top-down merge sort over an inclusive range, with a two-buffer `merge`;
- quicksort over an inclusive range, with the Lomuto `partition`;
- counting sort for non-negative values.

How the model is set up:

- **The array is a value.** Each `void f(int[] arr, ...)` becomes a method
  `f(a: seq<T>, ...) returns (r: seq<T>)`. Here `a` is the array on entry
  and `r` is the array when the routine returns. Local arrays (merge's `L`
  and `R`, counting sort's `count` and `output`) are local sequences.
- **Elements carry a key.** The routines work on any element type `T`,
  compared through an integer `key: T -> int` (module `Order`). The Java
  `int[]` case is `T = int` with `key = Order.Id`. Keys let the model state
  stability: for every key `k`, the elements with key `k` keep their
  relative order (`Order.Filter`, `Order.Stable`).
- **Sorting a range.** The inclusive ranges of `mergeSort`, `merge`,
  `quickSort` and `partition` become half-open ranges `[lo, hi + 1)`.
  `Order.SortsRange(a, r, lo, hi, key)` says that `r[lo..hi]` is a sorted
  permutation of `a[lo..hi]` and that every index outside the range is
  unchanged.
- **Independent partners.** Each routine's result is compared with two
  independent definitions:
  - `Order.StableSortUnique` shows that a stable sorted arrangement is
    unique.
  - `CountingSort.Grouped` lists the elements of key 0, then key 1, and so
    on. `CountingSort.StableSortIsGrouped` shows that every stable sort
    produces exactly that list.
  - For integers, `Order.SortedPermutationUnique` shows that all five
    routines give the same array. It also shows that sorting twice changes
    nothing.

Modules:

- `Order` (order.dfy) holds the shared vocabulary.
- `SelectionSort`, `BubbleSort`, `MergeSort`, `QuickSort` and
  `CountingSort` hold one routine each.
- `Demo` holds the sample array of the demonstration driver.

## Model

| member | source | states |
|---|---|---|
| Order.Swap | src/main/java/SortingAlgorithms.java:22-24 | The three-assignment exchange through `temp` swaps the two positions, leaves every other position alone and keeps the multiset. |
| SelectionSort.MinIndex | src/main/java/SortingAlgorithms.java:13-20 | The inner loop returns an index in `[i, n)` whose key is at most every key of the suffix. Every earlier index of the suffix has a strictly larger key, so the strict `<` picks the first minimum. |
| SelectionSort.SelectStep | src/main/java/SortingAlgorithms.java:11-24 | Swapping the first minimum into position `i` extends the sorted prefix, which is no larger than anything after it. If the input was in order, that minimum is `a[i]` and nothing moves. |
| SelectionSort.Sort | src/main/java/SortingAlgorithms.java:8-25 | The array ends sorted and is a permutation of the input. An input already in order, including an empty or one-element array, comes back unchanged. |
| BubbleSort.SwapNeighboursStable | src/main/java/SortingAlgorithms.java:41-46 | Swapping neighbours whose keys are strictly out of order keeps every key's elements in their relative order. |
| BubbleSort.PassSwap | src/main/java/SortingAlgorithms.java:41-46 | A swap in a pass keeps the pass invariant, and it shows that the pass's prefix was not sorted. |
| BubbleSort.Pass | src/main/java/SortingAlgorithms.java:38-47 | One pass over `a[..m+1]` stably permutes only that prefix and moves a largest key to position `m`. It makes no swap if and only if the prefix was already sorted. |
| BubbleSort.Settled | src/main/java/SortingAlgorithms.java:37-47 | After pass `i`, the last `i+1` elements are in their final places: no element before them has a larger key. |
| BubbleSort.Sort | src/main/java/SortingAlgorithms.java:33-52 | The array ends sorted and is a stable permutation of the input. The early `break` is sound. An already sorted input comes back unchanged. |
| MergeSort.TakeLeft | src/main/java/SortingAlgorithms.java:90-93 | Writing `L[i]` keeps the merge invariant when `R`'s next key is not smaller. Ties go to `L`, which keeps the merge stable. |
| MergeSort.TakeRight | src/main/java/SortingAlgorithms.java:94-97 | Writing `R[j]` keeps the merge invariant when its key is strictly below `L`'s next key. |
| MergeSort.MergeRuns | src/main/java/SortingAlgorithms.java:88-113 | The three loops over two sorted buffers produce a sorted sequence whose length is the sum of the buffers' lengths. That sequence is a stable rearrangement of `L + R`. |
| MergeSort.Merge | src/main/java/SortingAlgorithms.java:72-114 | With both halves sorted, `a[left..right]` becomes their stable sorted merge and nothing outside the range changes. |
| MergeSort.HalvesAfterRecursion | src/main/java/SortingAlgorithms.java:62-65 | After the two recursive calls, each half is a stable sorted copy of its original and the outside of the range is untouched. |
| MergeSort.Sort | src/main/java/SortingAlgorithms.java:60-69 | If `left >= right` nothing changes. Otherwise `a[left..right]` becomes a stable sorted permutation of itself and every element outside the range is unchanged. |
| QuickSort.Scan | src/main/java/SortingAlgorithms.java:134-145 | After the loop, `[low, i]` holds keys below the pivot's and `(i, high)` holds keys at or above it. The pivot is still at `high`, only the range is rearranged, and it is a permutation. |
| QuickSort.PlacePivot | src/main/java/SortingAlgorithms.java:146-150 | The final swap puts the pivot at `i+1` with the smaller keys on its left and the larger-or-equal keys on its right. |
| QuickSort.Partition | src/main/java/SortingAlgorithms.java:132-151 | Returns `p` in `[low, high]` with `r[p]` equal to the original `a[high]`. Keys before `p` are strictly smaller, keys after it are at least as large, the range is permuted and the outside is unchanged. |
| QuickSort.AssembleSorted | src/main/java/SortingAlgorithms.java:124-127 | A partitioned range whose two sides are then sorted is sorted as a whole. |
| QuickSort.AssemblePermutation | src/main/java/SortingAlgorithms.java:124-127 | The partition and the two recursive calls together permute the range and leave its outside unchanged. |
| QuickSort.Sort | src/main/java/SortingAlgorithms.java:121-129 | If `low >= high` nothing changes, which covers the recursive calls on an empty side. Otherwise `a[low..high]` becomes a sorted permutation of itself and the outside is unchanged. |
| CountingSort.MaxKey | src/main/java/SortingAlgorithms.java:161-166 | Returns a key that bounds every key and is the key of some element. |
| CountingSort.Tally | src/main/java/SortingAlgorithms.java:168-172 | `count` has `max + 1` entries and `count[v]` is the number of elements with key `v`. |
| CountingSort.Accumulate | src/main/java/SortingAlgorithms.java:174-176 | After the prefix sums, `count[v]` is the number of elements with key at most `v`. |
| CountingSort.PlaceStep | src/main/java/SortingAlgorithms.java:179-182 | Each backward step writes inside `[0, n)`. It keeps the placement invariant: `count[v]` ends the unplaced part of `v`'s block, and every slot from there to the block's end holds its final element. |
| CountingSort.Place | src/main/java/SortingAlgorithms.java:178-182 | The backward placement fills the output buffer with exactly the reference arrangement `Grouped`. |
| CountingSort.GroupedIsSortResult | src/main/java/SortingAlgorithms.java:177-186 | The reference arrangement is sorted, a stable permutation of the input, and equal to the input when the input is already sorted. |
| CountingSort.Sort | src/main/java/SortingAlgorithms.java:158-186 | For a non-empty array with non-negative keys, the array ends sorted and is a stable permutation of the input. An already sorted input comes back unchanged. |
| CountingSort.StableSortIsGrouped | src/main/java/SortingAlgorithms.java:156-186 | Any stable sorted arrangement of an input with keys in `[0, m)` equals counting sort's reference arrangement, so every stable sort agrees with counting sort. |
| Order.StableSortUnique | src/main/java/SortingAlgorithms.java:55-58 | Two sorted sequences that stably rearrange each other are equal. |
| Order.SortedPermutationUnique | src/main/java/SortingAlgorithms.java:190-229 | Two sorted permutations of the same integers are equal. All five routines therefore print the same array, and sorting a second time changes nothing. |
| Demo.SampleSorted | src/main/java/SortingAlgorithms.java:191-229 | Every sorted permutation of the sample `{64, 25, 12, 22, 11}`, which is what each routine's contract promises, is `[11, 12, 22, 25, 64]`. |

## Left out

- `main` (lines 190-230) only prints results. The printing is left out, and
  its sample array appears only in `Demo.SampleSorted`.
- The complexity claims in the comments (O(n log n), O(n + k), the
  best case of bubble sort) are not functional behaviour, so they are not
  modelled. No step or pass counter is kept.
- Java's 32-bit `int` overflow is not modelled. That covers
  `(left + right) / 2` at line 62 and `max + 1` at line 168: the model uses
  unbounded integers. On the non-negative indices involved, Dafny's `/`
  agrees with Java's truncating division.
- Java throws on bad input and the model has preconditions instead:
  - an empty array or a negative value in `countingSort`;
  - `left`, `right`, `low` or `high` outside the array when the range is
    non-empty.
- Some copy loops are written as whole-sequence operations:
  - merge's copy loops into `L` and `R` (lines 79-85) are slices;
  - merge's writes into `arr[left..right]` are collected and spliced back
    over the range at the end (`L` and `R` are copies, so that range is
    never read during the merge);
  - counting sort's final copy loop (lines 184-186) is an assignment.
- `CountingSort.Place` starts the output buffer as a copy of the input
  instead of zeros. The buffer's initial contents are never read, because
  every slot is written before the result is used.
- MergeSort.Merge: requires both halves to be sorted, which is what
  `mergeSort` guarantees at its call. The Java method also runs on unsorted
  halves, and the model says nothing about that case.
- SelectionSort.Sort: does not claim stability, because selection sort is
  not stable in general. It only promises that an already sorted input is
  left as it is.
- QuickSort.Sort: does not claim stability, because Lomuto partitioning is
  not stable.
