# swort `Slice`: a verified model

The Go package `swort` wraps a slice of items with a *sort value extractor*,
a function from an item to an ordered key. A `Slice` answers:

- `Len`: the number of items.
- `SortByAsc` / `SortByDesc`: the items ordered by key, ascending or descending.
- `SearchFromOriginal`, `SearchFromSortedByAsc`, `SearchFromSortedByDesc`:
  the index of the first item whose key equals the key of a probe item,
  in the original order or in one of the sorted orders. A key that no item
  has gives `(Len(), false)`.

Nothing is computed up front. The first call that needs them fills caches in
the struct, and later calls reuse them:

- `initialize` groups the items by key in one pass. It records the distinct
  keys in first-seen order (`sortValues`), the items of each key in original
  order (`sortValue2Item`), and the first index of each key
  (`originalSortValue2Idx`).
- `sortByAsc` sorts the distinct keys and concatenates their groups. The
  result is a stable ascending sort. It records the first index of each key
  in it.
- `sortByDesc` writes the ascending order back to front into a new buffer,
  and records the first index of each key in the result.

The model has four modules:

- `KeySort` (`key_sort.dfy`) sorts the distinct keys. It stands in for the
  standard library sort the original calls. It is an insertion sort proved to
  return an ascending permutation, strictly ascending when the keys are
  distinct.
- `KeyedSeq` (`keyed_seq.dfy`) holds the specification functions over a
  sequence and a key function, and the lemmas about them:
  - `Filter` gives the items with one key, in order.
  - `Groups` gives the grouping map, `DistinctKeys` the keys in first-seen
    order, and `FirstIndexMap` the first index of each key.
  - `Flatten` concatenates groups in a given key order, and `Reverse`
    reverses a sequence.
  - `IsStableSortOf(r, s, key)` is the declarative meaning of a stable sort:
    the keys of `r` never decrease, and for every key `r` and `s` hold the
    same items in the same order.
- `Swort` (`slice.dfy`) is the class `Slice`:
  - Its items and extractor are `const`, so nothing can change the original
    sequence.
  - Each lazily filled cache is an `Option` field; `None` stands for Go's
    `nil`.
  - The invariant `Valid()` ties every filled cache to the specification
    functions of `items`.
  - The members with loops of their own are `Initialize`, `FlattenGroups` and
    `SortByDescLazy` here, and `SortKeys` and `FindSlot` in `KeySort`. Each
    loop is proved against those functions.
  - The other methods call these and are proved through their contracts.
    Each contract says which caches the call may fill, and that a filled
    cache is left as it was.
- `SliceExamples` (`examples.dfy`) covers the repository's test scenario:
  items `[5, 2, 6, 3, 1, 5, 4]` keyed by their value. The expected results are
  proved from the contracts alone.

Keys are mathematical integers. Items are any type with a default value
(`T(0)`), which stands in for Go's zero value in `make([]IT, l)`.

## Model

| member | source | states |
|---|---|---|
| Swort.Slice.MakeSlice | slice.go:20-25 | The new slice holds the given items and extractor, and no cache is filled yet. |
| Swort.Slice.Len | slice.go:27-29 | The length is the number of items. |
| Swort.Slice.Initialize | slice.go:125-151 | If nothing was cached yet, the new state is as follows: the first-index map equals `FirstIndexMap(items)`, the groups equal `Groups(items)`, and the key list equals `DistinctKeys(items)`. If the caches were already filled, nothing changes. The sorted caches are never touched. |
| Swort.FlattenGroups | slice.go:83-95 | The nested loops over sorted keys and their groups produce `Flatten(keys, groups)`. The index map they build is its `FirstIndexMap`: the first key occurrence is recorded and later ones are skipped. |
| Swort.Slice.SortByAscLazy | slice.go:74-98 | It returns a stable ascending sort of the items and caches it with its first-index map. A cached result is returned with nothing changed. Afterwards the key list is strictly ascending, because the keys were sorted in place. |
| Swort.Slice.SortedKeysCoverItems | slice.go:79-81 | Sorting the first-seen distinct keys yields exactly the keys of the items, strictly ascending. |
| Swort.Slice.SortByDescLazy | slice.go:100-123 | The buffer of length `l`, filled from `ascSorted[l-1]` down to `ascSorted[0]`, is exactly `Reverse` of the ascending order. The index map is its `FirstIndexMap`. A cached result is returned unchanged, and an existing ascending cache is kept. |
| Swort.Slice.SortByAsc | slice.go:66-68 | The public ascending sort returns a stable sort of the items. A second call returns the same, cached sequence. |
| Swort.Slice.SortByDesc | slice.go:70-72 | The public descending sort returns the reverse of the cached ascending order. A second call returns the same, cached sequence. |
| Swort.Slice.SearchFromOriginal | slice.go:31-40 | `ok` holds iff some item has the probe's key. Then `idx` is the first index of that key in `items`; otherwise `idx == Len()`. |
| Swort.Slice.SearchFromSortedByAsc | slice.go:42-52 | `ok` holds iff some item has the probe's key. Then `idx` is the first index of that key in the ascending order; otherwise `idx == Len()`. |
| Swort.Slice.SearchFromSortedByDesc | slice.go:54-64 | `ok` holds iff some item has the probe's key. Then `idx` is the first index of that key in the descending order; otherwise `idx == Len()`. A filled descending cache leaves the state unchanged, and a filled ascending cache is kept. |
| KeySort.SortKeys | slice.go:81 | The result is ascending and a permutation (same multiset) of the keys. For duplicate-free keys it is strictly ascending. |
| KeySort.InsertKey | slice.go:81 | Inserting one key into an ascending sequence keeps it ascending and adds exactly that key. Strictness is kept when the key is new. |
| KeySort.FindSlot | slice.go:81 | The slot found lies after every key at most `x` and before every larger key. |
| KeyedSeq.FirstIndexMapCorrect | slice.go:132-146 | The domain of the first-index map is exactly the set of keys of the sequence. Each key maps to the lowest index holding it. |
| KeyedSeq.FirstIndexMapSnoc | slice.go:90-93 | Appending an item records its index only if its key is new. |
| KeyedSeq.FirstIndexUnique | slice.go:34-38 | A key has at most one first index. |
| KeyedSeq.DistinctKeysCorrect | slice.go:137-142 | The recorded keys are duplicate-free, are exactly the keys of the items, and appear in first-seen order. |
| KeyedSeq.Groups | slice.go:137-145 | The groups map has exactly the keys of the items, and each group is the per-key subsequence `Filter`. |
| KeyedSeq.GroupsSnoc | slice.go:137-145 | Appending an item extends only its own key's group, creating the group if needed. |
| KeyedSeq.GroupsAreKeyed | slice.go:87 | Every item in the group of `k` has key `k`. |
| KeyedSeq.FirstSeenGroupsPartition | slice.go:130-150 | The groups in first-seen key order together are a permutation of the items. Their lengths sum to `Len()`. |
| KeyedSeq.Filter | slice.go:137-145 | A per-key subsequence is no longer than the sequence, and all its items have that key. |
| KeyedSeq.FilterAppend | slice.go:145 | Filtering distributes over concatenation. |
| KeyedSeq.FilterNonEmpty | slice.go:137-138 | A key's subsequence is non-empty iff some item has the key. |
| KeyedSeq.FilterCount | slice.go:137-145 | The per-key subsequence keeps every copy of the items with that key and no other items. |
| KeyedSeq.FlattenFilter | slice.go:86-88 | Concatenating the groups of duplicate-free keys gives, for each key, exactly that key's group, or nothing for an absent key. |
| KeyedSeq.FlattenSorted | slice.go:86-88 | Concatenating groups in ascending key order gives non-decreasing keys. |
| KeyedSeq.FlattenIsStableSort | slice.go:79-97 | Concatenating the groups in strictly ascending order of all keys gives a stable sort of the items. |
| KeyedSeq.SameGroupsPermutation | slice.go:86-88 | Sequences with equal per-key subsequences are permutations of each other. |
| KeyedSeq.StableSortPermutation | slice.go:74-98 | A stable sort is a permutation of the items and has the same keys. |
| KeyedSeq.SortedSameGroupsEqual | slice.go:74-98 | Two key-sorted sequences with equal per-key subsequences are equal. |
| KeyedSeq.StableSortUnique | slice.go:74-98 | There is only one stable sort, so the cached ascending order is fully determined by the items. |
| KeyedSeq.Reverse | slice.go:111-112 | Position `i` of the reversal holds position `l-1-i` of the input. |
| KeyedSeq.ReversePermutation | slice.go:109-120 | The reversal is a permutation. |
| KeyedSeq.FilterReverse | slice.go:109-120 | Reversing reverses each per-key subsequence. |
| KeyedSeq.DescendingView | slice.go:100-123 | The descending order has non-increasing keys and is a permutation of the items. For each key it lists that key's items in reverse original order. |
| KeyedSeq.DescFirstIndex | slice.go:113-117 | In the descending order, the first index of a key is `Len()` minus its first ascending index minus the size of its group. |
| KeyedSeq.ReverseFirstIsLast | slice.go:111-117 | The first index of a key in the back-to-front copy is the position, counted from the back, of the key's last index in the source. No later item has the key. |
| KeyedSeq.SortedBlock | slice.go:86-95 | In a key-sorted sequence, a key's items occupy one contiguous block from its first to its last index. |
| SliceExamples.ScenarioAscending | slice_test.go:22-28 | `[1, 2, 3, 4, 5, 5, 6]` is the stable sort of `[5, 2, 6, 3, 1, 5, 4]`. |
| SliceExamples.ScenarioAscendingOnly | slice_test.go:22-28 | Any stable sort of the scenario's items is `[1, 2, 3, 4, 5, 5, 6]`. |
| SliceExamples.ScenarioDescending | slice_test.go:33-39 | The reverse of that order is `[6, 5, 5, 4, 3, 2, 1]`. |
| SliceExamples.ScenarioKeys | slice_test.go:14 | The keys of the scenario's items are exactly 1 to 6. |
| SliceExamples.OriginalCasesHold | slice_test.go:55-91 | Each row of the original-order table is what the search contract promises: the first index for keys 5, 2, 6, 3, 1 and 4, and `(7, false)` for key 7. |
| SliceExamples.AscCasesHold | slice_test.go:111-147 | The same holds for each row of the ascending table against `[1, 2, 3, 4, 5, 5, 6]`, including index 4 for the duplicated key 5. |
| SliceExamples.DescCasesHold | slice_test.go:168-204 | The same holds for each row of the descending table against `[6, 5, 5, 4, 3, 2, 1]`, including index 1 for the duplicated key 5. |
| SliceExamples.LookupMatches | slice_test.go:93-97 | Any result that meets a search contract equals the row's expected index and flag. |
| SliceExamples.ScenarioSearchFromOriginal | slice_test.go:13-98 | The length is 7, and the lookups of the whole original-order table return the expected answers, in order. |
| SliceExamples.ScenarioSortByAsc | slice_test.go:22-31 | The ascending order is as expected. A second call returns the same sequence, and the items are unchanged. |
| SliceExamples.ScenarioSearchFromSortedByAsc | slice_test.go:100-155 | After sorting ascending, the lookups of the whole ascending table return the expected answers, in order. |
| SliceExamples.ScenarioSortByDesc | slice_test.go:33-42 | The descending order is as expected, and a second call returns the same sequence. |
| SliceExamples.ScenarioSearchFromSortedByDesc | slice_test.go:157-212 | After sorting descending, the lookups of the whole descending table return the expected answers, in order. |

## Left out

- Concurrency: the original has no locking and the model is sequential.
- Keys are `int`. Go's `cmp.Ordered` also admits strings and floats. For floating-point keys, NaN breaks the total order that the sort and the map lookups rely on.
- The sort of the distinct keys: the standard library's pattern-defeating quicksort is replaced by an insertion sort. It returns a new sequence that is assigned back to `sortValues`, instead of permuting the slice in place. Only its result matters, because the keys are distinct.
- Building the sorted caches: the original writes into the cache fields inside its loops. It appends to `ascSortedItems` and sets entries of `ascSortValue2Idx`, `descSortedItems` and `descSortValue2Idx`. The model builds each sequence and map in locals and stores them in the fields when the loop ends. For the ascending cache this happens in `FlattenGroups`, for the descending one in `SortByDescLazy`. No other code runs in between, so nothing can observe the difference.
- Go slice mechanics are not modelled: capacity, `nil` versus empty, and aliasing. The original returns its cached slices and shares `items` with the caller, so a caller that writes into them changes the caches. In the model, sequences are values.
- The test file calls `.Items` and `.Search` on the results of `SortByAsc` and `SortByDesc`, a different API from `slice.go`, which returns plain slices. The scenarios are stated against `slice.go`'s API.
- Order within a key in the descending view: `sortByDesc` reverses a stable ascending sort, so the descending order lists items with equal keys in reverse original order. It is not a stable descending sort. `KeyedSeq.DescendingView` states this behaviour as the code has it.
