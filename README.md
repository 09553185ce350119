# ArraySeq, BinSearchMap and LinkedMap in Dafny

This project models three C++ container templates and proves properties of the model:

- `ArraySeq<T>` (`arrayseq.h`) is a growable array. It stores `count` elements in a buffer of `capacity` slots. The buffer starts empty, and when it is full it grows to 1 from 0 or doubles. It supports indexed read and write, insertion and erasure at a position with shifting, and a linear `contains`. It also has two in-place sorts, a top-down merge sort and a quick sort that uses the first element as pivot.
- `BinSearchMap<K, V>` (`binsearchmap.h`) keeps (key, value) pairs in an `ArraySeq`. It finds keys with a binary search (`bin_search`) over a copy of the keys taken in storage order.
- `LinkedMap<K, V>` (`linkedmap.h`) is an association list. Its pairs are kept in insertion order in a linked sequence and found by linear scans.

Modules:

- `Results` has `Result<T>`. It is the value of an operation that can throw `out_of_range`.
- `Sorting` states what the sorts compute, as functions on sequences. `Merge` is the merge step. `MergeSorted` is the result of the top-down merge sort with its split at `mid = (start + end) / 2`. `MergeRanges` mirrors the merge loops index by index. The module proves that these results are sorted permutations and that any two sorted permutations are equal.
- `ArraySeqs` contains the class `ArraySeq` over an `array`, and the two sorts as methods on an `ArraySeq<int>`. Each method is proved against the functions of `Sorting`.
- `Maps` has `KeysOf`, the keys of a pair sequence, and `KeysBetween`, the filter used by `find_keys`. Both maps use them.
- `BinSearchMaps` contains the class `BinSearchMap`, whose field is an `ArraySeq` of pairs. `Probe` and `Search` describe the `bin_search` loop as a function.
- `LinkedMaps` contains the class `LinkedMap`, whose field is a sequence of pairs. `FirstIndexOf` describes where its scans stop.

Keys are `int`, and every `throw std::out_of_range` becomes a `false` or `OutOfRange` result that leaves the state unchanged.

The code of `BinSearchMap` does not do what its comments promise. The model follows the code:

- The comment on `sorted_keys` (binsearchmap.h:49-50) promises ascending order, but the body copies the keys in storage order.
- `insert` puts a missing key at the last index `bin_search` probed, so the keys are not kept sorted. `BinSearchMaps.InsertOrderExample` shows keys `[1]` becoming `[2, 1]`, and then `[1, 2, 1]`, a duplicate.
- In that same storage `[2, 1]`, key 1 is present but `bin_search` reports it not found. This contradicts the comment on `bin_search` (binsearchmap.h:53-57, 182-186). `operator[]` and `erase` then report out_of_range for a key that is present, against their comments (binsearchmap.h:27-28, 36-39).
- `BinSearchMaps.SearchCorrectWhenSorted` proves that sorted keys are enough for `bin_search` to find exactly the keys that occur. The example above shows that on unsorted keys it can miss one.
- `BinSearchMaps.AbsentNotFound` proves that a missing key is never reported found, in any order.

## Model

| member | source | states |
|---|---|---|
| ArraySeqs.NextCapacity | arrayseq.h:257-263 | resize grows the capacity strictly, to 1 from 0 or to double, and keeps it a power of two |
| ArraySeqs.ArraySeq.constructor | arrayseq.h:103-109 | a new sequence has no elements and capacity 0 |
| ArraySeqs.ArraySeq.Copy | arrayseq.h:111-116 | the copy constructor yields the same elements as rhs in a fresh buffer |
| ArraySeqs.ArraySeq.Assign | arrayseq.h:126-139 | copy assignment leaves exactly rhs's elements and does not change rhs; self-assignment changes nothing |
| ArraySeqs.ArraySeq.Size | arrayseq.h:167-171 | size() is the number of elements |
| ArraySeqs.ArraySeq.Empty | arrayseq.h:174-178 | empty() holds exactly when there are no elements |
| ArraySeqs.ArraySeq.At | arrayseq.h:193-200 | read access gives the element at index, or out_of_range exactly when index is outside [0, count) |
| ArraySeqs.ArraySeq.Update | arrayseq.h:182-189 | write access replaces only the element at index; out of range changes nothing |
| ArraySeqs.ArraySeq.Insert | arrayseq.h:204-221 | succeeds exactly for index in [0, count]; the new contents are the old prefix, then elem, then the old rest; capacity grows exactly when the buffer was full; out of range changes nothing |
| ArraySeqs.ArraySeq.ShiftIn | arrayseq.h:212-220 | the shifting loop with temp1/temp2, then the store at index, puts elem at index and keeps every old element in order around it |
| ArraySeqs.ArraySeq.Erase | arrayseq.h:226-235 | succeeds exactly for index in [0, count); the new contents are the old ones without the element at index; the buffer and capacity stay |
| ArraySeqs.ArraySeq.Contains | arrayseq.h:240-250 | true exactly when elem occurs among the elements |
| ArraySeqs.ArraySeq.Resize | arrayseq.h:257-271 | moves to a fresh buffer of the next capacity with the same elements |
| ArraySeqs.InsertAtEnd | linkedmap.h:189 | insert(x, size()) appends x |
| ArraySeqs.MergeSort | arrayseq.h:299-303 | merge_sort() leaves MergeSorted of the old elements, which is sorted and a permutation of them |
| ArraySeqs.MergeSortRange | arrayseq.h:311-347 | merge_sort(start, end) replaces the range [start, end] by MergeSorted of it and leaves the rest alone |
| ArraySeqs.MergeHalves | arrayseq.h:327-343 | the three merge loops fill temp with MergeRanges of the two halves |
| ArraySeqs.MergeFronts | arrayseq.h:331-338 | the first merge loop stops when one half is used up; what it wrote, followed by the merge of what is left, is the merge of both halves |
| ArraySeqs.MergeStep | arrayseq.h:333-337 | one round moves the strictly smaller left front element, or else the right one, and keeps the loop's invariant |
| ArraySeqs.Put | arrayseq.h:334-337 | the store temp[i++] = ... extends the written prefix of temp by one element |
| ArraySeqs.CopyRest | arrayseq.h:339-343 | the second and third loops append the rest of one half to temp |
| ArraySeqs.CopyBack | arrayseq.h:345-346 | the last loop writes temp over [start, end] and nothing else |
| ArraySeqs.QuickSort | arrayseq.h:305-309 | quick_sort() leaves a sorted permutation of the old elements, equal to what merge_sort() leaves |
| ArraySeqs.Partition | arrayseq.h:354-368 | after partitioning, the pivot sits at end_pos with smaller elements before it and no smaller ones after it, inside [start, end], as a permutation |
| ArraySeqs.Swap | arrayseq.h:361-363 | the three-assignment swap exchanges two slots and keeps the rest |
| ArraySeqs.QuickSortRange | arrayseq.h:349-372 | quick_sort(start, end) sorts [start, end] as a permutation and leaves the rest alone |
| Sorting.LeftHalf | arrayseq.h:314 | the split at mid = (start + end) / 2 leaves both halves non-empty |
| Sorting.Merge | arrayseq.h:331-343 | the merge has as many elements as both inputs |
| Sorting.MergeSorted | arrayseq.h:311-347 | merge sort keeps the length |
| Sorting.MergeRanges | arrayseq.h:327-343 | the index-based merge of two closed ranges has the length of both |
| Sorting.MergeRangesIsMerge | arrayseq.h:331-343 | the merge loops over two ranges of one buffer compute Merge of those ranges |
| Sorting.MergeWithEmpty | arrayseq.h:339-343 | once one side is used up, merging copies the other |
| Sorting.MergePermutes | arrayseq.h:331-343 | merging loses and invents no element |
| Sorting.MergeOfSorted | arrayseq.h:331-343 | merging two sorted sequences gives a sorted one |
| Sorting.MergeSortedIsSortedPermutation | arrayseq.h:311-347 | merge sort's result is sorted and a permutation of its input |
| Sorting.MergeSortedRangeStep | arrayseq.h:312-320 | sorting both halves in place and merging them is merge sort of the whole range |
| Sorting.SortedAfterBothSides | arrayseq.h:366-370 | after the pivot swap and both recursive calls, the range is sorted and a permutation of the partitioned range |
| Sorting.BothSidesRearrange | arrayseq.h:369-370 | the two recursive calls, each rearranging one side and leaving the rest, together rearrange [start, end] |
| Sorting.SortedPermutationsAreEqual | arrayseq.h:349-372 | two sorted permutations of each other are equal, so both sorts give the same result |
| Maps.KeysOf | binsearchmap.h:173-180 | the keys of the pairs in storage order, one per pair |
| Maps.KeyInKeysOf | binsearchmap.h:147-155 | a key occurs exactly when some pair carries it |
| Maps.KeysBetween | binsearchmap.h:159-169 | the filter keeps no more keys than it is given |
| Maps.KeysBetweenMembers | binsearchmap.h:163-167 | a key is kept exactly when it occurs in the input and k1 <= k <= k2 |
| Maps.KeysBetweenCons | binsearchmap.h:165-166 | one step of the filter keeps a key exactly when k1 <= k <= k2, in front of the rest |
| Maps.KeysBetweenAppend | binsearchmap.h:163-167 | the filter works piece by piece, so it keeps the input's order |
| Maps.KeysBetweenCounts | linkedmap.h:171-181 | the filter keeps each key in range as often as it occurs and drops every other key |
| BinSearchMaps.Probe | binsearchmap.h:196-215 | a found key sits at the reported index; a non-empty range leaves an index inside the keys |
| BinSearchMaps.Search | binsearchmap.h:188-217 | an empty map reports not found and keeps the caller's index; otherwise the index is inside the keys, and a found key sits at it |
| BinSearchMaps.SearchFoundAtIndex | binsearchmap.h:182-217 | when bin_search reports found, the key is at the index it provides |
| BinSearchMaps.SearchIndexInRange | binsearchmap.h:188-217 | with the callers' index = 0, the index provided is in [0, size - 1] on a non-empty map and 0 on an empty one |
| BinSearchMaps.AbsentNotFound | binsearchmap.h:188-217 | a key that does not occur is never reported found, whatever the order of the keys |
| BinSearchMaps.ProbeFindsPresentKey | binsearchmap.h:196-215 | on sorted keys, a key present in [start, end] is found |
| BinSearchMaps.SearchCorrectWhenSorted | binsearchmap.h:188-217 | on sorted keys, bin_search reports found exactly when the key occurs |
| BinSearchMaps.InsertOrderExample | binsearchmap.h:119-125 | inserting 2 into keys [1] puts it at index 0, and then 1 is not found in [2, 1], so insert neither keeps keys sorted nor avoids duplicates |
| BinSearchMaps.BinSearchMap.constructor | binsearchmap.h:60-61 | a new map has no pairs |
| BinSearchMaps.BinSearchMap.Size | binsearchmap.h:75-79 | size() is the number of pairs |
| BinSearchMaps.BinSearchMap.Empty | binsearchmap.h:82-86 | empty() holds exactly when there are no pairs |
| BinSearchMaps.BinSearchMap.SortedKeys | binsearchmap.h:172-180 | a fresh ArraySeq of the keys in storage order, one per pair |
| BinSearchMaps.BinSearchMap.BinSearch | binsearchmap.h:187-217 | the loop's found flag and index are Search of the keys, the key and the caller's index |
| BinSearchMaps.BinSearchMap.Insert | binsearchmap.h:119-125 | when bin_search does not find the key, the pair is inserted at the index it provides; otherwise nothing changes; the buffer stays or is fresh |
| BinSearchMaps.BinSearchMap.Erase | binsearchmap.h:131-142 | when bin_search finds the key, the pair at its index is removed; otherwise out_of_range and nothing changes; the buffer stays |
| BinSearchMaps.BinSearchMap.Lookup | binsearchmap.h:104-114 | the value of the pair at the index bin_search finds, or out_of_range exactly when it does not find the key |
| BinSearchMaps.BinSearchMap.Update | binsearchmap.h:90-100 | sets the value, not the key, of the pair bin_search finds; otherwise out_of_range and nothing changes |
| BinSearchMaps.BinSearchMap.Contains | binsearchmap.h:146-155 | true exactly when some pair has the key |
| BinSearchMaps.BinSearchMap.FindKeys | binsearchmap.h:158-169 | a fresh ArraySeq, with a fresh buffer, of the keys in [k1, k2] of sorted_keys(), in that order |
| LinkedMaps.FirstIndexOf | linkedmap.h:90-94 | the scan stops at a pair with the key, or reports -1 |
| LinkedMaps.FirstIndexOfIsFirst | linkedmap.h:139-147 | the scan reports -1 exactly when the key is absent, and otherwise no earlier pair has the key |
| LinkedMaps.FirstIndexOfAppend | linkedmap.h:124-128 | after insert appends (k, v), a key already present is found where it was, and an absent k is found at the new last pair |
| LinkedMaps.FirstIndexAt | linkedmap.h:139-147 | a pair with the key that has no earlier pair with the key is the one the scan stops at |
| LinkedMaps.LinkedMap.constructor | linkedmap.h:60-64 | a new map has no pairs |
| LinkedMaps.LinkedMap.Size | linkedmap.h:70-74 | size() counts one key per pair and is 0 exactly for no pairs |
| LinkedMaps.LinkedMap.Empty | linkedmap.h:77-81 | empty() holds exactly when size() is 0 |
| LinkedMaps.LinkedMap.Insert | linkedmap.h:124-128 | appends the pair without looking for the key |
| LinkedMaps.LinkedMap.Contains | linkedmap.h:158-167 | true exactly when some pair has the key |
| LinkedMaps.LinkedMap.FindFirst | linkedmap.h:139-147 | when the key is present, the scan with break stops at the first pair with the key |
| LinkedMaps.LinkedMap.Lookup | linkedmap.h:104-119 | the value of the first pair with the key, or out_of_range exactly when the key is absent |
| LinkedMaps.LinkedMap.Update | linkedmap.h:85-100 | sets the value of the first pair with the key and keeps all keys; out_of_range changes nothing |
| LinkedMaps.LinkedMap.Erase | linkedmap.h:134-154 | removes exactly the first pair with the key and keeps the others in order; out_of_range changes nothing |
| LinkedMaps.LinkedMap.AllKeys | linkedmap.h:184-192 | a fresh ArraySeq of the keys in insertion order |
| LinkedMaps.LinkedMap.FindKeys | linkedmap.h:170-181 | a fresh ArraySeq, with a fresh buffer, of the keys in [k1, k2] of all_keys(), in insertion order |
| LinkedMaps.LinkedMap.SortedKeys | linkedmap.h:195-205 | a fresh ArraySeq, with a fresh buffer, of the keys, merge-sorted: ascending and a permutation of the keys in insertion order |

## Left out

- `operator<<` (arrayseq.h:282-295) is not modelled, because it only writes output.
- The destructor, the move constructor and the move assignment are not modelled, because Dafny has no explicit deallocation or ownership transfer. The Dafny classes are garbage-collected references.
- `make_empty` sets count and capacity to 0 but keeps the pointer. It is modelled inside `ArraySeqs.ArraySeq.Assign` as a fresh empty buffer, keeping the buffer's length equal to capacity.
- The bare `sort()` that the header declares but never defines is not modelled. The `Map` base class (`map.h`) is not part of this model.
- The linked sequence behind `LinkedMap` is not part of this model. `LinkedMap` holds a Dafny sequence of pairs, and that sequence's `insert(x, size())` and `erase(i)` are sequence append and removal.
- ArraySeqs.ArraySeq.Insert: does not model 32-bit overflow of `count`, `capacity` or the doubled capacity. Integers are unbounded.
- ArraySeqs.ArraySeq.Insert: `elem` is a value. A C++ call whose `elem` refers into the same sequence is not modelled. Such a call reads the shifted slot, or a freed buffer after resize. No caller in these three containers makes such a call.
- Sorting.LeftHalf, BinSearchMaps.Probe: do not model 32-bit overflow of the midpoint `(start + end) / 2` (arrayseq.h:314, binsearchmap.h:198). Integers are unbounded.
- The elements of `ArraySeq` need a default value and equality (`T(0,==)`). The default stands for a slot of `new T[capacity]` that was never written; insert reads such a slot when index == count. Equality is what `contains` uses.
- Keys are `int`, and the two sorts are modelled for `ArraySeq<int>` only, where `<` is the integers' order. The maps sort only their keys.
- The helpers `ShiftIn`, `MergeFronts`, `MergeStep`, `Put`, `CopyRest`, `CopyBack`, `Swap`, `FindFirst` and `InsertAtEnd` split a source function's loops or repeated statements into separate methods. `FindFirst` is the scan that both `operator[]` and `erase` of `LinkedMap` run once `contains` holds. In the source the scan in `operator[]` returns directly from inside the loop.
- Stability of merge sort is not stated. The merge takes the right element on ties, and for `int` keys this is not observable.
- The sortedness that the comments on `BinSearchMap` suggest is not modelled, because the code does not maintain it (see `BinSearchMaps.InsertOrderExample`).
