# DeDup in Dafny

A model of the class `DeDup` (package `org.mustafa.utility`). The class finds
the distinct values of an `int[]` in four ways:

- `findDeDupJava8` filters a stream through a `HashSet`.
- `findDupe` builds a list by linear containment checks, which keeps the
  values in first-occurrence order.
- `findDupeSimple` sorts in place with a nested compare-and-swap loop and then
  compacts the array.
- `findDupeWithQuickSort` sorts in place with a recursive middle-pivot
  quicksort and then compacts the array.

The two sorts share the helper `swapNumbers`. Both sort-based strategies
share `removeDuplicatesAndPrint`, which drops a repeat by overwriting it with
the last active entry and shrinking the active length.

Every Java method is `void` and only logs. Each model instead returns the
value that would be logged:

- the `Set` of `findDeDupJava8`;
- the list built by `findDupe`;
- the sorted array and the `noDupList` prefix of the sort-based strategies.

An array's contents are a `seq<int>`. Each in-place method takes the
contents and returns the updated contents. The modules are:

- `DistinctSpec` (`distinct_spec.dfy`): reference notions that the algorithms
  are measured against. These are the set of values, sortedness, pairwise
  distinctness, multiplicity and the index of a first occurrence.
- `Sorting` (`sorting.dfy`): `swapNumbers`, the sorting loop of
  `findDupeSimple`, the partition loop of `quickSort`, and `quickSort` itself.
- `Compaction` (`compaction.dfy`): `removeDuplicatesAndPrint`.
- `DeDup` (`dedup.dfy`): the four public strategies.

Two behaviours of the code are modelled as the code behaves:

- The doc-comment of `removeDuplicatesAndPrint` (DeDup.java:151) says it
  works "once sorted", but its loop does not depend on sortedness, and its
  output need not be sorted. It pulls entries forward from the tail, so
  `[1, 1, 2, 3]` compacts to `[1, 3, 2]`. The contracts of the sort-based
  strategies therefore promise sortedness for the intermediate sorted array,
  and distinctness and the value set for the compacted list.
- `findDupeWithQuickSort` on an empty array calls `quickSort(0, -1, a)`. That
  reads `a[0]` for the pivot, which is an out-of-bounds read at index 0.

## Model

| member | source | states |
|---|---|---|
| Sorting.Swap | utility/src/main/java/org/mustafa/utility/DeDup.java:144-148 | the entries at `i` and `j` are exchanged, every other entry is unchanged, and the multiset of entries is preserved |
| Sorting.SwapTwice | utility/src/main/java/org/mustafa/utility/DeDup.java:144-148 | swapping the same two positions twice restores the array |
| Sorting.SimpleSort | utility/src/main/java/org/mustafa/utility/DeDup.java:70-77 | the nested loop leaves the array non-decreasing and a permutation of its input; the invariant says that after pass `i`, the entry at `i` is at most every later entry |
| Sorting.Partition | utility/src/main/java/org/mustafa/utility/DeDup.java:101-128 | the pivot is the middle entry; every read by the two scans is inside `[begin, last]`, with no bounds test in the scans, because an entry on the far side stops each scan; on exit they have crossed (`j < i`); entries in `[begin, i)` are at most the pivot and entries in `(j, last]` are at least it; both recursive ranges are strictly shorter; the range is permuted and nothing outside it moves |
| Sorting.QuickSort | utility/src/main/java/org/mustafa/utility/DeDup.java:99-136 | for `0 <= begin <= last < length`, sorts `[begin, last]` non-decreasingly as a permutation of the array, leaves every entry outside the range unchanged, and terminates because each recursive range is strictly shorter |
| Compaction.OverwriteKeepsValues | utility/src/main/java/org/mustafa/utility/DeDup.java:162-165 | overwriting a repeat with the last active entry and shrinking the active length keeps the set of active values |
| Compaction.RemoveDuplicates | utility/src/main/java/org/mustafa/utility/DeDup.java:156-170 | `noDupList` is pairwise distinct and has the same set of values as the input; its length `lastIndex` is the number of distinct input values; an input that is already distinct comes back unchanged; sortedness of the input is not needed |
| DeDup.FilterByAdd | utility/src/main/java/org/mustafa/utility/DeDup.java:31-33 | models the stream filter as a left fold over the input in encounter order, carrying the `allItems` seen-set; `Set.add` succeeds exactly when the value is not yet in the set, and the fold keeps a value when the add's outcome matches the filter (a failed add for `!allItems.add(n)`); the kept set lies within the input's values and, when successful adds are kept, avoids the initial seen-set; its meaning is fixed exactly by DeDup.FailedAddsAreRepeats and DeDup.SuccessfulAddsAreNewValues |
| DeDup.FailedAddsAreRepeats | utility/src/main/java/org/mustafa/utility/DeDup.java:33 | the values whose `Set.add` fails, starting from a seen-set, are the values already seen plus those occurring at least twice in the rest |
| DeDup.FindDeDupJava8 | utility/src/main/java/org/mustafa/utility/DeDup.java:29-34 | the collected set is exactly the set of values with multiplicity at least 2, not the set of all distinct values |
| DeDup.SuccessfulAddsAreNewValues | utility/src/main/java/org/mustafa/utility/DeDup.java:24 | the values whose `Set.add` succeeds are exactly the values not seen before |
| DeDup.FindDistinctJava8 | utility/src/main/java/org/mustafa/utility/DeDup.java:22-24 | collecting the successful adds, as the comment describes, yields exactly the distinct values |
| DeDup.Java8ReportsOnlyRepeats | utility/src/main/java/org/mustafa/utility/DeDup.java:33-34 | on `[1, 2, 34, 34, 25, 1]` the method as written reports `{1, 34}`, while the distinct values are `{1, 2, 34, 25}` |
| DeDup.FindDupe | utility/src/main/java/org/mustafa/utility/DeDup.java:42-51 | the list has no repeats, has the same values as the input, lists them in first-occurrence order, and equals the input when the input has no repeats, so running it on its own output changes nothing |
| DeDup.FirstOccurrenceOrderUnique | utility/src/main/java/org/mustafa/utility/DeDup.java:37-51 | two repeat-free lists with the same values, both in first-occurrence order, are equal, so the contract of `findDupe` fixes its result |
| DeDup.FindDupeSample | utility/src/test/java/org/mustafa/utility/DepDupTest.java:16-18 | on `[1, 2, 34, 34, 25, 1]` (the first six entries of the test's sample) the only list meeting `findDupe`'s contract is `[1, 2, 34, 25]` |
| DeDup.FindDupeSimple | utility/src/main/java/org/mustafa/utility/DeDup.java:67-80 | the logged array is sorted and a permutation of the input; the logged unique list is repeat-free, has the input's value set, and has one entry per distinct value |
| DeDup.FindDupeWithQuickSort | utility/src/main/java/org/mustafa/utility/DeDup.java:89-95 | an empty array fails with an out-of-bounds read at index 0; any other array gives a sorted permutation and a repeat-free list of exactly its distinct values |
| DeDup.FindDupeWithQuickSortGuarded | utility/src/main/java/org/mustafa/utility/DeDup.java:89-95 | with empty input treated as nothing to sort, every array, the empty one included, gives a sorted permutation and a repeat-free list of exactly its distinct values |

## Left out

- Logging through log4j/lombok and the `Arrays.toString` formatting are left out. They are presentation only, and the models return the logged values instead.
- Timing with `System.currentTimeMillis` and the elapsed-time messages are left out. They are wall-clock I/O.
- The `HashSet` and stream machinery of `findDeDupJava8` is modelled by its meaning only. It is a sequential fold over the input with a set of values seen so far.
- The 32-bit range of Java `int` is not modelled. Entries are only compared, never combined arithmetically. The index arithmetic `begin + (last - begin) / 2` stays within the array for the ranges `quickSort` is called on.
- Java's truncating division is modelled only where it matters. That is the empty-array case, where `(-1 - 0) / 2` is 0 in Java.
- Aliasing of the caller's array is not modelled. The sort-based strategies overwrite it in place, while the model returns new contents and leaves the input value untouched.
- A `null` array is not modelled, because a `seq<int>` cannot be null. In Java all four strategies throw `NullPointerException` on `null`: `Arrays.stream` dereferences it at DeDup.java:33, and `.length` does at :45, :70 and :91.
- The test class `DepDupTest` is not modelled. It calls each strategy on one fixed array and asserts nothing. Its first six values serve as the sample input of `DeDup.FindDupeSample` and `DeDup.Java8ReportsOnlyRepeats`.
- Compaction.RemoveDuplicates: the contract does not state the exact order of the compacted entries. It promises distinctness and the value set, which is what the logged output guarantees. The order produced by the tail-overwrite, for example `[1, 3, 2]` for `[1, 1, 2, 3]`, is not stated.

## Findings

| source | as written | input that shows it | evidently intended | confidence | as-written member | corrected member |
|---|---|---|---|---|---|---|
| utility/src/main/java/org/mustafa/utility/DeDup.java:33 | the filter keeps the values whose `Set.add` fails, so the set holds only the values that occur twice or more | `[1, 2, 34, 34, 25, 1]` gives `{1, 34}` | the distinct values `{1, 2, 34, 25}`, as the comment at line 24 ("when was able to successfully add to Set, collect them") and the log text "The uniques elements" at line 34 say | medium; not executed | DeDup.FindDeDupJava8 (shown by DeDup.Java8ReportsOnlyRepeats) | DeDup.FindDistinctJava8 |
| utility/src/main/java/org/mustafa/utility/DeDup.java:91-92 | `quickSort(0, length - 1, a)` is called even when the array is empty, and it reads `a[0]` for the pivot at line 104 | `[]` fails with an out-of-bounds read at index 0 | an empty result, as the other three strategies give for an empty array | medium; not executed | DeDup.FindDupeWithQuickSort | DeDup.FindDupeWithQuickSortGuarded |
