# Chronological merge of sorted log sources

This project models, in Dafny, the two merges of a small log-processing
repository. Each merge takes several log sources and prints every entry of
every source in date order. Each source already yields its entries in
non-decreasing date order. When all entries are printed, the merge calls the
printer's `done()` once.

- `solution/sync-sorted-merge.js`: the sources go into a binary min-heap
  (`MinHeap`) keyed by `compareSources` on `last.date`. The driver repeatedly
  removes the root source, prints its `last` entry, advances it with `pop()`
  and adds it back. A removed source that is drained is dropped.
- `solution/async-sorted-merge.js`: every turn a `reduce` scans the list for
  the source with the earliest entry, ties going to the later one. The loop
  prints that entry and awaits `popAsync()`. When the promise yields nothing,
  the source is spliced out of the list.

Files:

- `log_source.dfy` (module `LogSource`): the abstract source, the entry, and
  the printer as the sequence of calls made on it.
- `merge_order.dfy` (module `MergeOrder`): the loop invariant both merges
  keep, and the print, advance, drop and done steps proved against it.
- `sync_sorted_merge.dfy` (module `SyncSortedMerge`): the `MinHeap` class,
  whose `heap` field is a `seq` that its methods reassign, and the heap-driven
  merge.
- `async_sorted_merge.dfy` (module `AsyncSortedMerge`): the linear-scan merge.

A source is a value `Source(id, pending, drainedDate)`:

- `pending` holds the entries the source has not yet given up.
- `last` is `pending[0]`, and a source is drained when `pending` is empty.
- `id` stands for object identity, which `indexOf` compares by.
- `drainedDate` is the date `last.date` still reports once the source is
  drained. The model leaves it arbitrary.

The printer is the list of `Print(entry)` and `Done` calls made on it.

Both `Merge` methods prove the same theorem:

- the trace is a run of prints followed by exactly one `done()`;
- the printed entries are sorted by date;
- the printed entries are, as a multiset, exactly the entries of all sources.

The heap-driven merge allows sources that are drained from the start. The
linear-scan merge requires every source to start non-empty. It prints
`source.last` before it learns whether the source has anything, so a source
must offer an entry when the merge starts.

`remove` copies the last element to the root, pops the array and then sifts
the new root down (`solution/sync-sorted-merge.js:68-71`). The model does the
same.

## Model

| member | source | states |
|---|---|---|
| SyncSortedMerge.MinHeap.LeftChildIndex | solution/sync-sorted-merge.js:15-17 | the parent of the left child of i is i; for i >= 0 the child lies after i |
| SyncSortedMerge.MinHeap.RightChildIndex | solution/sync-sorted-merge.js:18-20 | the parent of the right child of i is i; the right child sits just after the left one |
| SyncSortedMerge.MinHeap.ParentIndex | solution/sync-sorted-merge.js:21-23 | floor((i-1)/2) is the p with i = 2p+1 or i = 2p+2; for i > 0 it lies in [0, i) |
| SyncSortedMerge.MinHeap.HasParent | solution/sync-sorted-merge.js:30-32 | hasParent(i) holds exactly when i > 0 (floor(-1/2) = -1 at the root) |
| SyncSortedMerge.MinHeap.HasLeftChild | solution/sync-sorted-merge.js:24-26 | for a node index i >= 0, a left child exists exactly when i lies in the first half of the heap, i < n/2 |
| SyncSortedMerge.MinHeap.HasRightChild | solution/sync-sorted-merge.js:27-29 | for i >= 0, a right child exists exactly when i < (n-1)/2; a node with a right child also has a left child |
| SyncSortedMerge.MinHeap.LeftChild | solution/sync-sorted-merge.js:33-35 | the left child of a node is an element of the heap and, on a valid heap, no earlier than the node |
| SyncSortedMerge.MinHeap.RightChild | solution/sync-sorted-merge.js:36-38 | the right child of a node is an element of the heap and, on a valid heap, no earlier than the node |
| SyncSortedMerge.MinHeap.Parent | solution/sync-sorted-merge.js:39-41 | the parent of a non-root node is an element of the heap and, on a valid heap, no later than the node |
| SyncSortedMerge.MinHeap.IsEmpty | solution/sync-sorted-merge.js:42-44 | the heap is empty exactly when peek finds nothing |
| SyncSortedMerge.MinHeap.constructor | solution/sync-sorted-merge.js:11-13 | a new heap is empty and satisfies the heap property |
| SyncSortedMerge.MinHeap.Swap | solution/sync-sorted-merge.js:48-52 | positions i and j are exchanged, every other slot and the length are unchanged, the multiset of contents is kept |
| SyncSortedMerge.MinHeap.Peek | solution/sync-sorted-merge.js:54-59 | nothing exactly when the heap is empty, otherwise the root, which on a valid heap is no later than any element; reads only |
| SyncSortedMerge.MinHeap.Remove | solution/sync-sorted-merge.js:64-73 | on an empty heap returns nothing and leaves the heap as it was; otherwise returns the old root, no later than every element, shrinks the heap by one, removes exactly that element from the multiset and keeps the heap property |
| SyncSortedMerge.MinHeap.Add | solution/sync-sorted-merge.js:75-78 | grows the heap by one, adds the item to the multiset of contents and keeps the heap property |
| SyncSortedMerge.MinHeap.HeapifyUp | solution/sync-sorted-merge.js:80-89 | from a heap broken only at the last slot, sifting up restores the heap property without changing the contents; terminates as the index decreases |
| SyncSortedMerge.MinHeap.HeapifyDown | solution/sync-sorted-merge.js:91-108 | from a heap broken only at the root, sifting down (to the right child only when strictly earlier, stopping when strictly earlier than that child) restores the heap property without changing the contents; terminates as the index increases |
| SyncSortedMerge.RootIsMin | solution/sync-sorted-merge.js:64-73 | in a heap the root is no later than any element, so remove returns an earliest source |
| SyncSortedMerge.CompareSources | solution/sync-sorted-merge.js:112-117 | -1 exactly when a's date is strictly earlier, otherwise 1, never 0, so equal dates compare as "greater" both ways |
| SyncSortedMerge.Merge | solution/sync-sorted-merge.js:123-138 | given sources sorted by date: only prints, then done() once; the printed entries are sorted and are exactly the entries of all sources; the loop terminates as unprinted entries plus heap size decrease |
| MergeOrder.PrintAndAdvance | solution/sync-sorted-merge.js:130-134 | printing the earliest source's entry and putting the advanced source back keeps the output sorted and complete-so-far and consumes exactly one pending entry |
| MergeOrder.DropDrained | solution/sync-sorted-merge.js:131 | a removed source that is drained is discarded without printing and without losing any pending entry |
| MergeOrder.StartMerge | solution/sync-sorted-merge.js:124-127 | before any print, the entries pending in the sources are exactly all entries of the input |
| MergeOrder.FinishMerge | solution/sync-sorted-merge.js:137 | once nothing is pending, calling done() makes a trace of prints followed by one done(), sorted and complete |
| LogSource.Source.Drained | solution/sync-sorted-merge.js:131 | a source is drained exactly when it has no entry left to offer |
| LogSource.Source.Last | solution/async-sorted-merge.js:20 | `last` is one of the source's pending entries and, for a source sorted by date, the earliest of them |
| LogSource.Source.LastDate | solution/sync-sorted-merge.js:113 | `last.date` is the date of the entry the source offers; for a drained source it is the date the source still reports |
| LogSource.Printed | solution/sync-sorted-merge.js:132 | the entries handed to `print`, never more than the calls made, and for a trace of prints only exactly one entry per call, in call order |
| LogSource.Source.Pop | solution/sync-sorted-merge.js:133 | advancing a non-empty source gives up exactly its last entry; a drained source stays drained; its identity is unchanged |
| LogSource.Source.PopAsync | solution/async-sorted-merge.js:22-24 | the awaited promise gives the advanced source and nothing exactly when it is now drained, otherwise its new last entry |
| LogSource.PendingPick | solution/sync-sorted-merge.js:129-136 | the multiset of entries still pending in a collection of sources is the same whichever source is taken out first |
| AsyncSortedMerge.CompareSources | solution/async-sorted-merge.js:6-11 | returns a when a's date is strictly earlier, otherwise b (ties go to b); the result is no later than either |
| AsyncSortedMerge.FindSourceWithLeastRecentEntry | solution/async-sorted-merge.js:13-15 | on a non-empty list, a member no later than every member, sitting at a position after which every member is strictly later, so on ties the last earliest one |
| AsyncSortedMerge.IndexOf | solution/async-sorted-merge.js:27 | -1 exactly when no element is the same object, otherwise the first position holding it |
| AsyncSortedMerge.Splice | solution/async-sorted-merge.js:28 | splice(start, 1) at a valid start removes exactly that element and keeps the order of the rest; past the end it changes nothing; -1 removes the last element |
| AsyncSortedMerge.IndexOfDistinct | solution/async-sorted-merge.js:27 | in a list of distinct objects indexOf finds an object at its one position |
| AsyncSortedMerge.Chosen | solution/async-sorted-merge.js:19-27 | in a list of distinct objects, the position indexOf finds for the chosen source is a real position holding exactly that source |
| AsyncSortedMerge.Turn | solution/async-sorted-merge.js:19-29 | one turn prints the chosen source's entry as it was before advancing and changes only the chosen position: the source is advanced in place there, or spliced out of it exactly when the advance yields nothing, the rest keeping their order |
| AsyncSortedMerge.DropTurn | solution/async-sorted-merge.js:23-29 | a turn whose source gives up its final entry keeps the objects distinct and undrained, the output sorted and complete-so-far, and consumes exactly one pending entry |
| AsyncSortedMerge.AdvanceTurn | solution/async-sorted-merge.js:22-24 | a turn whose source still has entries after the advance keeps the objects distinct and undrained, the output sorted and complete-so-far, and consumes exactly one pending entry |
| AsyncSortedMerge.TurnStep | solution/async-sorted-merge.js:18-30 | whatever a turn does with the chosen source, it keeps the objects distinct and undrained, keeps the output sorted and complete-so-far, and consumes exactly one pending entry, so the loop terminates |
| MergeOrder.PrintAndDrop | solution/async-sorted-merge.js:23-29 | printing the chosen source's final entry and splicing the source out keeps the output sorted and complete-so-far and consumes exactly that entry |
| AsyncSortedMerge.Merge | solution/async-sorted-merge.js:17-32 | given distinct sources, each sorted by date and non-empty: only prints, then done() once; the printed entries are sorted and are exactly the entries of all sources |

## Left out

- How a `LogSource` is built, and what `last` holds once a source is
  drained. That class is not part of this model. A source is its list of
  pending entries, and `drainedDate` stands for the date a drained source
  still reports.
- Rendering by the printer. The model records only the sequence of `print`
  and `done` calls.
- JavaScript `Date` objects. Dates are integers.
- The promise machinery of `popAsync`. The model advances the source
  synchronously. The printed entry is captured before the advance, so
  printing while the promise is pending changes nothing.
- AsyncSortedMerge.Turn: the loop body is a method of its own. In the model
  the print follows the advance; in the source it happens between starting
  and awaiting the promise. The printed entry is the same.
- AsyncSortedMerge.Merge: the source splices the caller's own array. The model
  works on a copy of the list, which ends empty.
- AsyncSortedMerge.Merge: a list that holds the same source object twice, and
  a source that is drained from the start, are excluded by its `requires`. The
  source is not written for either.
- SyncSortedMerge.Merge: a list that holds the same source object twice is
  modelled as two independent sources. The model does not capture aliasing.
- SyncSortedMerge.MinHeap.LeftChild, RightChild, Parent: they require an
  existing child or parent. JavaScript would return `undefined` otherwise, but
  the heap never calls them that way.
- The unused `findSourceWithLeastRecentEntry` at
  `solution/sync-sorted-merge.js:119-121`. Nothing calls it, and its `reduce`
  would feed the numbers -1 and 1 back in as sources.
- Batched prefetching with per-source capacity limits and concurrent refill
  rounds. These two files do not implement them.
