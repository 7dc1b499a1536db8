# Verification of the storage engine

This project models the storage engine of `project2` and proves it correct: the paged B+ tree index with its latch
crabbing, iterator and integrity checks; the buffer pool with its LRU replacer; the extendible hash table that serves
as page table; slotted table pages, the table heap and transaction commit and abort; and the reader/writer latch.

The parts, and what they say:

- **B+ tree** (`TreeModel`, `TreeSplit`, `TreeMerge`, `TreeState`, `BPlusTreePage`, `PagePool`, `BPlusTree`,
  `IndexIterator`, `BPlusTreeRuns`). Pages refer to each other by page id only. The invariant gives every page a level
  and a half-open key interval and says page by page how a page fits its parent, its children and, for leaves, its
  sibling. Off the leftmost spine the "invalid" key in slot 0 of an internal page equals the separator in the parent;
  that is why internal redistribution, which never looks at the parent's separator, is right. Insert and Remove are
  followed through all recursive splits, merges, redistributions and root changes; together with GetValue and the
  iterator they refine a finite map, keep all size bounds, give back every latch and pin, and write only what the
  crabbing protocol has latched: the path from the lowest page down that one pair more or less cannot overflow or make
  too small. Every page capacity from 2 (leaf) and 4 (internal) on is covered.
- **Buffer pool** (`PoolState`, `BufferPool`, `BufferPoolRuns`, `LruReplacer`). A client that writes only pinned pages,
  and whose last unpin after a write says dirty, sees a map from page ids to bytes, over whole runs; that the tree is
  such a client is proved with the tree. The victim is the frame that was unpinned least recently: the pool's list is
  the one that the same calls leave in the replacer.
- **Extendible hash** (`HashDirectory`, `ExtendibleHash`). The directory of shared buckets refines a map for any hash
  function, over whole runs, and the loop of Insert ends exactly when it can.
- **Table pages and transactions** (`PageLayout`, `TablePage`, `TableHeap`, `TransactionManager`, `TransactionRuns`). A
  page is an array of 512 bytes; its header, slot directory and tuples are read and written there. A committed
  transaction does what its requests ask for, and an aborted one leaves no trace.
- **Reader/writer latch** (`RWMutex`). A protocol of any number of threads with condition variables and spurious
  wakeups; its steps are exactly those of a latch described by what the threads hold.

`Common` holds the few definitions that several parts share.

Where a promise of the code does not hold in general, the exact condition is proved:

- the header record names the root after Insert unless an emptied tree is filled again (`BPlusTree.Insert`,
  `HeaderFallsBehind`);
- Begin(key) stands on a pair exactly if the leaf responsible for the key has a pair from the key on (`BeginAt`,
  `BeginMayMissItsPair`);
- Insert of the hash table ends exactly if the key is present or fewer stored keys than a bucket holds share its hash
  (`InsertFor`, `NeverRoom`);
- UpdateTuple keeps the page sound exactly if the length stays the same or no tuple in front is marked as deleted
  (`UpdatedTiledIff`, `MarkedTupleIsLost`);
- an abort takes back an update exactly if the tuple is still there and its page, with the slots that have been added to
  it since, has room for the tuples from before the update (`UndoLast`, `RoomToUndo`, `ShrunkTupleStays`);
- an abort leaves no trace exactly if, besides, no deletion names a tuple that was marked before (`Abort`,
  `UndoneIsAlike`, `MarkTakenBack`);
- a commit gets to its end exactly if each deletion names another tuple that is there (`Commit`, `MarkedTwice`);
- the latch can leave threads stuck exactly if there are two threads more than readers allowed, and at least two
  readers are (`StuckIff`).

The replacer's Size always returns 1; `GetVictimPage` is modelled with that value, and still answers right.

Keys, values and page ids are integers; the comparator is their order. `hide` statements in proofs only keep the
verifier's context small.

## Model

| member | source | states |
|---|---|---|
| `BPlusTreePages.BPlusTreePage.KeyIndex` | project2/src/page/b_plus_tree_leaf_page.cpp:55-75 | the binary search over the array returns the number of leading entries with a smaller key |
| `BPlusTreePages.BPlusTreePage.Lookup` | project2/src/page/b_plus_tree_leaf_page.cpp:159-169 | finds a key exactly if it is in the sorted leaf, with its value |
| `BPlusTreePages.BPlusTreePage.LookupChild` | project2/src/page/b_plus_tree_internal_page.cpp:87-108 | the binary search from slot 1 returns the child between the separators around the key, and never reads the key of slot 0 |
| `BPlusTreePages.BPlusTreePage.ValueIndexOf` | project2/src/page/b_plus_tree_internal_page.cpp:57-66 | the slot of a child, or -1 |
| `BPlusTreePages.BPlusTreePage.InsertAt` | project2/src/page/b_plus_tree_leaf_page.cpp:105-114 | the loop that moves slots up from the back opens a gap and fills it; nothing else changes |
| `BPlusTreePages.BPlusTreePage.Insert` | project2/src/page/b_plus_tree_leaf_page.cpp:100-116 | the pair goes in front of the first entry whose key is not smaller |
| `BPlusTreePages.BPlusTreePage.InsertNodeAfter` | project2/src/page/b_plus_tree_internal_page.cpp:136-155 | the pair goes right behind the slot of the old child |
| `BPlusTreePages.BPlusTreePage.RemoveAndDeleteRecord` | project2/src/page/b_plus_tree_leaf_page.cpp:179-197 | drops exactly the entry with the key, if there is one, and returns the new size |
| `BPlusTreePages.BPlusTreePage.RemoveAt` | project2/src/page/b_plus_tree_internal_page.cpp:203-210 | slots behind the removed one move down by one |
| `BPlusTreePages.BPlusTreePage.PopulateNewRoot` | project2/src/page/b_plus_tree_internal_page.cpp:120-129 | two pairs; the key of slot 0 stays what it was |
| `PagePools.PagePool.MoveHalfTo` | project2/src/page/b_plus_tree_internal_page.cpp:165-189 | upper half to a new page, leaf chain relinked, moved children adopted, nothing else changed (leaf and internal version) |
| `PagePools.PagePool.MoveAllTo` | project2/src/page/b_plus_tree_internal_page.cpp:231-264 | all pairs go behind those of the left page, an internal page first takes the separator from the parent as its first key |
| `PagePools.PagePool.MoveFirstToEndOf` | project2/src/page/b_plus_tree_internal_page.cpp:278-310 | first pair to the left page, its child adopted, and the new first key becomes the separator; the old separator is not read |
| `PagePools.PagePool.MoveLastToFrontOf` | project2/src/page/b_plus_tree_internal_page.cpp:317-352 | last pair to the right page, its child adopted, and its key becomes the separator; the old separator is not read |
| `PagePools.PagePool.LeafInsert` | project2/src/page/b_plus_tree_leaf_page.cpp:100-116 | insertion into one leaf of the store, as a change of that page only |
| `PagePools.PagePool.LeafRemove` | project2/src/page/b_plus_tree_leaf_page.cpp:179-197 | removal from one leaf of the store, as a change of that page only; an absent key changes nothing |
| `PagePools.PagePool.UnpinPage` | project2/src/buffer/buffer_pool_manager.cpp:85-105 | the protocol of the buffer pool as the tree keeps to it: the last pin of a page is not released before somebody has said that it has been written |
| `TreeModel.OnePagePerKey` | project2/src/index/b_plus_tree.cpp:447-470 | on every level at most one page is responsible for a key |
| `TreeModel.SameBound` | project2/src/page/b_plus_tree_leaf_page.cpp:125-146 | a leaf is determined by where its interval starts or ends, so the sibling links form one chain |
| `TreeModel.LeafDecides` | project2/src/index/b_plus_tree.cpp:46-67 | the leaf responsible for a key decides whether the tree holds it, and with which value |
| `TreeModel.HasKeyIsMembership` | project2/src/page/b_plus_tree_leaf_page.cpp:159-169 | looking at one slot decides membership in a sorted leaf |
| `TreeModel.LeafInsertOk` | project2/src/index/b_plus_tree.cpp:141-143 | putting a new pair into its leaf keeps the tree and adds exactly that pair |
| `TreeModel.LeafRemoveOk` | project2/src/index/b_plus_tree.cpp:252-254 | dropping a pair from its leaf keeps the tree and drops exactly that pair |
| `TreeModel.ChildrenDistinct` | project2/src/page/b_plus_tree_internal_page.cpp:57-66 | no two slots of a page lead to the same child, so ValueIndex finds the slot |
| `TreeModel.SlotInParent` | project2/src/page/b_plus_tree_page.cpp:78-85 | every page but the root has a slot in the page that its parent id names |
| `TreeSplit.SplitKeepsInv` | project2/src/index/b_plus_tree.cpp:167-184 | splitting a page and hooking the new page into the parent keeps the whole tree invariant |
| `TreeSplit.SplitKeepsContents` | project2/src/index/b_plus_tree.cpp:167-184 | and keeps what the tree holds |
| `TreeSplit.GrowKeepsInv` | project2/src/index/b_plus_tree.cpp:203-218 | putting a new root on top keeps the tree invariant |
| `TreeSplit.SplitParentNodeOk` | project2/src/page/b_plus_tree_internal_page.cpp:136-155 | the separators of the parent stay sorted and in range |
| `TreeMerge.SlotZeroIsSeparator` | project2/src/page/b_plus_tree_internal_page.cpp:278-303 | off the leftmost spine the unused key in slot 0 equals the separator in the parent |
| `TreeMerge.JoinedSorted` | project2/src/page/b_plus_tree_internal_page.cpp:231-265 | the entries of two neighbours, one behind the other, are sorted, slot 0 of the right one included |
| `TreeMerge.ShiftedLeftIsRecut` | project2/src/page/b_plus_tree_internal_page.cpp:278-303 | because slot 0 repeats the separator, MoveFirstToEndOf just moves the border between two neighbours |
| `TreeMerge.ShiftedRightIsRecut` | project2/src/page/b_plus_tree_internal_page.cpp:317-351 | the same for MoveLastToFrontOf |
| `TreeMerge.RecutKeepsInv` | project2/src/index/b_plus_tree.cpp:367-371 | moving the border between two neighbours keeps the tree invariant |
| `TreeMerge.RecutKeepsContents` | project2/src/index/b_plus_tree.cpp:367-371 | and keeps what the tree holds |
| `TreeMerge.MovedAllIsMerge` | project2/src/page/b_plus_tree_internal_page.cpp:231-265 | MoveAllTo followed by Remove of the slot is a merge |
| `TreeMerge.MergeKeepsInv` | project2/src/index/b_plus_tree.cpp:340-354 | merging two neighbours keeps the tree invariant |
| `TreeMerge.MergeKeepsContents` | project2/src/index/b_plus_tree.cpp:340-354 | and keeps what the tree holds |
| `TreeMerge.ShrinkKeepsInv` | project2/src/index/b_plus_tree.cpp:390-402 | an internal root with one child gives way to the child |
| `TreeState.LegalSize` | project2/src/page/b_plus_tree_page.cpp:68-73 | between operations every page but the root is at least half full (an inner root has two children, a leaf root a pair), and none is above its maximum |
| `TreeState.PathStep` | project2/src/index/b_plus_tree.cpp:477-489 | one step of crabbing: an unsafe held page never loses its held parent, and a safe page needs nothing above it |
| `TreeState.SafeIff` | project2/src/page/b_plus_tree_page.cpp:107-125 | a page is safe exactly if one pair more would not make it overfull (insertion), or one pair less would not make it a page that has to be merged or refilled (deletion) |
| `TreeState.SafeMeans` | project2/src/page/b_plus_tree_page.cpp:107-125 | the same for the entries themselves: wherever a pair is put in, and whichever pair is taken out |
| `TreeState.HeldUpToSafe` | project2/src/index/b_plus_tree.cpp:477-489 | of the path to the leaf exactly the lower part is held: the parent of a held page is held if and only if the page is not the root and one pair more or less may overflow it or make it too small |
| `TreeState.AdvanceConfined` | project2/src/index/b_plus_tree.cpp:447-512 | seen from the start of an insertion only pages held then were written, apart from parent ids of their children |
| `TreeState.SplitMakesReady` | project2/src/index/b_plus_tree.cpp:167-184 | after a split of any page, root included, one pair hooked into the parent makes the tree right again, sizes included |
| `TreeState.MergeLeavesParent` | project2/src/index/b_plus_tree.cpp:340-354 | after a merge only the parent can be below its minimum, and by one |
| `TreeState.RecutFine` | project2/src/index/b_plus_tree.cpp:367-371 | after a redistribution every page has a legal size again |
| `TreeState.EmptyRoot` | project2/src/index/b_plus_tree.cpp:385-389 | an empty root leaf means that the tree holds nothing |
| `TreeState.ShrinkFine` | project2/src/index/b_plus_tree.cpp:390-402 | after the root has shrunk every page has a legal size |
| `TreeState.SiblingFree` | project2/src/index/b_plus_tree.cpp:305-325 | the sibling that FindLeftSibling latches exists, is a neighbour, and is not latched yet |
| `TreeState.BelowPath` | project2/src/index/b_plus_tree.cpp:305-325 | pages latched during a removal lie below the path that was latched at the leaf: their keys are keys of a page of the path |
| `TreeState.LeafLoses` | project2/src/index/b_plus_tree.cpp:253-258 | the leaf has lost its pair: if it is too small now, its parent is held |
| `TreeState.ParentLoses` | project2/src/index/b_plus_tree.cpp:349-353 | after a merge: the parent has lost a pair, and if it is too small now its own parent is held |
| `BPlusTrees.BPlusTree.CrabingProtocalFetchPage` | project2/src/index/b_plus_tree.cpp:477-489 | for a writer: the child is latched before anything is released; then everything above it is released, and the root id first, exactly if the operation cannot overflow the child or make it too small |
| `BPlusTrees.BPlusTree.CrabingProtocalFetchRead` | project2/src/index/b_plus_tree.cpp:477-489 | for a reader, with or without a transaction: in this order the child is latched, the root id is released if it is latched, and the page above is released |
| `BPlusTrees.BPlusTree.FreePagesInTransaction` | project2/src/index/b_plus_tree.cpp:491-512 | releases the latches and pins of the page set; pages in the deleted set have pin count 0 when they are deleted, and the set is empty at the end |
| `BPlusTrees.BPlusTree.FreePagesRead` | project2/src/index/b_plus_tree.cpp:491-512 | the same for a reader, whose page set, if it has a transaction, is the one page above |
| `BPlusTrees.BPlusTree.FreeOne` | project2/src/index/b_plus_tree.cpp:501-508 | one page: unlatched, unpinned, and deleted if it is in the deleted set |
| `BPlusTrees.BPlusTree.FindLeafPage` | project2/src/index/b_plus_tree.cpp:447-470 | for a writer: ends at the leaf responsible for the key; a page of the page set has its parent in it exactly if it is not the root and the operation may overflow it or make it too small; the root id is latched exactly if the root is still in it |
| `BPlusTrees.BPlusTree.FindLeafPageRead` | project2/src/index/b_plus_tree.cpp:447-470 | the same for a reader, with or without a transaction: one read latch and one pin at the end; or the leftmost leaf |
| `BPlusTrees.BPlusTree.GetValue` | project2/src/index/b_plus_tree.cpp:46-67 | finds exactly the value that the map has for the key, with or without a transaction; the result vector has one place afterwards unless the tree is empty; all pins and latches are back |
| `BPlusTrees.BPlusTree.StartNewTree` | project2/src/index/b_plus_tree.cpp:101-118 | one leaf with one pair; the header record is inserted if there is none |
| `BPlusTrees.BPlusTree.InsertRecord` | project2/src/page/header_page.cpp:14-30 | a new record for the name in the header page, refused if there is one; other records stay |
| `BPlusTrees.BPlusTree.UpdateRecord` | project2/src/page/header_page.cpp:48-61 | a new root id in the record of the name, refused if there is none; other records stay |
| `BPlusTrees.BPlusTree.UpdateRootPageId` | project2/src/index/b_plus_tree.cpp:523-534 | the record of the index names the root afterwards, unless an insert finds a record or an update none: then nothing changes, and nobody hears of it |
| `BPlusTrees.BPlusTree.Split` | project2/src/index/b_plus_tree.cpp:167-184 | halves an overfull page into a new latched page in the page set |
| `BPlusTrees.BPlusTree.InsertIntoParent` | project2/src/index/b_plus_tree.cpp:198-235 | hooks the new page into the parent, splitting as far up as needed, and into a new root only while the root id is latched |
| `BPlusTrees.BPlusTree.InsertIntoLeaf` | project2/src/index/b_plus_tree.cpp:131-156 | true and the pair added exactly if the key was absent; only pages latched when the leaf was found (the lower part of the path), and new ones, are written; page ids are used up for new pages only; the root id changes only under its latch |
| `BPlusTrees.BPlusTree.Insert` | project2/src/index/b_plus_tree.cpp:78-93 | the tree refines a map: true and the pair added if the key was absent, false and no page changed otherwise; page ids used up for new pages only; pins balanced; the header record names the root exactly unless an emptied tree was filled again |
| `BPlusTrees.BPlusTree.AdjustRoot` | project2/src/index/b_plus_tree.cpp:383-404 | an empty root leaf ends the tree, a root with one child gives way to it, any other root stays |
| `BPlusTrees.BPlusTree.FindLeftSibling` | project2/src/index/b_plus_tree.cpp:305-325 | the left sibling, or the right one of a first child, latched and in the page set |
| `BPlusTrees.BPlusTree.Redistribute` | project2/src/index/b_plus_tree.cpp:367-371 | one pair moves over, and the tree is right again |
| `BPlusTrees.BPlusTree.Coalesce` | project2/src/index/b_plus_tree.cpp:340-354 | merges the right page into the left one and marks it for deletion; the parent has lost a pair |
| `BPlusTrees.BPlusTree.CoalesceOrRedistribute` | project2/src/index/b_plus_tree.cpp:272-301 | from one page that is too small to a tree in which every page has a legal size, through all merges, redistributions and root changes above |
| `BPlusTrees.BPlusTree.Remove` | project2/src/index/b_plus_tree.cpp:248-262 | drops exactly the pair for the key, if there is one, and changes no page otherwise; pins balanced, merged pages gone, no page id used up; only pages latched at the leaf (the lower part of the path) and siblings latched later are written, and the root id only under its latch; the header record keeps naming the root |
| `IndexIterators.AllRemain` | project2/src/index/b_plus_tree.cpp:415-420 | an iterator on the leftmost leaf has every key of the map before it |
| `IndexIterators.FromKeyRemain` | project2/src/index/b_plus_tree.cpp:428-437 | an iterator from a key on has exactly the keys from there on before it, and stands on a pair exactly if its leaf has one of them |
| `IndexIterators.CurrentIsLeast` | project2/src/index/index_iterator.cpp:56-58 | the current pair has the least of the remaining keys |
| `IndexIterators.LeafEnd` | project2/src/index/index_iterator.cpp:64-75 | behind the last slot of a leaf the sibling link leads to the leaf with the rest, or nothing remains |
| `IndexIterators.IndexIterator.Next` | project2/src/index/index_iterator.cpp:62-77 | steps over exactly the current key |
| `IndexIterators.IndexIterator.NextLeaf` | project2/src/index/index_iterator.cpp:66-74 | the old leaf is released before the next one is latched; what remains stays the same |
| `IndexIterators.IndexIterator.Current` | project2/src/index/index_iterator.cpp:56-58 | reads the least remaining key with its value from the map |
| `IndexIterators.Begin` | project2/src/index/b_plus_tree.cpp:415-420 | an iterator over the whole map |
| `IndexIterators.BeginAt` | project2/src/index/b_plus_tree.cpp:428-437 | an iterator from a key on, and exactly when it may be dereferenced at once |
| `IndexIterators.BeginMayMissItsPair` | project2/src/index/b_plus_tree.cpp:435-436 | a tree of legal capacities and a key for which Begin(key) stands behind the last pair of its leaf although two greater keys follow |
| `IndexIterators.BeginBehindOnlyPair` | project2/src/index/b_plus_tree.cpp:428-437 | a run that gets there: insert a key, begin at a greater one; the iterator stands on no pair and is not at the end, for all capacities |
| `IndexIterators.Scan` | project2/src/index/index_iterator.cpp:62-77 | from Begin() to the end: every pair of the map once, in ascending order |
| `IndexIterators.ScanFrom` | project2/src/index/index_iterator.cpp:62-77 | from Begin(key) of any key: exactly the suffix, in ascending order, if the key is present or its leaf has a greater one |
| `BPlusTreeRuns.IsBalanced` | project2/src/index/b_plus_tree.cpp:623-648 | accepts every tree and returns its exact height |
| `BPlusTreeRuns.IsPageCorr` | project2/src/index/b_plus_tree.cpp:651-692 | accepts every tree: sizes, key order, and separators against the first and last keys of the children |
| `BPlusTreeRuns.CheckAllUnpinned` | project2/src/buffer/buffer_pool_manager.cpp:210-220 | true exactly if no page is pinned but the one in the first frame |
| `BPlusTreeRuns.Check` | project2/src/index/b_plus_tree.cpp:695-707 | the debug check accepts every tree between operations, exactly if nobody else has a page pinned outside the first frame |
| `BPlusTreeRuns.Run` | project2/src/index/b_plus_tree.cpp:46-262 | every sequence of inserts, removals and point queries answers as a finite map does |
| `BPlusTreeRuns.EmptyIffNoPairs` | project2/src/index/b_plus_tree.cpp:28-34 | the tree has a root exactly if it holds a pair |
| `BPlusTreeRuns.HeaderFallsBehind` | project2/src/page/header_page.cpp:14-30 | after insert, remove, insert the header record no longer names the root |
| `HashDirectory.LowIsRemainder` | project2/src/hash/extendible_hash.cpp:85-88 | the masks of the source are remainder and quotient parity by a power of two |
| `HashDirectory.DoubleKeepsPairs` | project2/src/hash/extendible_hash.cpp:131-137 | doubling the directory keeps its invariant and every pair |
| `HashDirectory.SplitKeepsPairs` | project2/src/hash/extendible_hash.cpp:139-150 | splitting a bucket keeps the directory invariant and every pair: nothing lost, doubled or changed |
| `HashDirectory.SplitKeepsBoth` | project2/src/hash/extendible_hash.cpp:147-150 | both halves of a split bucket are in the directory |
| `HashDirectory.SplitKeepsWeight` | project2/src/hash/extendible_hash.cpp:138-150 | the sum of 2^(global - local depth) over the buckets stays the length of the directory |
| `HashDirectory.WeightOf` | project2/src/hash/extendible_hash.cpp:131-139 | that sum does not depend on the order of the buckets |
| `HashDirectory.OneBucketPerKey` | project2/src/hash/extendible_hash.cpp:85-88 | a key is in no bucket but the one its hash leads to |
| `HashDirectory.BucketHolds` | project2/src/hash/extendible_hash.cpp:85-88 | the bucket of a key holds exactly the stored keys that agree with it on as many hash bits as the bucket is deep |
| `HashDirectory.SplitDeepest` | project2/src/hash/extendible_hash.cpp:125-137 | some bucket is as deep as the directory |
| `HashDirectory.FullBucketSplits` | project2/src/hash/extendible_hash.cpp:116-125 | a full bucket without the key is shallower than the hash is wide, if the loop of Insert can end at all |
| `HashDirectory.NoRoomMeansFull` | project2/src/hash/extendible_hash.cpp:116-125 | if as many other stored keys have the same hash as a bucket has places, the bucket of the key is always full |
| `ExtendibleHashes.ExtendibleHash.Find` | project2/src/hash/extendible_hash.cpp:72-81 | finds exactly what the map has |
| `ExtendibleHashes.ExtendibleHash.Remove` | project2/src/hash/extendible_hash.cpp:95-104 | drops exactly one key |
| `ExtendibleHashes.ExtendibleHash.SplitBucket` | project2/src/hash/extendible_hash.cpp:125-151 | directory doubling if needed, a new bucket, pairs and entries moved by one more bit; no bucket over its size |
| `ExtendibleHashes.ExtendibleHash.MoveByBit` | project2/src/hash/extendible_hash.cpp:141-146 | the loop over a bucket moves exactly the pairs with the bit |
| `ExtendibleHashes.ExtendibleHash.Relabel` | project2/src/hash/extendible_hash.cpp:147-150 | the loop over the directory redirects exactly the entries with the bit |
| `ExtendibleHashes.ExtendibleHash.Insert` | project2/src/hash/extendible_hash.cpp:112-156 | ends, adds an absent key and keeps the old value of a present one; the bucket of the key is split just until it has room, no other bucket changes, the directory grows only to the depth of that bucket, and the bucket count by the number of splits; added buckets are new objects |
| `ExtendibleHashes.ExtendibleHash.InsertFor` | project2/src/hash/extendible_hash.cpp:112-156 | the loop of Insert ends exactly if the key is present or fewer stored keys than a bucket holds have its hash; width + 1 passes are enough then, and no number of passes otherwise |
| `ExtendibleHashes.Run` | project2/src/hash/extendible_hash.cpp:72-156 | every sequence of insertions, removals and lookups that can end answers as a finite map does |
| `ExtendibleHashes.NeverRoom` | project2/src/hash/extendible_hash.cpp:112-156 | a new table for which Insert never ends, whatever the number of passes |
| `LruReplacers.LruReplacer.Insert` | project2/src/buffer/lru_replacer.cpp:33-52 | the value moves, or comes, to the front of the linked list; list and map stay inverse to each other |
| `LruReplacers.LruReplacer.Victim` | project2/src/buffer/lru_replacer.cpp:57-68 | takes the last value of the list, or says that there is none; every other value has been inserted since the victim was |
| `LruReplacers.LruReplacer.Erase` | project2/src/buffer/lru_replacer.cpp:74-82 | takes a value out of its place |
| `LruReplacers.LruReplacer.Unlink` | project2/src/buffer/lru_replacer.cpp:77-79 | the links around a node are closed over it |
| `LruReplacers.ReplayByRecency` | project2/src/buffer/lru_replacer.cpp:33-82 | after any history of calls, which the class keeps its list equal to, the list is ordered by the last insertion of its values |
| `LruReplacers.VictimIsOldest` | project2/src/buffer/lru_replacer.cpp:57-68 | the last value after any history is the one inserted least recently; Victim concludes from it |
| `PoolStates.VictimUnlessPinned` | project2/src/buffer/buffer_pool_manager.cpp:191-207 | there is a victim unless every frame is pinned |
| `PoolStates.ReplacedOk` | project2/src/buffer/buffer_pool_manager.cpp:59-76 | reusing a frame keeps the partition of the frames, the page table bijection, and what every live page holds |
| `PoolStates.UnpinnedOk` | project2/src/buffer/buffer_pool_manager.cpp:85-105 | unpinning keeps all of it, if the last unpin after a write says dirty |
| `PoolStates.FlushedOk` | project2/src/buffer/buffer_pool_manager.cpp:113-126 | flushing keeps all of it, and afterwards the disk has what was unpinned as dirty |
| `PoolStates.WrittenOk` | project2/src/buffer/buffer_pool_manager.cpp:51-76 | a client writing to a pinned page keeps all of it |
| `PoolStates.DeletedOk` | project2/src/buffer/buffer_pool_manager.cpp:136-155 | deleting an unpinned page keeps all of it |
| `BufferPools.BufferPoolManager.FetchPage` | project2/src/buffer/buffer_pool_manager.cpp:51-76 | returns the bytes last left in a live page, whatever was evicted, flushed or deleted since; null exactly if it is not resident and every frame is pinned; without a free frame the frame taken was unpinned before all that are left |
| `BufferPools.BufferPoolManager.NewPage` | project2/src/buffer/buffer_pool_manager.cpp:165-189 | a zeroed page with a new id, all other frames and pins as before; without a free frame the frame taken was unpinned before all that are left; null exactly if every frame is pinned |
| `BufferPools.BufferPoolManager.UnpinPage` | project2/src/buffer/buffer_pool_manager.cpp:85-105 | one pin less; the dirty flag only ever gets set; exactly the last unpin calls Insert of the replacer, whose list is that of the same calls of LRUReplacer |
| `BufferPools.BufferPoolManager.FlushPage` | project2/src/buffer/buffer_pool_manager.cpp:113-126 | writes a dirty page to disk |
| `BufferPools.BufferPoolManager.DeletePage` | project2/src/buffer/buffer_pool_manager.cpp:136-155 | refuses a pinned page, and otherwise takes its frame out of the replacer and puts it at the end of the free list |
| `BufferPools.BufferPoolManager.GetVictimPage` | project2/src/buffer/buffer_pool_manager.cpp:191-207 | the first free frame, or else one that was unpinned before all others in the replacer; null exactly if every frame is pinned, although the replacer never reports to be empty |
| `BufferPools.BufferPoolManager.CheckAllUnpinned` | project2/src/buffer/buffer_pool_manager.cpp:210-220 | true exactly if all frames but the first are unpinned |
| `BufferPoolRuns.AllPinnedIffFull` | project2/src/buffer/buffer_pool_manager.cpp:191-207 | in terms of page ids: every frame is pinned exactly if as many pages are pinned as there are frames |
| `BufferPoolRuns.Session.Fetch` | project2/src/buffer/buffer_pool_manager.cpp:51-76 | a client gets the bytes it left, or no frame exactly if that many other pages are pinned; its other pinned pages stay where they are |
| `BufferPoolRuns.Session.New` | project2/src/buffer/buffer_pool_manager.cpp:165-189 | a client gets the next page id, or no frame; its pinned pages stay where they are |
| `BufferPoolRuns.Session.Delete` | project2/src/buffer/buffer_pool_manager.cpp:136-155 | refused exactly if the page is pinned; otherwise the page is gone, and its other pages are as before |
| `BufferPoolRuns.Run` | project2/src/buffer/buffer_pool_manager.cpp:51-189 | every run of fetches, new pages, reads, writes, unpins, flushes and deletions that keeps to the protocol answers as a map from page ids to bytes with pin counts does: replacement cannot be noticed |
| `PageLayout.DecodeEncode` | project2/src/page/table_page.cpp:348-381 | a 32-bit word read back is the word written |
| `PageLayout.WordPut` | project2/src/page/table_page.cpp:348-381 | writing one word leaves all other words alone |
| `PageLayout.Apart` | project2/src/page/table_page.cpp:77-85 | tuples do not overlap |
| `PageLayout.InsertedTiled` | project2/src/page/table_page.cpp:77-85 | insertion keeps the tuples tiling the page from the free space pointer to its end |
| `PageLayout.InsertedCells` | project2/src/page/table_page.cpp:77-85 | and leaves every other slot alone |
| `PageLayout.DeletedTiled` | project2/src/page/table_page.cpp:240-253 | closing the gap of a deleted tuple keeps the tiling |
| `PageLayout.DeletedCells` | project2/src/page/table_page.cpp:240-253 | and every other slot keeps its bytes, despite the memmove |
| `PageLayout.UpdatedTiled` | project2/src/page/table_page.cpp:188-205 | an update keeps the tiling, in the same order of slots, if the length stays the same or no tuple in front is marked as deleted |
| `PageLayout.ShorterIsNotTiled` | project2/src/page/table_page.cpp:199-205 | after an update to a shorter tuple behind a marked one no order of slots tiles the page |
| `PageLayout.LongerIsNotTiled` | project2/src/page/table_page.cpp:199-205 | nor after an update to a longer one |
| `PageLayout.UpdatedTiledIff` | project2/src/page/table_page.cpp:188-205 | an update leaves a page that some order of slots tiles exactly if the length stays the same or no tuple in front is marked as deleted; an empty tuple, which frees the slot, included |
| `PageLayout.UpdatedFollow` | project2/src/page/table_page.cpp:188-205 | after any update the slot stands for the new tuple, and every other one for what it stood for, except marked ones in front if the length changes |
| `PageLayout.UpdatedCells` | project2/src/page/table_page.cpp:188-205 | so every other slot keeps its bytes if the length stays the same or no tuple in front is marked |
| `PageLayout.MarkedTupleIsLost` | project2/src/page/table_page.cpp:199-205 | a page on which an update to another length makes a marked slot stand for other bytes |
| `PageLayout.FreedSlotFailsAssertion` | project2/src/page/table_page.cpp:214-247 | ApplyDelete leaves a slot for which the assertion of ApplyDelete fails |
| `PageLayout.FreeSlotStillFails` | project2/src/page/table_page.cpp:214-247 | and that does not change when other slots are freed |
| `PageLayout.MarkedTiled` | project2/src/page/table_page.cpp:134-136 | changing the sign of a size keeps the tiling |
| `TablePages.TablePage.MemMove` | project2/src/page/table_page.cpp:192-193 | the copy is right in both directions for overlapping areas |
| `TablePages.TablePage.Init` | project2/src/page/table_page.cpp:13-24 | an empty page |
| `TablePages.TablePage.InsertTuple` | project2/src/page/table_page.cpp:49-94 | the first free slot or a new one; fails exactly if there is no room, and then changes nothing |
| `TablePages.TablePage.MarkDelete` | project2/src/page/table_page.cpp:102-138 | flips the sign of the size of a live tuple; refuses a marked one; accepts a free slot without effect |
| `TablePages.TablePage.RollbackDelete` | project2/src/page/table_page.cpp:262-279 | makes a marked tuple live again |
| `TablePages.TablePage.ApplyDelete` | project2/src/page/table_page.cpp:214-254 | frees the slot, and only that slot changes |
| `TablePages.TablePage.UpdateTuple` | project2/src/page/table_page.cpp:140-207 | replaces a live tuple if there is room: where all bytes and slots go, in any case; the slot stands for the new tuple, the unmarked ones for their own; the page stays sound if the length stays the same or no tuple in front is marked, and no order tiles it otherwise |
| `TablePages.TablePage.GetTuple` | project2/src/page/table_page.cpp:281-315 | reads exactly the live tuples |
| `TableHeaps.TableHeap.InsertTuple` | project2/src/table/table_heap.cpp:36-84 | the tuple goes into the first page of the chain with room, under its first free slot, or on a new page behind the last, which gets the next page id and is linked both ways; no id is used up otherwise; refused exactly if it is larger than a page |
| `TableHeaps.TableHeap.MarkDelete` | project2/src/table/table_heap.cpp:86-100 | marks a live tuple, and logs the deletion in any case |
| `TableHeaps.TableHeap.UpdateTuple` | project2/src/table/table_heap.cpp:102-119 | replaces a tuple exactly if it is live and there is room, and logs the old one unless the transaction is being aborted; all bytes of the page afterwards, and what its slots stand for, behind a mark too |
| `TableHeaps.TableHeap.ApplyDelete` | project2/src/table/table_heap.cpp:121-130 | frees one RID if the assertions hold, and does nothing otherwise; afterwards they fail for it, and do not begin to hold for other free slots |
| `TableHeaps.TableHeap.RollbackDelete` | project2/src/table/table_heap.cpp:132-141 | takes a mark back |
| `TableHeaps.TableHeap.GetTuple` | project2/src/table/table_heap.cpp:143-155 | reads what a RID stands for |
| `TableHeaps.MarksStay` | project2/src/concurrency/transaction_manager.cpp:25-33 | the tuples marked at the end of a transaction whose deletions found live tuples are those its log deletes, and those marked before it |
| `TableHeaps.MarkedOnce` | project2/src/concurrency/transaction_manager.cpp:25-33 | no tuple is deleted twice in a log whose deletions found live tuples |
| `TransactionManagers.StepUndone` | project2/src/concurrency/transaction_manager.cpp:56-69 | taking back a step brings back the table before it, but for marks that later deletions have found |
| `TransactionManagers.IdleUndone` | project2/src/concurrency/transaction_manager.cpp:56-69 | taking back a deletion that marked nothing takes away the mark that it found |
| `TransactionManagers.MovesBack` | project2/src/concurrency/transaction_manager.cpp:56-69 | the tuples in front of an updated one follow in the undo if they did in the update |
| `TransactionManagers.RoomToUndo` | project2/src/concurrency/transaction_manager.cpp:56-69 | the tuple from before an update has room exactly if the page, with the slot directory it has now, has room for its tuples from before the update |
| `TransactionManagers.SameLengthCanUndo` | project2/src/concurrency/transaction_manager.cpp:56-69 | so an update to the same length can always be undone |
| `TransactionManagers.TransactionManager.UndoLast` | project2/src/concurrency/transaction_manager.cpp:52-71 | one record of an abort brings the table back exactly if it is not an update, or the tuple is still there and its page has that room; otherwise nothing changes |
| `TransactionManagers.TransactionManager.Abort` | project2/src/concurrency/transaction_manager.cpp:52-71 | after the replay from the back every RID stands for what it stood for when the transaction began, updates to other lengths included, except that a tuple that was marked before and deleted once more is live, if every record can be undone |
| `TransactionManagers.UndoneIsAlike` | project2/src/concurrency/transaction_manager.cpp:52-71 | so an abort leaves no trace exactly if no deletion names a tuple that was marked before the transaction |
| `TransactionManagers.TransactionManager.ActiveCanCommit` | project2/src/concurrency/transaction_manager.cpp:21-35 | a transaction that has deleted only live tuples can be committed |
| `TransactionManagers.TransactionManager.Commit` | project2/src/concurrency/transaction_manager.cpp:21-35 | gets to its end exactly if every deletion names another tuple that is there, and then keeps everything and has freed exactly these tuples; otherwise an assertion fails |
| `TransactionManagers.PendingItem` | project2/src/concurrency/transaction_manager.cpp:25-33 | the loop finds the slot of a deletion free exactly if the log names its tuple twice, or names nothing |
| `TransactionManagers.PendingLess` | project2/src/concurrency/transaction_manager.cpp:25-33 | one record of a commit: deletions are carried out, other records have nothing left to do |
| `TransactionRuns.RunTransaction` | project2/src/concurrency/transaction_manager.cpp:21-71 | any sequence of insertions, deletions and updates, each with its outcome, then commit or abort: after a commit every RID stands for what the requests ask for, with deleted tuples gone; after an abort for what it stood for before; only a tuple that is too large aborts by itself |
| `TransactionRuns.UsedGrows` | project2/src/concurrency/transaction_manager.cpp:52-71 | a transaction whose updates keep the length never has fewer bytes in use on a page than before |
| `TransactionRuns.Client.CanRollBack` | project2/src/concurrency/transaction_manager.cpp:52-71 | so every step of it can be taken back |
| `TransactionRuns.DeletesAreNewMarks` | project2/src/concurrency/transaction_manager.cpp:21-35 | the log deletes exactly the tuples that are marked at the end and were not before |
| `TransactionRuns.ShrunkTupleStays` | project2/src/concurrency/transaction_manager.cpp:56-69 | a run whose abort leaves a shrunk tuple short: another tuple has taken a new slot of the page in between |
| `TransactionRuns.MarkedTwice` | project2/src/concurrency/transaction_manager.cpp:25-33 | a run whose commit fails: the same tuple deleted twice |
| `TransactionRuns.MarkTakenBack` | project2/src/concurrency/transaction_manager.cpp:56-61 | a run in which the abort of one transaction makes the tuple readable again that another, still open, has deleted |
| `RWMutexes.StepKeepsExclusive` | project1/src/include/common/rwmutex.h:28-60 | every step of every thread keeps the reader count right, at most one writer, and a writer alone |
| `RWMutexes.Exclusion` | project1/src/include/common/rwmutex.h:28-60 | in every reachable state of any number of threads a writing thread excludes readers and other writers |
| `RWMutexes.StepIff` | project1/src/include/common/rwmutex.h:28-60 | in every reachable state the steps of the code are exactly the moves that depend on what the threads hold: who gets the latch, who waits where, and whom an unlock wakes |
| `RWMutexes.WLockGrants` | project1/src/include/common/rwmutex.h:28-35 | WLock gets the latch exactly if nobody reads and nobody is the announced writer; it becomes the announced writer exactly if nobody else is; otherwise it waits |
| `RWMutexes.DrainGrants` | project1/src/include/common/rwmutex.h:33-34 | the announced writer goes on exactly if nobody reads |
| `RWMutexes.RLockGrants` | project1/src/include/common/rwmutex.h:42-47 | RLock gets the latch exactly if nobody is the announced writer and fewer than the maximum read |
| `RWMutexes.Wakeups` | project1/src/include/common/rwmutex.h:28-60 | with at most one thread more than readers are allowed (or one reader) a parked thread always waits for a holder that will wake it |
| `RWMutexes.GetsStuck` | project1/src/include/common/rwmutex.h:45-60 | with two threads more, a run that leaves a thread parked although the latch is free |
| `RWMutexes.StuckIff` | project1/src/include/common/rwmutex.h:28-60 | threads can get stuck exactly if at least two readers are allowed and there are at least two threads more than that |

## Left out

- Two live pointers into one frame: tree and table pages are read from the pool into a buffer, worked on in place there, and stored back, so aliasing of page contents between two fetches of the same page is not captured (`PagePool`, `TableHeap`).
- Real threads inside the tree, the hash table and the buffer pool: these are sequential, with latches as state; the window between unlocking and relocking the root id in Insert is not covered.
- Exhaustion of the buffer pool below the tree and the heap: `PagePool.FetchPage`, `PagePool.NewPage` and `TableHeap.FetchPage` always find a frame; the pool itself is proved with null results.
- Transactions on several tables: a write set belongs to one table.
- Disk files, the log, the lock manager and everything under ENABLE_LOGGING: the disk is a map from page ids to bytes, and page ids come from a counter.
- TransactionManagers.TransactionManager.Abort: what an abort leaves when some record cannot be undone is shown record by record (`UndoLast`) and in one run (`ShrunkTupleStays`), not for all logs; an earlier record may make up for it, as when the tuple is removed altogether. Deletions that name slots that do not exist fail an assertion.
- TransactionManagers.TransactionManager.Commit: a deletion that names a slot freed by an update to an empty tuple is not covered; the assertion need not fail there, and nothing is freed.
- TransactionRuns.RunTransaction: its client deletes only tuples that it can read, and updates them to the same length; a transaction with other updates is covered by `Abort` and `Commit`.
- ExtendibleHashes.ExtendibleHash.Insert: the shift 1 << depth is not limited to 31 bits; a directory of 2^31 entries does not fit into memory.
- GetLocalDepth, GetGlobalDepth and GetNumBuckets of the hash table, and its default constructor: plain getters, and a constructor that initialises nothing.
- The page sizes that follow from key types: capacities are parameters of at least 2 and 4.
- Iterators with a transaction: point queries run with or without one, iterators without, as Begin of the source does.
- Printing, file-driven helpers, the catalog, tuple serialisation, values and types, and the SQLite front end.
