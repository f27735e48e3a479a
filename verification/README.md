# WiredTiger verification

Dafny models of the parts of the WiredTiger storage engine in which it is hard to be right, with proofs
of what the engine relies on there. `dafny verify dfyconfig.toml` verifies the project.

The block manager (`SkipLists`, `Extents`, `ExtLists`, `Overlaps`, `Chains`, `Checkpoints`, `Units`, `Blocks`,
`ListImages`, `Files`, `BlockRuns`, `Verification`). File space is handed out from extent lists, each
kept in two indexes. A checkpoint records what was allocated and what was discarded since the one
before; deleting checkpoints rolls these lists together, and what nobody refers to any more becomes
available once the new metadata is durable. `ExtLists` to `Blocks` are the operations on lists in place.
`Chains` and `BlockRuns` are the meaning of a chain of checkpoints and all runs of the system, crashes
included; `Units` shows that all of it stays in whole allocation units; `Files` shows that the operations
in place are steps of such runs, down to the list that is written and read back after a crash.

Salvage of column stores (`Salvage`). Pages found in a damaged file cover record ranges that overlap in
any way; the scan that shortens, splits, deletes and re-sorts them in one array ends with each record
owned by the newest page that had it.

Reconciliation (`ColumnReconcile`, `Splits`, `Keys`, `Merges`). Writing a page that was changed in
memory: run-length encoding under updates, the bookkeeping of splits and the keys promoted there, key
compression and its undoing, and the merging of split-created pages into their parent.

Overflow values (`Overflow`, `OverflowRuns`, `Tracks`). Readers that may sleep, reconciliations that may fail, and
blocks that are freed meanwhile: a system of steps with any number of readers and of writers of any
isolation, and the list by which a page keeps track of its blocks.

Further refinements (`Fingers`, `Packing`, `Checksums`): walking a skiplist backward, order-preserving
packing, and CRC-32C eight bytes at a time.

`Basics` has what several of these share.

Three results differ from what the source says about itself.

A transaction id that is less than a session's oldest id is said to be seen by all sessions
(`src/include/txn.i:134-147`). The oldest id leaves out the session's own transaction when the session takes a
snapshot (`src/txn/txn.c:126-128`), and every running transaction without a snapshot in the table when it is worked
out for eviction or again during reconciliation (`src/txn/txn.c:86-92`, `src/txn/txn.c:176-179`).
`Overflow.TestIff` says exactly when the test is right, in every run (`OverflowRuns.TestInRuns`). A wrong test
does harm when updates are cut off, or an overflow cell is marked and no copy of its value kept, because of it.
`Overflow.Sound` is the condition for such a step to do none: nobody misses the updates cut off, and one of the
updates kept is seen by everybody if there is nothing else to go by. `OverflowRuns.SoundIff` and `RunIff` show
that it is exact: readers with a snapshot get what they should, now and in all that may follow, if and only if
the steps are sound. For the reconciliations of a checkpoint, which have a snapshot in the table, it always holds
(`Overflow.HeldSound`). `CutLoses` and `EvictLoses` show what is lost otherwise, and `CutReached` and
`EvictReached` how it comes to that.

A column-store overflow read that has to start again may find nothing, which the source calls
impossible (`src/btree/bt_ovfl.c:148-156`). In runs of sound steps only a reader of uncommitted updates can, of
a cell for a single record (`OverflowRuns.ColumnFinds`), and it can (`ColumnLoses`); after a mark that is not
sound a reader with a snapshot can too (`EvictLoses`).

Column salvage needs no distinct write generations: pages of equal age are resolved too, in favour of either.

## Model

| member | source | states |
|---|---|---|
| `SkipLists.Search` | src/block/block_ext.c:20-41 | A search from the highest level down stops, on every level, at the last node below the key, for nodes of any depths; on level 0 this is the place between the smaller and the other keys |
| `ExtLists.OffSrch` | src/block/block_ext.c:20-41 | The by-offset search gives the place that splits the list into the extents starting below the offset and the others |
| `ExtLists.SizeSrch` | src/block/block_ext.c:48-64 | The by-size search gives the first size entry that is large enough |
| `ExtLists.ExtList.OffSrchPair` | src/block/block_ext.c:72-102 | The extents just before and just after an offset, or none where there is none |
| `ExtLists.ExtList.ExtInsert` | src/block/block_ext.c:133-177 | An extent put into both indexes: they describe the same ordered disjoint extents before and after, counters exact, and the space is the union |
| `ExtLists.ExtList.OffRemove` | src/block/block_ext.c:262-311 | Removal by offset: not found exactly if no extent starts there, and then nothing changes; otherwise that extent is gone from both indexes |
| `ExtLists.ExtList.RemoveOverlap` | src/block/block_ext.c:319-376 | Removing a range that lies in one extent is set difference; not found exactly if the range is not on the list |
| `ExtLists.ExtList.Merge` | src/block/block_ext.c:846-926 | Merging a range is set union, coalesced with the neighbours it touches; an error exactly on overlap, and then nothing changes |
| `ExtLists.ExtList.Reset` | src/block/block_ext.c:1168-1186 | A list that is freed is empty in both indexes |
| `Extents.IndexedNewSize` | src/block/block_ext.c:143-170 | Inserting an extent of a size not seen before keeps the by-size index the exact inverse of the list |
| `Extents.IndexedOldSize` | src/block/block_ext.c:143-170 | Inserting an extent of a known size keeps the by-size index the exact inverse of the list |
| `Extents.IndexedRemove` | src/block/block_ext.c:282-302 | Removing an extent, and the size entry when it was the last of its size, keeps the by-size index exact |
| `Overlaps.SameStart` | src/block/block_ext.c:680-731 | Two ranges with the same start: exactly what they share moves to the third list |
| `Overlaps.Inside` | src/block/block_ext.c:732-802 | A range inside another, the middle case included that inserts a new extent during the walk: exactly what they share moves |
| `Overlaps.EndOverlap` | src/block/block_ext.c:750-776 | A range over the end of another: exactly what they share moves |
| `Overlaps.ExtOverlap` | src/block/block_ext.c:623-805 | Any two overlapping extents, in either order of the lists: their intersection leaves both lists and joins the third |
| `Overlaps.ExtlistOverlap` | src/block/block_ext.c:588-616 | The parallel walk ends; alloc and discard lose exactly their intersection and the third list gains exactly that; an error exactly if the third list already held some of it |
| `Chains.UsedIsAllocated` | src/block/block_vrfy.c:184-216 | In a chain whose allocations are disjoint and whose discards were allocated before, the space allocated is exactly the space verification finds some checkpoint to refer to |
| `Chains.DeleteKeepsMeaning` | src/block/block_ckpt.c:384-483 | Deleting any set of checkpoints leaves the blocks that verification accumulates for every surviving checkpoint, and its root, as they were |
| `Chains.DeleteFrees` | src/block/block_ckpt.c:384-483 | What deleting frees is exactly what no survivor refers to; nothing is left to carry over, the chain is still in order, and its first checkpoint discards nothing |
| `Chains.FirstDiscardsNothing` | src/block/block_ckpt.c:526-543 | The first checkpoint of a chain in order has an empty discard list |
| `Chains.ReleasesApart` | src/block/block_ckpt.c:269-285 | The blocks of extent lists given up by different deletions are disjoint |
| `Checkpoints.ExtlistMerge` | src/block/block_ext.c:812-822 | Merging a list into another is set union; it succeeds exactly if they are disjoint |
| `Checkpoints.FreeBlock` | src/block/block_ckpt.c:269-285 | A freed block joins the space available once the checkpoint is resolved |
| `Checkpoints.RollInto` | src/block/block_ckpt.c:418-482 | One deleted checkpoint is rolled into the next: its lists are merged, what both allocate and discard is freed, and its root and list blocks are |
| `Checkpoints.DeleteCheckpoints` | src/block/block_ckpt.c:384-483 | The whole loop, on the lists in place: survivors mean what they meant, and the freed list holds exactly what no survivor refers to and the list blocks given up |
| `Verification.VerifyCkptLoad` | src/block/block_vrfy.c:156-234 | Loading a checkpoint for verification adds its allocations and takes off its discards and its root |
| `Verification.VerifyChain` | src/block/block_vrfy.c:184-216 | Over a chain in order this accumulates the pages the last checkpoint refers to |
| `BlockRuns.StepInv` | src/block/block_ckpt.c:291-695 | Each step - allocation, free, checkpoint, list write, truncation, metadata made durable, resolve, crash - keeps the state of file and lists consistent |
| `BlockRuns.RunInv` | src/block/block_ckpt.c:291-695 | So does every run of them |
| `BlockRuns.DurableUntouched` | src/block/block_ckpt.c:577-610 | In every run no range handed out or cut off meets a page, root or extent-list block that a checkpoint in the last durable metadata refers to |
| `BlockRuns.NothingLost` | src/block/block_ext.c:382-544 | In every run, while the system is up, each byte of the file is in exactly one of: available, available after resolve, referred to, extent-list blocks, lost; what is discarded is neither available nor newly allocated |
| `BlockRuns.LossOnlyAtFirst` | src/block/block_ckpt.c:323-325 | Nothing is lost unless the system crashes before its first checkpoint is durable |
| `BlockRuns.LoadIsResolve` | src/block/block_ckpt.c:604-610 | In the runs, loading the checkpoint just made durable gives the very state that resolving it gives, wherever the block of the avail list came from; on the lists in place and the stored list this is `Files.OpenFile.Complete` |
| `Blocks.BySizeFinds` | src/block/block_ext.c:405-412 | The first extent of the first size entry large enough is the lowest of those of the smallest sufficient size |
| `Blocks.Manager.Extend` | src/block/block_ext.c:446-483 | The file grows at its end, or not at all if it has no description sector or would pass the largest offset |
| `Blocks.Manager.Alloc` | src/block/block_ext.c:383-439 | Allocation takes the lowest offset among the extents of the smallest sufficient size, or extends the file; sizes not in whole units fail; whole units stay whole |
| `Blocks.Manager.Free` | src/block/block_ext.c:521-544 | A block allocated since the last checkpoint is available again at once, any other is discarded |
| `Blocks.Manager.Truncate` | src/block/block_ext.c:1110-1143 | Available space at the end of the file is cut off, and no other |
| `Blocks.Manager.Resolve` | src/block/block_ckpt.c:663-695 | What the checkpoint freed becomes available |
| `Units.StepAligned` | src/block/block_ext.c:383-544 | Every step of a run, crashes and rolled-up checkpoints included, keeps all lists in memory, those of every checkpoint, their blocks and roots and the stored avail list in whole allocation units |
| `Units.RunAligned` | src/block/block_ext.c:383-544 | So they are in every state of every run whose blocks handed in and whose end of file are at units, as the operations in `Files` see to |
| `ListImages.BuildImage` | src/block/block_ext.c:1028-1103 | The stored form of one or two lists: the magic pair, their extents in order, a terminating pair, and nothing else |
| `ListImages.ReadImage` | src/block/block_ext.c:957-1021 | Reading gives all the space listed; an error exactly on a wrong magic pair, a range not in whole units or past the end of the file, or an overlap |
| `ListImages.ImageReadable` | src/block/block_ext.c:983-1014 | What is written for two disjoint lists of a file reads back as all their space |
| `ListImages.WriteBlock` | src/block/block_ext.c:1046-1095 | The block of a list is taken from the available space or from the end of the file, and is on no list |
| `ListImages.WriteAvail` | src/block/block_ckpt.c:604-610 | The avail list stored is the available space and what resolving will add, as it was before its own block was taken; the block holds the header and all pairs, in no more units than that takes; on failure nothing changes |
| `ListImages.ReadAvail` | src/block/block_ext.c:933-950 | Reading an avail list gives the space listed without the block it was stored in, listed or not |
| `ListImages.WrittenSaves` | src/block/block_ext.c:1028-1103 | What is written for the two lists reads back as their space without the block the image is in, whether that came from the list or from the end of the file |
| `ListImages.ReadableElsewhere` | src/block/block_ext.c:996-999 | A stored list that can be read from a file of one size can be read from another exactly if its space is within that |
| `ListImages.LoadAvail` | src/block/block_ckpt.c:110-127 | Loading a stored avail list succeeds exactly if its space is within the file, and gives the space it was saved for |
| `Files.OpenFile.Alloc` | src/block/block_ext.c:383-439 | On the lists in place, an allocation step of the run, or no change; the block is of whole units; it succeeds for whole units if the file may grow |
| `Files.OpenFile.Free` | src/block/block_ext.c:521-544 | A free step; freeing a block of the tree never fails |
| `Files.OpenFile.Begin` | src/block/block_ckpt.c:291-555 | Beginning a checkpoint that deletes others is the begin step of the run; it never fails |
| `Files.OpenFile.WriteList` | src/block/block_ckpt.c:577-590 | Writing a list block is the write step of the run; what is written is the stored form of that list, in a block that just holds it, and an empty list gets no block |
| `Files.OpenFile.Truncate` | src/block/block_ckpt.c:497 | Truncation is the truncate step of the run |
| `Files.OpenFile.Finish` | src/block/block_ckpt.c:604-656 | Writing the avail list is the step that completes the checkpoint, and the list written, in a block that just holds it, is one that loads as the available space of that checkpoint; on failure nothing has changed |
| `Files.OpenFile.Durable` | src/txn/txn_ckpt.c:583-587 | Once the metadata is durable the stored list is that of the last durable checkpoint |
| `Files.OpenFile.Crash` | src/block/block_ckpt.c:62-148 | Loading after a crash reads the stored list of the last durable checkpoint into the lists in place; it is the crash step of the run and fails exactly if that does |
| `Files.OpenFile.Complete` | src/block/block_ckpt.c:604-695 | After the avail list is written, crashing and loading it or going on and resolving leaves the same available space on the lists: what was available and what the checkpoint freed, without the block of the list |
| `Files.OpenFile.Resolve` | src/block/block_ckpt.c:663-695 | Resolving is the resolve step of the run; it never fails |
| `Salvage.Sort` | src/btree/bt_slvg.c:2072-2116 | The pages by first record, of equal ones the newest first, empty slots last; the same pages as before |
| `Salvage.Stuff.UpdateStart` | src/btree/bt_slvg.c:963-997 | A page whose first records went is sorted in again: slots before it stay, the rest is the same pages in order |
| `Salvage.Stuff.RangeOverlap` | src/btree/bt_slvg.c:775-956 | Two overlapping pages, in every way they can: no page gains a record, records are lost only to a page no older, a page that loses some is marked to be merged and no other, the page that wins stays as it is, settled slots stay settled, and the records counted over all pages get fewer |
| `Salvage.Stuff.ColRange` | src/btree/bt_slvg.c:717-768 | The scan ends for any pages, also of equal age; the ranges are disjoint and in order, each record is kept, by one page that had it and than which none that had it is newer; pages without the mark are as they were found, and those that got it lost records |
| `Salvage.Stuff.RangeMissing` | src/btree/bt_slvg.c:1003-1031 | With deleted records put in the gaps the ranges follow on each other from record 1 on |
| `Salvage.TilesExactly` | src/btree/bt_slvg.c:1003-1031 | Then each record from 1 to the last is stood for by exactly one slot, and no other record is |
| `Salvage.Stuff.Resolve` | src/btree/bt_slvg.c:212-227 | Sorting, resolving overlaps and filling gaps together, from pages in any order; a page not marked to be merged is as it was found, and one that got the mark lost records or has deleted ones before it |
| `ColumnReconcile.Reconcile.Helper` | src/btree/rec_write.c:1889-1914 | A cell written stands for its records, and the next record number follows |
| `ColumnReconcile.Reconcile.Compare` | src/btree/rec_write.c:2137-2184 | Records added to the current run or to a new one: the records so far are those before and these, and no run is cut that could go on |
| `ColumnReconcile.Reconcile.SlotLoop` | src/btree/rec_write.c:1985-2199 | The records of one cell overlaid with the visible updates are added, whatever mix of runs and invisible updates; an overflow value is written once if a record still has it, else it is to be discarded |
| `ColumnReconcile.Reconcile.AppendLoop` | src/btree/rec_write.c:2202-2252 | The visible appended records are added, records nobody wrote as deleted |
| `ColumnReconcile.Reconcile.ColVar` | src/btree/rec_write.c:1980-2257 | The cells written expand to exactly the records of the page overlaid with visible updates and then the appends; they are maximally run-length encoded; each overflow value is either kept once or discarded, the latter exactly if all its records were updated |
| `ColumnReconcile.VerifyRle` | src/btree/bt_vrfy_dsk.c:464-499 | The page verifier passes a page exactly if no two neighbouring cells of it should have been one; so it passes every page of cells that are maximally run-length encoded |
| `Splits.SizesFit` | src/btree/rec_write.c:828-868 | For every allowed configuration a split page is as large as a page, or smaller by more than the header |
| `Splits.Split.Note` | src/btree/rec_write.c:949-994 | Noting a boundary keeps the bookkeeping right; the room left is that of a split page or of what the page still has, never below zero |
| `Splits.Remnant` | src/btree/rec_write.c:1162-1170 | What is left over when the page is full is less than a split page holds |
| `Splits.Split.Fixup` | src/btree/rec_write.c:1114-1184 | The chunks between boundaries become pages, and the remnant starts the next |
| `Splits.Split.Promote` | src/btree/rec_write.c:1294-1310 | The key promoted at a boundary is above the last key before it and not above the key it is for: the shortest such prefix where suffixes are dropped, else the key itself |
| `Splits.Split.Cross` | src/btree/rec_write.c:912-1047 | Each of the three cases keeps all items, in order, and the keys promoted at boundaries right |
| `Splits.KeyCell` | src/btree/rec_write.c:3532-3612 | The key cell of an item stands for its key, if the last key of the page is the one it is compressed against |
| `Splits.Split.MakeRoom` | src/btree/rec_write.c:2992-3016 | After at most two splits the item fits, and there is none if it fitted before; a key that was compressed is written whole after a split, by itself if it is then too long |
| `Splits.Split.Add` | src/btree/rec_write.c:1415-1450 | An item that fits a split page, whatever form its key takes, is added with the key cell that is best there, which the page by itself can give back; what the next key is compressed against follows from the cell; while all fits one page less a header there is one page |
| `Splits.Split.Finish` | src/btree/rec_write.c:1054-1107 | The last page, the only page, or none if there was nothing to write; items that so far fit one page are one page, wherever boundaries were noted; each key promoted lies above the last key of one page and not above the first key of the next |
| `Splits.WriteItems` | src/btree/rec_write.c:818-1184 | The pages written hold all items in order; none is empty; each of several fits the split size and a single one the page size; first records and numbers of cells are right; the key cells of each page give back its keys, whatever was compressed, rebuilt after a split or too long; in a row-store the promoted keys separate the pages; items that with any form of their keys fit one page less a header are written as one page |
| `Splits.ReadBack` | src/btree/bt_page.c:406-466 | Reading the key cells of each such page by itself gives together all keys written |
| `Overflow.TestIff` | src/include/txn.i:134-147 | Of an id below an oldest id that a session works with, everybody sees it if and only if it is not one the session left out that runs, or ran when somebody who still reads began |
| `OverflowRuns.TestInRuns` | src/include/txn.i:134-147 | So it is in every interleaving, whatever was lost before |
| `Overflow.EndedIff` | src/btree/bt_ovfl.c:71-93 | Everybody who reads with a snapshot, or begins to, finds an update in a list if and only if one update in it is seen by all of them |
| `Overflow.HeldSound` | src/btree/bt_ovfl.c:163-185 | A reconciliation with a snapshot in the table, as that of a checkpoint, marks no cell without a copy that somebody needs |
| `Overflow.TestedSound` | src/include/txn.i:134-147 | Where the test is right of the update a step goes by, nothing that is needed is dropped |
| `Overflow.StepKeeps` | src/btree/bt_ovfl.c:39-347 | Each sound step of transactions of any isolation, of readers and of reconciliations keeps the protocol state consistent |
| `OverflowRuns.RunKeeps` | src/btree/bt_ovfl.c:39-347 | So does every interleaving of sound steps |
| `OverflowRuns.SoundIff` | src/btree/bt_ovfl.c:315-343 | From a consistent state, a step is sound if and only if after it, whatever sound steps follow, no reader with a snapshot finds nothing, is told to start again twice, or gets the value of the cell or another one where it had to get that of an update |
| `OverflowRuns.RunIff` | src/btree/bt_ovfl.c:315-343 | In every interleaving, all steps are sound if and only if at no time anybody goes wrong so, or may |
| `OverflowRuns.FreedOnceUnread` | src/btree/bt_ovfl.c:262-347 | In every interleaving with successful and failed reconciliations, without condition, the block of a value is freed at most once and only after its cell was marked, and no step that reads it is possible once it is freed |
| `OverflowRuns.FreedWhenDone` | src/btree/rec_track.c:382-399 | In every interleaving the block is freed by a step if and only if that is the success of a reconciliation that dropped the value |
| `Overflow.CopyIff` | src/btree/bt_ovfl.c:309-343 | A value dropped is copied if and only if no update is older than the oldest id known at the start or worked out again, for a single column record the one chosen; the row copy is the last update, older than all, and the cell is marked either way |
| `Overflow.FirstIs` | src/include/txn.i:171-178 | What a reader gets is the value of the first update it sees |
| `OverflowRuns.SnapshotIs` | src/txn/txn.c:97-151 | In every interleaving a snapshot taken leaves out exactly the transactions that had begun and not ended |
| `OverflowRuns.NoneUndone` | src/txn/txn.c:373-375 | In every interleaving no update of a transaction that was rolled back is left to be seen |
| `OverflowRuns.ReadsSnapshot` | src/btree/bt_ovfl.c:39-65 | In every interleaving of sound steps a reader with a snapshot gets the value its snapshot had when it began |
| `OverflowRuns.RestartFinds` | src/btree/bt_ovfl.c:192-255 | In every interleaving of sound steps a row-store reader that is told to start again finds a value in memory, and is not told a second time |
| `OverflowRuns.ColumnFinds` | src/btree/bt_ovfl.c:133-157 | In every interleaving of sound steps a column-store reader finds the cached copy unless the cell stands for one record and the reader reads uncommitted updates |
| `OverflowRuns.ColumnLoses` | src/btree/bt_ovfl.c:72-93 | In that case there is a run of sound steps in which it finds nothing |
| `OverflowRuns.CutLoses` | src/btree/row_modify.c:333-371 | By every cut that is not sound somebody with a snapshot loses, one who reads already or who begins later: told to start again twice, left with nothing, or given the value of the cell in place of an update cut off |
| `OverflowRuns.CutReached` | src/btree/row_modify.c:467-468 | Such a cut comes when a read-committed transaction changes a record twice and another transaction has come and gone since it began; all steps before it are sound |
| `OverflowRuns.EvictLoses` | src/btree/bt_ovfl.c:315-343 | After every mark that is not sound somebody with a snapshot, one who reads already or the next one, is told to start again any given number of times, or in a column-store finds nothing |
| `OverflowRuns.EvictReached` | src/btree/bt_evict.c:311-314 | Such a mark comes with an eviction while a transaction without a snapshot runs, for row-store records and single column-store records; all steps before it are sound |
| `Tracks.PageTrack.Add` | src/btree/rec_track.c:97-150 | An object goes to an empty slot or one of twenty new ones, the other slots stay |
| `Tracks.PageTrack.OvflSrch` | src/btree/rec_track.c:157-174 | The cached copy of a deleted value is found exactly if there is one |
| `Tracks.PageTrack.OnPageSrch` | src/btree/rec_track.c:181-218 | A block named on the page is found exactly if it is tracked |
| `Tracks.PageTrack.OnPageAddr` | src/btree/rec_track.c:235-243 | A block named on the page is tracked to be freed, unless it is or was already |
| `Tracks.PageTrack.TrackBlock` | src/btree/rec_write.c:3129-3132 | A block of an earlier reconciliation is tracked to be freed, the other objects stay |
| `Tracks.PageTrack.CacheValue` | src/btree/bt_ovfl.c:100-126 | A copy of a deleted overflow value is kept, the other objects stay |
| `Tracks.PageTrack.Overflow` | src/btree/rec_write.c:3714-3742 | An overflow record is used again if and only if one with the same data is free, else a new block is written; either way it is marked in use, and the other objects stay |
| `Tracks.PageTrack.Wrapup` | src/btree/rec_track.c:336-408 | After success a tracked block is left if and only if it is in use, each of the others freed once; objects in use, values kept in memory and blocks named on the page, remembered as discarded, stay on the list |
| `Tracks.PageTrack.WrapupErr` | src/btree/rec_track.c:415-445 | After failure the blocks in use are exactly those that were when the reconciliation began, and what was on the list then stays on it |
| `Keys.CommonPrefix` | src/btree/rec_write.c:3569-3579 | The bytes two keys have in common, 255 at the most |
| `Keys.BuildKey` | src/btree/rec_write.c:3532-3612 | The cell of a key has the longest prefix in common with the last key, 255 bytes at the most, if keys are compressed, and is one by itself exactly if what remains is too long |
| `Keys.BuildKeys` | src/btree/rec_write.c:3532-3612 | The cells written for the keys of a page give the keys back, with prefix compression or without, whatever keys are too long for the page, and each has the longest prefix it can |
| `Keys.EncodesJoin` | src/btree/rec_write.c:1085-1089 | Chunks whose cells each give back their keys do so together, as when all fit one page after all |
| `Keys.DecodeAll` | src/btree/bt_page.c:406-466 | Decoding from the start of the page gives those keys |
| `Keys.KeyCopy` | src/btree/row_key.c:105-296 | Rolling back and then forward ends, and gives the key that decoding from the start gives, whatever keys are in memory or come to be there meanwhile |
| `Keys.PrefixFromAny` | src/btree/bt_vrfy_dsk.c:286-292 | In byte order a prefix taken from the key just before, an overflow key perhaps, gives the same key |
| `Keys.Promote` | src/btree/rec_write.c:1294-1307 | The promoted key is greater than the last key before it, at most the key it is for, and the shortest such prefix |
| `Merges.SearchPage` | src/btree/row_srch.c:114-154 | The binary search ends at the last key not greater, or at the first, whatever comparison the page above left |
| `Merges.Search` | src/btree/row_srch.c:112-159 | The search down the tree ends at the page the keys route it to |
| `Merges.Merge.RowInt` | src/btree/rec_write.c:2310-2545 | The references written are those of exactly the pages left, in order, pages created by splits in place of their reference; the first reference written for each one of the page keeps its key; for an ordered tree the page has its keys in order and leads every search that found a page to the same page |
| `Merges.MergedLeaves` | src/btree/rec_write.c:2350-2451 | However deep the merged pages are nested, each page that is left is referenced once, in its place, and no other |
| `Merges.MergedFirstKeys` | src/btree/rec_write.c:2373-2400 | The first reference written for each reference of the page has the key of that |
| `Merges.Merge.RowMerge` | src/btree/rec_write.c:2559-2709 | Recursively exactly the references of a merged page, in order; the first one written gets the key saved above |
| `Merges.MergeKeepsRoutes` | src/btree/rec_write.c:2373-2451 | The references so merged have their keys in order and take every search that found a page in the nested tree to the same page |
| `Merges.ChosenFlatRoute` | src/btree/row_srch.c:145-154 | On the page written, the slot a search chooses is that route |
| `Fingers.Cursor.SearchInsert` | src/btree/row_srch.c:14-83 | A search for any key, by the short cut for appends or from the highest level down, leaves every level just after the last node not greater, and returns the node and comparison of the key if it is there, else of the next one or the last |
| `Fingers.Cursor.SkipPrev` | src/btree/bt_curprev.c:35-115 | A step back ends at the node before and leaves every level just after the last node not greater than it |
| `Fingers.Reverse` | src/btree/bt_curprev.c:35-115 | Repeated steps give the list in reverse |
| `Packing.GetInt` | lang/python/intpacking.py:47-51 | The number its bytes stand for |
| `Packing.PackInt` | lang/python/intpacking.py:53-74 | An integer from -2^64 to 2^64-1 gets the shortest form of its class |
| `Packing.RangeEnds` | lang/python/intpacking.py:28-40 | The forms at both ends of each class are those of its marker |
| `Packing.UnpackInt` | lang/python/intpacking.py:76-91 | A packed integer is read back, value and length, whatever follows it |
| `Packing.IntOrder` | lang/python/intpacking.py:53-74 | Packed integers compare byte by byte as the integers do, and differ before either ends |
| `Packing.Pack` | lang/python/packing.py:72-129 | The fields of a tuple, one after the other |
| `Packing.Unpack` | lang/python/packing.py:23-69 | Whatever was packed comes back: integers, strings up to their first NUL, raw bytes |
| `Packing.TupleOrder` | lang/python/packing.py:72-129 | Packed tuples of integers and NUL-free strings compare exactly as the tuples do |
| `Checksums.TableIs` | src/block/block_cksum.c:1127-1144 | In tables each of which extends the one before by a zero byte, table k gives the register after a byte and k zero bytes |
| `Checksums.FirstTable` | src/block/block_cksum.c:559-624 | The first table, by bit-wise division, has the entries of the single bits that the source lists |
| `Checksums.EightBytes` | src/block/block_cksum.c:1117-1145 | Eight table lookups do the work of eight bytes |
| `Checksums.Cksum` | src/block/block_cksum.c:1097-1160 | For every buffer and start address the three loops give the checksum defined bit by bit |

## Left out

- Reads and writes of the file, compression, locks within the block manager, logging, statistics and failed memory allocation: a read or write succeeds, and metadata becomes durable in one step.
- The `next` arrays of skiplists: a list is the sequence of its nodes with their depths, which determine every link; how depths are drawn is left open.
- ExtLists.ExtList.RemoveOverlap: a range that spans several extents, which no caller passes, is excluded.
- Blocks.Manager.Free: a range that is only partly on the alloc list is excluded; the tree frees the blocks it was given.
- Verification.VerifyCkptLoad: only for chains that are in order; the fragment maps and what the verifier reports of damaged files are not modelled.
- Verification.VerifyChain: only for chains that are in order.
- Checkpoints that are fake, address cookies, and the size counted for a checkpoint.
- Checkpoints that are started and never resolved: the source says that their blocks leak.
- Files.OpenFile.Begin: the lists of the checkpoints being deleted are taken as read from their blocks.
- Files.OpenFile.Free: takes a block in whole units, as every address cookie names one (src/block/block_addr.c:42-45).
- ListImages.ReadImage: takes pairs of numbers, with no empty range among them and a last one that ends the list; how they are packed into the block is not modelled.
- ListImages.ReadAvail: as for `ReadImage`; a block that is only partly listed, which no list has, is excluded.
- Salvage of row stores, the blocks and overflow records that salvage frees, and the merge of pages that follows the resolution of ranges.
- Salvage.Sort: stands for the library sort, whose order of equal elements is open; nothing but its contract is used.
- The salvage cookie of column reconciliation, fixed-length column stores, Huffman coding and dictionary cells.
- ColumnReconcile.Reconcile.Helper: a value cell stands for a value on the page or one too long for it and written to a block of its own.
- ColumnReconcile.Reconcile.ColVar: takes for each record the update that is visible; how visibility is decided is in `Overflow` only. Every slot has a cell, as each is made from one (src/btree/bt_page.c:262-275); the branch for a slot without one (src/btree/rec_write.c:1987-1990) cannot be taken.
- Splits.Split.Add: how a key cell and a value are packed into bytes is left open, and so are the forms of values; keys are compared byte by byte; the key of the first of several pages, a copy of its first key, is not modelled.
- Overflow.StepKeeps: a reader walks its updates in one step; readers do not update the record themselves; transaction ids do not wrap; the page an eviction discards after it succeeds is not read again.
- OverflowRuns.ColumnFinds: of a cell for several records the updates of one are modelled.
- Tracks.PageTrack.WrapupErr: page images written by the failed reconciliation that were never put on the list.
- Keys.KeyCopy: storing the rebuilt key in the page, and the choice of keys to rebuild when a page is read, are left out.
- Keys.Promote: for keys compared byte by byte; the case without suffix compression copies the key.
- Merges.Merge.RowInt: how a reference is found to be modified is resolved to the three kinds of child; keys are their place in the collation order; the first key on the page, which no search looks at, is not shortened to one byte.
- Fingers.Cursor.SearchInsert: inserts by other threads are not modelled.
- Packing.Pack: fields with a size, padding and bit fields are not modelled.
- Packing.Unpack: as for `Pack`; bytes that were not packed may be refused.
- Checksums.Cksum: the tables are any that are built as described, in place of the numbers listed, of which `FirstTable` has eight; the big-endian branch is left out.
- Cursors, transactions as such, the cache, configuration, the bloom filter and the tools around the engine.
