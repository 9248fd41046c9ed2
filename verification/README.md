# Verified model of SmKFS and of the kernel's memory allocators

SmKFS is the kernel's journaled filesystem. Its directories are B+ trees of on-disk blocks,
its files are sparse lists of extents, its metadata changes go through a circular redo
journal, its blocks come from a regioned bitmap, everything is read and written through a
sixteen-slot write-back cache, and every object is a record: a buffer of attributes named
through a table of generation-stamped slots. Below it sit two memory allocators: the heap
(`malloc`, `free`, `realloc` over one arena) and the physical frame bitmap.

Each component is modelled in the form its source has, a class whose methods change fields,
arrays and maps in place. What may fail below it, an allocation of memory, a disk transfer, a
journal append, the update of a block's bit, the look-up of a block of a file, is named by the
field `failing`, which is fixed before a call and which no operation changes. Every status that
tells of a fault, and every ghost result that tells what a fault left behind, is tied to a step
in `failing`; when `failing` is empty the contracts say how every call ends. Each class has an
invariant `Valid()`:

- `BlockCache`, `AttrBuffer` and `PhysMem` keep it in every operation and on every status; so
  does `Heap` in `Free`, in `Malloc` for every size up to 2^63 - 48 and every larger one that it
  refuses, and in `Realloc` for the same sizes (`Sbrk`, their helper, moves the break ahead of
  the block that is about to fill it).
- `Journal` keeps it in every operation of a mounted volume (appending a COMMIT or CHECKPOINT
  marker is the middle of `Seal` and `LeaveMarker`); `Replay` establishes it when it returns
  Ok. `Recoverable()`, that a crash now finds something that replays, is kept exactly
  under the conditions that each contract states.
- `BTree`: `Search` and `Iterate` change nothing; `NewRoot` keeps it on every status; `Insert`
  and `Delete` keep it when they return Ok, and change nothing on Inval, TooBig and NotFound. Every other status is a fault
  of disk, journal or allocator in the middle of an update, and promises nothing.
- `FileSystem`: `Usable()`, which leaves out only that a file's extents do not overlap, is kept
  by `Create`, `Read` and `Write` on every status. `Create` keeps `Valid()` too, and `Write`
  exactly if no mapped block was taken for a hole, which happens when the look-up of the block
  fails. `Truncate` and `PunchHole` keep `Usable()` exactly when they return Ok or a journal
  error or have freed nothing: a full record or a failing block after the first release leaves
  blocks free that the file still maps. They never make extents overlap, save for a hole that
  ends before it starts because its end left 64 bits. `Remove` keeps both once the file is gone,
  and `Usable()` otherwise exactly if the blocks that the file still maps are in use.
- `Allocator` keeps `Shaped()` always; each contract says when the cached counts are right
  afterwards, which is `Valid()`, and what happens to the conserved total.
- `RecordStore` keeps `Stamped()` always, and the free count, the other half of `Valid()`,
  exactly when the contracts say.

| Files | Component |
|---|---|
| `KeyOrder`, `SortedEntries`, `BTreeModel`, `BTreeSurgery`, `BTreeRepair`, `BTreeGrowth`, `BTreeLeaves`, `BTreeForest`, `BTree` | directories as B+ trees |
| `Redo`, `Journal` | the journal and recovery |
| `Faults` | the steps that may fail |
| `Extents`, `ExtentCuts`, `FileView`, `FileWrites`, `FileRecords`, `FileRuns`, `Files` | file reads, writes, truncation, hole punching |
| `BitRuns`, `RegionCounts`, `Bitmap` | the block allocator |
| `BlockCache` | the block cache |
| `AttrCodec`, `AttrLists`, `Attributes` | attribute buffers |
| `Callbacks` | iteration with a callback, for directories and attributes |
| `Records` | the record table and record images |
| `HeapModel`, `Heap` | the kernel heap |
| `BitTricks`, `Frames` | the physical frame allocator |

`dafny verify dfyconfig.toml` checks everything.

## Main results

- **B+ tree.** An insertion that succeeds is a map update and a deletion that succeeds a map
  removal, through splits, root growth, borrowing, merging, fence refresh and root promotion;
  strict order, occupancy, equal depth, exact fences, parent links, the leaf chain and single
  ownership of every block hold again afterwards, for this tree and all others in the store;
  the allocated blocks grow or shrink by exactly the blocks that joined or left the tree.
  A block that leaves the tree is free again, unless its own bit may fail to change. Search
  equals lookup, and iteration visits exactly the map's pairs in ascending order. On a
  well-formed store no call reports corruption, and without faults an insertion of a valid name
  succeeds, and so does a deletion exactly if the name is there.
- **Journal.** Replay of a committed window from any state that differs from the
  pre-transaction state at logged locations only gives the same home locations as one
  uninterrupted redo. Every published window is empty or exactly one transaction ending in
  its COMMIT; replay redoes precisely the prefix through the last COMMIT. From a recoverable
  state a crash, the next mount and its recovery end in the state after the transaction, and
  a recovery that fails or is cut short can be run again. Redo leaves out only bits whose own
  update may fail; without faults a recovery that returns Ok ends in exactly the state after the
  transaction. What a commit publishes carries a number that no entry before it has. An append keeps a state recoverable
  exactly when no window that block 0 may name holds the slot it writes.
- **Files.** A write replaces exactly its byte range in the file's view and nothing in any
  other file, but for the mapped blocks whose look-up failed: they read as before or as new
  blocks, and the file's extents overlap exactly if there are any. A write that fails has
  replaced a prefix of its range, and at most one former hole shows what its block held. A
  read returns exactly the view, clipped to the size, with zeros in the blocks whose look-up
  failed. Only look-ups named in `failing` fail, so without faults a write replaces exactly its
  range and a read returns exactly the view. Truncation and hole punching unmap exactly the blocks that the code's 64-bit
  arithmetic names, keep every other mapping and free exactly the blocks that were mapped
  there, save those whose release fails; these are the blocks of the range exactly under the
  stated bounds on the sums. Removing a file frees exactly the blocks of its first 32 extents.
- **Block allocator.** A range allocation succeeds exactly when a free run exists, whatever
  the region counts say, and marks exactly that run; the free count drops by its length. Counts
  and total stay right without faults, and the contracts say exactly what each fault does to
  them.
- **Cache.** Cache and disk together behave as one plain array of blocks, through misses,
  evictions, flushes and torn writes. Only a disk fault makes a flush, or an access to a block
  of the disk, fail.
- **Attributes.** The bytes decode to a list and every edit refines an edit of the list.
- **Records.** A slot's next generation is new exactly until its 32-bit counter wraps. Without
  faults a record is handed out exactly while a slot and a block are left.
- **Heap.** The blocks tile the arena, live payloads are disjoint and untouched by other
  calls, and `realloc` keeps the first bytes. `malloc` and `realloc` fail only when the arena
  is exhausted, and their contracts give the whole block list afterwards: which block is split
  where, shrunk, grown in place or moved. What `malloc` hands out lies in the heap exactly
  for requests up to 2^63 - 48 bytes; the contract says which larger ones it refuses.
- **Frames.** Aligned allocation returns the lowest aligned free run exactly when there is
  one, and the used count is the number of set bits.

## Where the code and its comments or expectations differ

The model follows the code.

- fs/smkfs/attr.c:273-277 says attribute ids are never reused. The code takes the highest
  live id plus one; `IdsComeAgain` says exactly when an id comes again and `IdUsedTwice`
  gives an input.
- A read or write takes any failure to find a block's extent for a hole (fs/smkfs/file.c:63-73
  and 106-127), a failing allocation or disk included. A read then returns zeros for a mapped
  block. A write gives the block a second extent and succeeds: behind the old extent the new
  bytes do not show (`BlindHides`), but when merging moves the old extent to the end of the
  list the block reads as the new one, zeros around the written bytes included
  (`BlindSurfaces`).
- Sums of offsets, lengths and sizes are not checked for overflow. A size of more than
  2^64 - 4096 counts as no blocks, so a file of that size is not cut when it is truncated
  (`CutsExactly`, `NothingCut`). A read or punch whose `offset + len` leaves 64 bits is not
  clipped (`ClippedExactly`); a hole may then be empty or end before it starts (`PunchWraps`),
  and in the second case an extent around it is split into two that overlap and blocks from
  the hole on are freed (`CrossedMaps`, `CrossedFive`, `PunchHole`).
- A file record can be left behind without any attribute when the creation fails after the
  record is allocated (fs/smkfs/dir.c:98-100): `Create`.
- The root of a new directory does not carry the ROOT flag (fs/smkfs/dir.c:117), unlike that of
  a formatted volume. Nothing in the tree code tests the flag, and a tree is well formed
  either way: `RootFlag`, `NewRoot`.
- A request of more than 2^63 - 48 bytes either becomes 0 when it is aligned or asks the break
  to move by less than the block needs: `RequestExact`, `WrongRequests`, `Malloc`.
- Truncation does not clear the tail of the last kept block, so bytes beyond the new end come
  back when the file grows: `TailAfterShrink`, `StaleTail`.
- Truncation, hole punching and removal take aside at most 32 extents and drop the rest without
  freeing their blocks: `CollectedIsAll`, `ThirtyThreeLeak`. The contracts of `Truncate`,
  `PunchHole` and `Remove` are stated on the collected extents for lists of any length.
- A removal frees the blocks of a file before it gives up the record, takes only the last extent
  out of the record (fs/smkfs/extent.c:217) and looks at no result: `ReleaseAll`, `Remove`.
- `mrt_free_entry` and `mrt_update_entry` do not check that the slot is allocated; `FreeEntry`
  and `UpdateEntry` say exactly when the free count survives.
- The frame allocators return 0 on failure, which is also the address of frame 0. With frame
  0 in use, as initialisation leaves it, a result of 0 means failure and only failure.
- `bitmap_free_range` logs the number of bits it changed as the length of the range;
  `LoggedFree` says when redoing that entry clears the same bits. When the journal refuses the
  entry it sets the first so many blocks again, and the free count drops for each although it
  had not risen; `RestoredFree` and `Balance` say when the bitmap comes back and what is lost.
- When the journal refuses an allocation, its bits are cleared with the region counts raised,
  and then the region counts lose the run once more. They come out right exactly when the
  regions had as many allocated blocks as the run takes of them: `UndoneCounts`,
  `UndoneInRegion`. Allocation still finds every free run.
- Block 0 goes on naming a replayed window, and a committed one whose second publication
  failed. Nothing stops later appends from reaching round the ring into it: it survives as
  many appends as there are slots outside it, and no more (`LogWrites`, `CommitThenLog`).
  With some of its slots overwritten, replay can return Ok having redone half a transaction:
  `HalfRedone`. A checkpoint that succeeds after recovery closes the hole.
- Replay ignores the results of bitmap updates (fs/smkfs/journal.c:252-260), so it can return
  Ok with bits missing: exactly those in `missed`.
- A commit whose COMMIT entry does not get into the journal leaves the transaction open, and
  its callers in fs/smkfs/file.c do not abort it; every later start is then refused.
- `record_free` gives the block back before the slot and looks at neither result, so a record
  can stay readable in a block that is free: `Free`.
- `record_remove_attr` removes the last instance of a kind, and `record_add_attr` removes the
  old instance of a unique kind before it finds out whether the new one fits.

## Model

| member | source | states |
|---|---|---|
| KeyOrder.RankIsStrcmp | lib/string.c:27-33 | name ranks compare as strcmp compares names, and only equal names share a rank, so integer keys stand for names |
| SortedEntries.PutToMap | fs/smkfs/btree.c:25-33 | putting an entry into a strictly sorted list is a map update |
| SortedEntries.RemoveToMap | fs/smkfs/btree.c:25-33 | removing a key from a strictly sorted list is a map removal |
| SortedEntries.ToMapInjective | fs/smkfs/btree.c:1096-1100 | a strictly sorted entry list is determined by its map, so visiting the list is visiting the map's pairs once each in order |
| BTreeSurgery.MoveRightKeeps | fs/smkfs/btree.c:794-815 | lending the left node's last entry to the right node keeps the combined entries and blocks |
| BTreeSurgery.MoveLeftKeeps | fs/smkfs/btree.c:833-854 | lending the right node's first entry to the left node keeps the combined entries and blocks |
| BTreeSurgery.MergeKeeps | fs/smkfs/btree.c:871-895 | a merge keeps the combined entries and gives up exactly the right block |
| BTreeSurgery.FencesAscend | fs/smkfs/btree.c:18-33 | exact fences of a sorted tree are strictly ascending |
| BTreeRepair.BorrowLeftRepr | fs/smkfs/btree.c:794-815 | the blocks written by borrowing from the left spell out the two repaired nodes, parent links and leaf chain included |
| BTreeRepair.BorrowRightRepr | fs/smkfs/btree.c:833-854 | the same for borrowing from the right |
| BTreeRepair.MergeRepr | fs/smkfs/btree.c:868-894 | the blocks written by a merge spell out the merged node with its children re-parented and the chain closed |
| BTreeRepair.DeleteReady | fs/smkfs/btree.c:981-992 | what a child's successful deletion means for the node above it: entries, fences, ownership, and which child may be short |
| BTreeRepair.DeleteDone | fs/smkfs/btree.c:993-1020 | deletion in a child followed by repair is deletion in the node, with exactly the released blocks freed |
| BTreeGrowth.LeafSplit | fs/smkfs/btree.c:393-457 | a split leaf is two chained leaves with the entry in, the fresh block the only new one |
| BTreeGrowth.IndexGrown | fs/smkfs/btree.c:468-510 | an index node with a child more, or a lowered fence, is the node with the entry inserted below it |
| BTreeGrowth.IndexSplit | fs/smkfs/btree.c:517-586 | a split index node is two nodes with the moved children re-parented |
| BTreeGrowth.RootGrown | fs/smkfs/btree.c:658-702 | a new root above the two halves owns exactly the old blocks and the fresh ones |
| BTreeLeaves.ReprChain | fs/smkfs/btree.c:25-33 | the leaves of a well-formed tree are linked left to right through right_sibling |
| BTreeLeaves.LeavesOf | fs/smkfs/btree.c:1101-1164 | the leaf chain starts at the first leaf and holds exactly the tree's entries |
| BTreeForest.ForestStep | fs/smkfs/btree.c:25-33 | an operation confined to one tree's blocks and fresh blocks leaves every other directory well formed and disjoint |
| BTreeForest.EmptyLeaf | fs/smkfs/dir.c:112-121 | a fresh block written as an empty leaf, with the ROOT flag or without, is a well-formed empty directory and touches no other |
| BTreeForest.DescendSearch | fs/smkfs/btree.c:304-351 | the child that fences select binds the key as the whole tree does |
| BTreeStore.LowerBound | fs/smkfs/btree.c:214-223 | the first position whose key is not below the given one |
| BTreeStore.IndexChild | fs/smkfs/btree.c:231-240 | the last child whose fence does not exceed the key, child 0 if there is none |
| BTreeStore.BTree.Load | fs/smkfs/btree.c:134-159 | a node read is the stored node and within capacity; a sane stored node is read back unless memory or disk fails |
| BTreeStore.BTree.Write | fs/smkfs/btree.c:165-193 | a node write replaces one block or nothing, and nothing only for a fault |
| BTreeStore.BTree.SetParent | fs/smkfs/btree.c:196-211 | exactly the parent field of one block changes |
| BTreeStore.BTree.BorrowLeft | fs/smkfs/btree.c:782-815 | on success the two nodes are represented with the entry moved and nothing else is written |
| BTreeStore.BTree.BorrowRight | fs/smkfs/btree.c:821-854 | on success the two nodes are represented with the entry moved and nothing else is written |
| BTreeStore.BTree.MergeNodes | fs/smkfs/btree.c:860-929 | on success the left block represents both nodes and the right block is free, or lost because its own bit could not be cleared |
| BTreeStore.BTree.FixUnderflow | fs/smkfs/btree.c:745-935 | the four-way repair restores occupancy, exact fences, chain and parents, keeps the entries and frees exactly the block that left, which is lost only if its own bit may fail to change |
| BTreeStore.BTree.RefreshFence | fs/smkfs/btree.c:713-732 | the fence becomes the child's lowest key |
| BTreeStore.BTree.DeleteLeaf | fs/smkfs/btree.c:952-972 | the key leaves the leaf, or NOTFOUND with no block changed |
| BTreeStore.BTree.DeleteRec | fs/smkfs/btree.c:937-1030 | the key leaves the subtree; underflow is reported exactly when the node is below the minimum |
| BTreeStore.BTree.DeleteFinish | fs/smkfs/btree.c:993-1025 | repair and fence refresh leave exact fences in the stored node and the entries unchanged |
| BTreeStore.BTree.InsertLeaf | fs/smkfs/btree.c:359-384 | a duplicate is overwritten in place, else the entry goes in, splitting a full leaf |
| BTreeStore.BTree.SplitLeaf | fs/smkfs/btree.c:393-457 | both halves are within capacity and chained, and the report names the right one and its lowest key |
| BTreeStore.BTree.InsertIndex | fs/smkfs/btree.c:588-612 | a new minimum lowers the fence and a child's split is absorbed or passed on |
| BTreeStore.BTree.SplitIndex | fs/smkfs/btree.c:517-586 | both halves are within capacity and the moved children name their new parent |
| BTreeStore.BTree.InsertRec | fs/smkfs/btree.c:588-612 | one or two subtrees of the old height hold the old entries with the new one put in |
| BTreeStore.BTree.NewRoot | fs/smkfs/dir.c:102-138 | a new directory's empty leaf, with the ROOT flag or without: one more well-formed tree that binds nothing, in a fresh block, and all others as they were; a failure adds no tree and gives the block back or loses it |
| BTreeStore.BTree.Search | fs/smkfs/btree.c:304-351 | terminates; Ok gives the directory's binding, NOTFOUND means there is none, and on a well-formed store every other status is a fault of a step that may fail |
| BTreeStore.BTree.Insert | fs/smkfs/btree.c:614-706 | Ok: the directory map gains the binding, the whole store stays well formed, other directories are untouched, and the allocated blocks grow by exactly the tree's new ones; an empty or overlong name is refused and changes nothing; every other status is a fault of a step that may fail, and without any a valid name is inserted |
| BTreeStore.BTree.Promote | fs/smkfs/btree.c:1054-1087 | the only child becomes the root and exactly the old root block is freed, or lost because its own bit could not be cleared |
| BTreeStore.BTree.Delete | fs/smkfs/btree.c:1032-1094 | Ok: the directory map loses exactly the name, the store stays well formed and exactly the blocks that left the tree leave the allocated set, each free again unless its own bit may fail to change; NOTFOUND: no block changed and the name is absent; every other status is a fault of a step that may fail; without any the result is Ok exactly if the name is bound, and no block is lost |
| BTreeStore.BTree.Iterate | fs/smkfs/btree.c:1101-1164 | the callback, which may keep state, sees exactly the entries in ascending key order, once each, up to the first call that returns non-zero; on a well-formed store every failure is a fault |
| Redo.RedoIsLastWriter | fs/smkfs/journal.c:232-308 | after redo a location holds what the last entry touching it assigned, or its old value |
| Redo.RedoConverges | fs/smkfs/journal.c:232-308 | redo from two states that agree wherever nothing was logged ends in the same state |
| Redo.RedoAfterCrash | fs/smkfs/journal.c:375-403 | a replay cut short and run again ends where an uninterrupted one does |
| Redo.RedoFromPartialFlush | fs/smkfs/journal.c:375-403 | any mix of flushed home writes before the crash leads to the same redone state |
| JournalLog.ReplaySelectsPrefix | fs/smkfs/journal.c:322-403 | in a window with rising numbers exactly the prefix through the last COMMIT is redone |
| JournalLog.AbortedNotSelected | fs/smkfs/journal.c:322-403 | entries without a COMMIT are never redone |
| JournalLog.PublishedWindowRedone | fs/smkfs/journal.c:186-225 | a published window is redone whole, from any state that differs at logged locations only |
| JournalLog.WindowKept | fs/smkfs/journal.c:65-118 | slots outside a window do not show in it |
| JournalLog.RoomLeft | fs/smkfs/journal.c:44-57 | a window that ends at the head is hit by exactly the appends from the one on that follows as many as there are slots outside it |
| JournalLog.HalfRedone | fs/smkfs/journal.c:186-225 | two appends after a failed second publication in a ring of four: replay of the window block 0 still names selects only the end of the transaction |
| JournalLog.CrashAndRecover | fs/smkfs/super.c:76-79 | from a recoverable state, crash, mount and replay give the state after the published transaction but for missed bits, whose own update may fail, and exactly that state without faults; whatever the outcome, recovery can be run again from there |
| JournalLog.Recover | fs/smkfs/journal.c:322-417 | replay of a whole published window, from any mix of its home writes, ends after the transaction but for missed bits, whose own update may fail, or fails for a disk fault or a malformed entry |
| JournalLog.LogWrites | fs/smkfs/journal.c:65-118 | windows ending at the head stay recoverable exactly while the appends fit beside them |
| JournalLog.CommitThenLog | fs/smkfs/journal.c:186-225 | whatever a commit returns, the next transaction's writes keep a crash recoverable exactly while they fit beside the windows block 0 may still name |
| JournalLog.Journal.constructor | fs/smkfs/journal.c:331-336 | a mount with an empty window starts with every invariant and nothing to replay |
| JournalLog.Journal.Mount | fs/smkfs/super.c:60-79 | a mount that finds a window in block 0, before its recovery |
| JournalLog.Journal.Overwriting | fs/smkfs/journal.c:107-115 | windows survive a write to a slot exactly if none of them holds it |
| JournalLog.Journal.NextPosIsModulo | fs/smkfs/journal.c:44-52 | positions advance around the ring |
| JournalLog.Journal.IsFull | fs/smkfs/journal.c:55-57 | full exactly when length - 1 entries are in the window |
| JournalLog.Journal.WriteEntry | fs/smkfs/journal.c:65-118 | appends one numbered entry behind the window; keeps a recoverable state recoverable exactly when no window block 0 may name holds the slot; each failure leaves everything as it was |
| JournalLog.Journal.LogWrite | fs/smkfs/journal.c:152-159 | logs the new image of a block |
| JournalLog.Journal.LogAlloc | fs/smkfs/journal.c:161-163 | logs an allocated range |
| JournalLog.Journal.LogFree | fs/smkfs/journal.c:165-167 | logs a freed range |
| JournalLog.Journal.LogMrtUpdate | fs/smkfs/journal.c:431-436 | logs a record-table entry |
| JournalLog.Journal.StartTransaction | fs/smkfs/journal.c:120-145 | a transaction starts on an empty window; a nested start is refused; only empty windows are published on the way, and none from an empty log; a start on an empty log with room is never refused |
| JournalLog.Journal.PersistSuperblock | fs/smkfs/journal.c:169-184 | publishes the current window, or nothing for a disk fault |
| JournalLog.Journal.Commit | fs/smkfs/journal.c:186-225 | publishes first exactly the transaction with its COMMIT and then an empty window, both under the highest sequence number; from a recoverable state whose windows spare the head, or a settled one, a crash finds a window that replays at every point; every other status is a full journal or a fault; on failure the transaction stays open exactly when the COMMIT was not appended |
| JournalLog.Journal.Checkpoint | fs/smkfs/journal.c:452-502 | refused inside a transaction; on success an empty window is published, behind a CHECKPOINT marker with the highest sequence number unless a fault keeps the marker out and nothing is left to replay; a state whose windows spare the head stays recoverable |
| JournalLog.Journal.Abort | fs/smkfs/journal.c:419-429 | the transaction ends without a COMMIT and the log stays unpublished; a recoverable state stays so |
| JournalLog.Journal.RedoEntry | fs/smkfs/journal.c:232-308 | redo of an entry is its abstract effect but for the bits whose own update failed unnoticed and may fail; a malformed entry is refused with no change |
| JournalLog.Journal.FindLastCommit | fs/smkfs/journal.c:338-367 | the first pass finds the highest COMMIT number of an intact window and reports corruption only for a torn slot |
| JournalLog.Journal.RedoUpto | fs/smkfs/journal.c:375-403 | the second pass applies exactly the entries up to that number, in order, but for the missed bits, whose own update may fail; no untouched location changes |
| JournalLog.Journal.Replay | fs/smkfs/journal.c:322-417 | recovery applies exactly the selected entries but for the missed bits, whose own update may fail, and all of them without faults, leaves an empty window in memory and the invariant established; a sane window is refused only for a disk fault; what was recoverable stays so |
| Extents.MapsUnique | fs/smkfs/extent.c:55-74 | in a disjoint list a logical block has one physical block |
| Extents.FindMaps | fs/smkfs/extent.c:36-74 | in any list a block is found exactly if some extent covers it, and where one puts it |
| Extents.Resolve | fs/smkfs/extent.c:36-74 | found exactly when some extent covers the block, and then the first that does |
| Extents.AddExtent | fs/smkfs/extent.c:76-166 | whatever the list, the mapping gains exactly the run, merged with a neighbour or not; without overlap before and with the run unmapped there is none afterwards |
| Extents.AddedHidden | fs/smkfs/extent.c:107-146 | a block that is mapped already is found where it was after it is added a second time |
| ExtentCuts.KeptMaps | fs/smkfs/file.c:636-720 | the kept pieces of an extent map exactly what it mapped outside the hole |
| ExtentCuts.RunOf | fs/smkfs/file.c:652-720 | the physical blocks behind a stretch of an extent are one run |
| ExtentCuts.RebuiltStep | fs/smkfs/file.c:636-720 | rebuilding one extent more keeps the mapping outside the cut, where each block is found, disjointness and the exact freed set |
| ExtentCuts.NothingLeaked | fs/smkfs/file.c:350-378 | without failing releases exactly the blocks in the cut are free |
| ExtentCuts.CutShort | fs/smkfs/file.c:350-378 | what a rebuild that stops early has freed lay in the cut |
| ExtentCuts.CrossedMaps | fs/smkfs/file.c:658-684 | a hole that ends before it starts inside an extent splits it into two that overlap and map what it mapped |
| ExtentCuts.CrossedFive | fs/smkfs/file.c:658-684 | five blocks with a hole from block 2 to block 1: the two pieces, and the 2^32 - 1 blocks that are given back |
| ExtentCuts.CrossedStep | fs/smkfs/file.c:636-684 | with such a hole the rebuilt list keeps the mapping, and overlaps exactly if some extent straddles the hole; otherwise it is the old list |
| ExtentCuts.CollectedIsAll | fs/smkfs/file.c:274-289 | working on the collected extents is right exactly when there are at most 32 |
| ExtentCuts.ThirtyThreeLeak | fs/smkfs/file.c:274-289 | 33 one-block extents: the last block is never given back |
| ExtentCuts.OneCase | fs/smkfs/file.c:642-720 | the five overlap cases are exhaustive and exclusive |
| FileView.FindIsMaps | fs/smkfs/extent.c:36-74 | without overlap the first covering extent gives the mapping |
| FileView.ReplacedChain | fs/smkfs/file.c:228-244 | adjoining chunk writes add up to one |
| FileView.BlockWritten | fs/smkfs/file.c:103-136 | patching a mapped, or freshly mapped and zeroed, block replaces exactly those bytes of the file's view |
| FileView.CutView | fs/smkfs/file.c:45-77 | after a cut the cut blocks read as zero and every other byte as before |
| FileView.CutsExactly | fs/smkfs/file.c:325-329 | truncation decides to cut when there are blocks to cut, and from the right one on, exactly if the old size is at most 2^64 - 4096 or the new one is not |
| FileView.NothingCut | fs/smkfs/file.c:325-329 | a file of 2^64 - 1 bytes truncated to ten: nothing is cut |
| FileView.ClippedExactly | fs/smkfs/file.c:612-615 | a request is clipped to the end of the file exactly if offset + len stays in 64 bits |
| FileView.PunchExactly | fs/smkfs/file.c:612-619 | the hole ends where it should exactly if its end is at most 2^64 - 4096 and the sum stays in 64 bits or wraps into the file's last block |
| FileView.PunchWraps | fs/smkfs/file.c:612-619 | two requests on a file of five blocks from block 2 on: the hole ends before it starts, or is empty |
| FileView.ReadStep | fs/smkfs/file.c:176-191 | one chunk more keeps what was read the view with zeros in the blocks whose look-up failed, around the end of the 64-bit range too |
| FileView.ReadRight | fs/smkfs/file.c:140-194 | what was read is the view exactly if the view is zero there in the blocks whose look-up failed |
| FileView.TailAfterShrink | fs/smkfs/file.c:325-391 | a byte beyond the new end reads zero afterwards exactly when its block was cut or it was zero before; when nothing is cut nothing changes |
| FileView.StaleTail | fs/smkfs/file.c:325-377 | a file of one block on any disk, truncated to four bytes: byte 5 keeps its value |
| FileWrites.ShownMore | fs/smkfs/file.c:229-245 | a chunk written to the block that was found, or to a fresh one for a hole, extends the replaced range |
| FileWrites.HiddenMore | fs/smkfs/file.c:106-136 | a chunk for a mapped block whose look-up failed: the block joins the blind ones, its old place holds what it read as and its new one the fresh bytes |
| FileWrites.StoppedView | fs/smkfs/file.c:240-243 | a chunk that fails leaves what was written before it and changes nothing else, but for one blind block or one former hole with an unwritten block |
| FileWrites.ProgressView | fs/smkfs/file.c:228-245 | after any number of chunks: the range is replaced outside the blind blocks, these read as before or as new, and extents overlap exactly if there are any |
| FileWrites.TwicePlaced | fs/smkfs/file.c:106-127 | a mapped block that is given another place makes the extents overlap |
| FileWrites.BlindHides | fs/smkfs/file.c:106-127 | a one-block file overwritten after a failed look-up reads as before, and its extents overlap |
| FileWrites.BlindSurfaces | fs/smkfs/extent.c:107-146 | the same write going on into the next block: merging reorders the extents and the block reads as the new one |
| FileRecords.GrownLoose | fs/smkfs/file.c:113-124 | a fresh block for a file, for a hole or a second time, backs nothing else and keeps blocks exclusive and used across files |
| FileRecords.GrownSound | fs/smkfs/file.c:113-124 | giving a hole a fresh block keeps extents disjoint and blocks exclusive across files |
| FileRecords.WriteUnseen | fs/smkfs/file.c:129-136 | writing one file's block is invisible to every other file |
| FileRecords.CutSound | fs/smkfs/file.c:341-376 | cutting a file and freeing exactly what was cut, or part of it, keeps blocks exclusive and used, and a sound volume sound |
| FileRecords.UncutUnsound | fs/smkfs/file.c:350-400 | blocks of a cut freed while the record still maps them: usable exactly if there were none |
| FileRecords.PunchCutExactly | fs/smkfs/file.c:608-619 | the punched blocks are those of the clipped range exactly under the bounds of PunchExactly, and then the hole does not end before it starts |
| FileRecords.TornByte | fs/smkfs/file.c:126-134 | a former hole whose block was recorded and not written reads what an unused block held |
| FileRecords.ReadBack | fs/smkfs/file.c:140-272 | reading the written range back gives the written bytes |
| FileRuns.RunDone | fs/smkfs/file.c:228-245 | chunks that succeed one after the other do together what one write of their bytes does: the view, the blind blocks, what other files read, and which blocks were taken |
| FileRuns.RunStopped | fs/smkfs/file.c:240-243 | the same when the next chunk fails: the prefix is written, with one blind block more or one torn former hole at most |
| Files.FileSystem.constructor | fs/smkfs/super.c:279-370 | a formatted volume is sound and holds the root record only |
| Files.FileSystem.Create | fs/smkfs/file.c:735-789 | a new file has the lowest unused id, no size, no extents and a record block of its own; a failure leaves no file, a bare record, or one without permissions, each for a full volume or a fault |
| Files.FileSystem.LookUp | fs/smkfs/extent.c:55-74 | finds the first extent of the block, says that there is none, or fails, which only a look-up does that may fail |
| Files.FileSystem.RecordExtent | fs/smkfs/extent.c:76-166 | the record gains exactly the one block, and only if its attributes leave room; NOSPC means they do not |
| Files.FileSystem.ReadByte | fs/smkfs/file.c:45-77 | on success the buffer gets the view of the block's range, holes as zero, or zeros if the look-up failed |
| Files.FileSystem.BlockFor | fs/smkfs/file.c:103-127 | the block behind a logical block, allocated and recorded if it was a hole or the look-up failed; a mapped block is then found where it was, and extents overlap exactly then; a refusal has a stated cause; a failure leaves every record alone and at most the one fresh block in use |
| Files.FileSystem.WriteByte | fs/smkfs/file.c:85-138 | exactly the range of one block changes in the view, or a mapped block gets a hidden second place, or a hole gets a block that is not written; other files never change |
| Files.FileSystem.WriteChunk | fs/smkfs/file.c:229-245 | the next chunk of the data goes to its block: shown, hidden behind the old one, torn or not written, and only the file gains blocks |
| Files.FileSystem.WriteChunks | fs/smkfs/file.c:228-245 | the chunk loop replaces exactly the range across blocks but for the blind ones, or the prefix up to the chunk that fails for a fault or a full volume or record |
| Files.FileSystem.Read | fs/smkfs/file.c:140-194 | returns exactly the view clipped to the file size, with zeros in the blocks whose look-up failed, and exactly the view without faults, and touches nothing beyond it |
| Files.FileSystem.Write | fs/smkfs/file.c:196-272 | on success the view is replaced over exactly the range but for blind blocks, which read as before or as new, exactly the range without faults; on failure, for a fault or a full volume or record, over a prefix with at most one torn former hole; a sound volume stays sound exactly if there is no blind block; other files never change; the record has the new size exactly when it did not grow or FSIZE fits in the record |
| Files.FileSystem.RebuildBelow | fs/smkfs/file.c:348-375 | the surviving extents map exactly the blocks below the new end and the rest is freed or leaked; NOSPC only for a full record |
| Files.FileSystem.Truncate | fs/smkfs/file.c:291-404 | the size is set, exactly the blocks past the new end as the code counts them are unmapped and freed, or leaked if their own bits may fail to change, and bytes beyond it read zero exactly if cut or zero before; the volume stays usable exactly when it ends Ok, in a journal error or with nothing freed, and then sound if it was |
| Files.FileSystem.PunchOne | fs/smkfs/file.c:636-720 | each of the five cases keeps exactly the pieces outside the hole and frees or leaks exactly those inside; with a hole that ends before it starts, the split keeps two overlapping pieces and frees the stated run |
| Files.FileSystem.PunchHole | fs/smkfs/file.c:575-733 | exactly the blocks of the computed hole are unmapped and freed, or leaked if their own bits may fail to change; the size stays; the volume stays usable exactly when it ends Ok, in a journal error or with nothing freed; a hole that ends before it starts inside an extent keeps the mapping, and the volume is sound afterwards exactly if it was and no record changed |
| FileRecords.RemovedLoose | fs/smkfs/record.c:227-260 | a removed file whose extents were given back leaves the others exclusive and in use |
| FileRecords.KeptLoose | fs/smkfs/record.c:227-260 | a file that stays after its extents were given back: the volume is usable exactly if the blocks it still maps are in use |
| Files.FileSystem.ReleaseAll | fs/smkfs/extent.c:189-236 | exactly the blocks of the collected extents are freed or leaked, and the record loses its last extent at most |
| Files.FileSystem.Remove | fs/smkfs/record.c:227-260 | once the record is gone exactly the blocks of the collected extents are free, or leaked if their own bits may fail to change, other files are untouched and a sound volume is sound; a file that stays maps what it did, save its last extent at most, and the volume is usable exactly if none of that was freed |
| BitRuns.OnesMarked | fs/smkfs/bitmap.c:328-342 | taking or giving back a run moves the count of set bits by its length |
| BitRuns.TooFewZeros | fs/smkfs/bitmap.c:294-295 | a region with fewer free bits than asked for holds no such run |
| BitRuns.ScannedFree | fs/smkfs/bitmap.c:314-324 | a free bit extends the current run, and completes the first long enough one |
| BitRuns.ScannedSet | fs/smkfs/bitmap.c:312-313 | a set bit ends the current run and no run was missed |
| BitRuns.OneBlockRegion | fs/smkfs/bitmap.c:297-300 | a region never straddles a bitmap block |
| BitRuns.CountsFlip | fs/smkfs/bitmap.c:176-183 | one bit moves the count of its own region by one and no other |
| BitRuns.CountsTaken | fs/smkfs/bitmap.c:352-354 | a run inside a region lowers that region's count by its length and no other |
| Bitmap.Allocator.LoggedFree | fs/smkfs/bitmap.c:568-572 | redoing the logged free clears the same bits exactly when no set bit of the range lies behind the first freed blocks, counted from the start of the range wherever that is |
| Bitmap.Allocator.RestoredFree | fs/smkfs/bitmap.c:567-574 | undoing a refused free restores the bitmap exactly when the set bits were the blocks set again |
| RegionCounts.LoweredCounts | fs/smkfs/bitmap.c:434-443 | right counts stay right when one is taken off per bit of a free run |
| RegionCounts.UndoneCounts | fs/smkfs/bitmap.c:424-444 | counts come out of a refused allocation right exactly when every region has as many set bits as the run has bits in it |
| RegionCounts.UndoneInRegion | fs/smkfs/bitmap.c:340-354 | the same inside one region, where the length comes off at once |
| Bitmap.ScanByte | fs/smkfs/bitmap.c:307-325 | the bit loop finds the first run or carries the scan state on |
| Bitmap.Allocator.InitRegions | fs/smkfs/bitmap.c:53-141 | every region's count is its number of zero bits, despite the shortcuts for clear and full bytes; fails only for a fault or when the counts exist |
| Bitmap.Allocator.CountByte | fs/smkfs/bitmap.c:90-132 | one decrement per set bit inside the data area |
| Bitmap.Allocator.Set | fs/smkfs/bitmap.c:154-193 | exactly one bit is set and counts follow; a block before the data area or beyond the device is refused; when the write fails the bit stays and the counts have moved exactly if it was clear |
| Bitmap.Allocator.Clear | fs/smkfs/bitmap.c:195-236 | exactly one bit is cleared and counts follow; a block before the data area or beyond the device is refused; when the write fails the bit stays and the counts have moved exactly if it was set |
| Bitmap.Allocator.AllocInRegion | fs/smkfs/bitmap.c:274-360 | the first fitting run of the region is taken, or there is none; after a refused journal entry bitmap and free count are as before and the region count exactly if the region had as many allocated blocks; no allocated block becomes free |
| Bitmap.Allocator.ScanRegion | fs/smkfs/bitmap.c:307-327 | the one-block scan agrees with the bit-level first run of the region |
| Bitmap.Allocator.AllocLinear | fs/smkfs/bitmap.c:364-462 | the first fitting run of the whole data area is taken across regions and blocks, or there is none; failures while marking and refused journal entries as the source leaves them |
| Bitmap.Allocator.Alloc | fs/smkfs/bitmap.c:491-511 | a free block is taken exactly when there is one, whatever the region counts say; fails otherwise only for a fault |
| Bitmap.Allocator.AllocRange | fs/smkfs/bitmap.c:466-489 | non-zero exactly when some run of count free bits exists, whatever the region counts say; exactly that run is set and the free count drops by its length; counts and total follow unless a fault made an undo necessary; without faults nothing else can happen; no allocated block becomes free |
| Bitmap.Allocator.FreeRange | fs/smkfs/bitmap.c:513-581 | without faults it succeeds exactly for a range that is not empty and lies on the device; on success exactly the range, is cleared and the free count rises by the bits that changed; a failing block and a refused journal entry leave exactly the stated part cleared or set again, and the stated loss of the total |
| BlockCaching.BehindDirty | fs/smkfs/bcache.c:108-116 | whatever a write leaves on disk under a dirty slot does not show |
| BlockCaching.Dropped | fs/smkfs/bcache.c:100-121 | giving up a clean slot does not change what its block reads as |
| BlockCaching.Filled | fs/smkfs/bcache.c:118-124 | filling an empty slot from disk does not change the view |
| BlockCaching.Overwritten | fs/smkfs/block.c:98-104 | new data in a slot changes the view at its block only |
| BlockCaching.BlockCache.constructor | fs/smkfs/bcache.c:40-55 | with all slots invalid the view is the disk |
| BlockCaching.BlockCache.DiskWrite | fs/smkfs/block.c:77-96 | a sector-by-sector write that fails, for a fault or a block off the disk, changes one block at most, to some mix of sectors |
| BlockCaching.BlockCache.DiskRead | fs/smkfs/block.c:44-62 | a completed read is the block on disk |
| BlockCaching.BlockCache.Fetch | fs/smkfs/bcache.c:74-125 | hit, miss, eviction and failure all keep the view; success yields the slot holding the block's view, and a block of the disk is refused for a disk fault only |
| BlockCaching.BlockCache.Victim | fs/smkfs/bcache.c:89-116 | an invalid, else clean, else written-back slot; the view stays |
| BlockCaching.BlockCache.WriteBack | fs/smkfs/bcache.c:110-115 | a failed write-back leaves the slot dirty and the view unchanged |
| BlockCaching.BlockCache.Flush | fs/smkfs/bcache.c:147-167 | the view never changes; a flush that returns OK makes the disk equal to it, and only a disk fault keeps it from that |
| BlockCaching.BlockCache.ReadBlock | fs/smkfs/block.c:64-70 | returns the view of the block; a block of the disk is refused for a disk fault only |
| BlockCaching.BlockCache.WriteBlock | fs/smkfs/block.c:98-104 | changes the view at one block, or nothing, and for a block of the disk nothing only for a disk fault |
| AttrCodec.HeaderReads | fs/smkfs/attr.c:310-321 | twelve bytes are a header exactly when its four fields read back |
| AttrCodec.DecodeIsHolds | fs/smkfs/attr.c:237-251 | decoding inverts encoding, and yields a list only if its encoding is in the buffer |
| AttrCodec.At | fs/smkfs/attr.c:240-249 | a walk reads the attributes one after the other and then END, inside the buffer |
| AttrLists.RemovedInstance | fs/smkfs/attr.c:348-368 | removal by kind and id takes out exactly that instance |
| AttrLists.AddedTidy | fs/smkfs/attr.c:269-295 | unique kinds stay unique and ids distinct, except exactly when the id counter wraps onto a live id |
| AttrLists.AddedOnce | fs/smkfs/attr.c:269-277 | an added attribute of any kind but END and EXTENTS is the only one of its kind; EXTENTS come in addition to those there are |
| AttrLists.NextIdFresh | fs/smkfs/attr.c:272-294 | below the wrap the new id is above every live one |
| AttrLists.IdsComeAgain | fs/smkfs/attr.c:272-294 | removing an instance makes ids come again exactly when it had the highest id |
| AttrLists.IdUsedTwice | fs/smkfs/attr.c:272-294 | a concrete add, remove, add that hands out an id twice |
| AttrLists.RemovedHolds | fs/smkfs/attr.c:343-345 | closing the gap leaves the encoding of the other attributes and the END header as it was |
| AttrLists.AppendedHolds | fs/smkfs/attr.c:310-321 | the new attribute and END header continue the encoding |
| Attributes.AttrBuffer.constructor | fs/smkfs/record.c:211-215 | a new record's buffer is the empty list with a zero-length END header |
| Attributes.AttrBuffer.Find | fs/smkfs/attr.c:237-251 | the first attribute of the kind with its data, or there is none |
| Attributes.AttrBuffer.Iterate | fs/smkfs/attr.c:370-386 | the callback, which may keep state, sees exactly the attributes of the kind, in order, up to the first call that returns non-zero |
| Attributes.AttrBuffer.FreshId | fs/smkfs/attr.c:278-294 | the id scan computes the highest live id plus one in 32 bits |
| Attributes.AttrBuffer.Remove | fs/smkfs/attr.c:326-346 | the list loses the last attribute of the kind, or the bytes stay |
| Attributes.AttrBuffer.RemoveId | fs/smkfs/attr.c:348-368 | the list loses the attribute with kind and id, or the bytes stay |
| Attributes.AttrBuffer.Add | fs/smkfs/attr.c:253-324 | the status is decided by kind and room alone; on success the list gains the attribute, replacing an instance of a unique kind: every kind but END and EXTENTS is then held exactly once; the buffer stays well formed |
| Attributes.AttrBuffer.TotalLength | fs/smkfs/record.c:262-274 | the encoded length plus what the END header claims, which every edit other than adding an END attribute keeps at zero |
| Records.FreeSlotsSet | fs/smkfs/mrt.c:113-133 | the count of unallocated slots moves only when a slot other than 0 changes hands |
| Records.FreshUntilWrap | fs/smkfs/mrt.c:119 | a slot's next generation repeats an earlier one exactly from its 2^32nd turn on |
| Records.RecordStore.constructor | fs/smkfs/mrt.c:40-69 | a formatted table has every slot free at generation 0 and a right count |
| Records.RecordStore.AllocEntry | fs/smkfs/mrt.c:87-141 | the lowest unallocated slot but 0, under a generation issued before exactly when the counter has wrapped; NOSPC exactly means no slot; the free count goes wrong exactly when a refused entry cannot be written back |
| Records.RecordStore.UpdateEntry | fs/smkfs/mrt.c:143-187 | binds a slot and adds flags; says exactly when the free count survives, and what stays when a refused entry cannot be written back |
| Records.RecordStore.FreeEntry | fs/smkfs/mrt.c:189-238 | clears a slot keeping its generation; the free count survives exactly for an allocated slot other than 0, or, when a refused entry cannot be written back, for any other |
| Records.RecordStore.Resolve | fs/smkfs/mrt.c:240-281 | succeeds exactly for allocated, bound slots, absent I/O failure |
| Records.RecordStore.Read | fs/smkfs/record.c:38-94 | a record is read only from an intact image stamped with the slot's current generation, and always from such an image unless a step fails |
| Records.RecordStore.StaleImageRejected | fs/smkfs/record.c:83-86 | an image stamped in an earlier turn is rejected unless a whole number of wraps lies between |
| Records.RecordStore.WriteImage | fs/smkfs/record.c:149-177 | exactly the bound block's image is replaced |
| Records.RecordStore.Alloc | fs/smkfs/record.c:180-225 | a new record has the lowest unallocated slot, a fresh block and an image under the new generation; a failure changes no other slot and leaves at most one fresh block in use, whose own bit may fail to change; without faults it fails exactly for want of a slot or a block, and gives the slot back |
| Records.RecordStore.Free | fs/smkfs/record.c:227-260 | gives back the slot, keeping its generation, and its block; if the slot cannot be given back it stays taken and bound, its block free or not; every other slot stays, ids that do not resolve are ignored; without faults both are given back |
| HeapModel.RequestExact | mm/heap.c:141-151 | aligned size and growth cover the request exactly up to 2^63 - 48 bytes |
| HeapModel.RequestWrong | mm/heap.c:141-151 | above that bound the aligned size stays above it, or is 0, exactly for the last 15 sizes |
| HeapModel.WrongRequests | mm/heap.c:141-156 | a request for which the break is to move back by a header, and one that becomes a block of no bytes |
| HeapModel.LivePayloads | mm/heap.c:57-68 | payloads are 16-aligned, inside the arena, disjoint from each other and from all headers |
| HeapModel.SpliceTiled | mm/heap.c:141-258 | replacing blocks by blocks that tile the same stretch keeps the arena tiled |
| HeapModel.SameList | mm/heap.c:217-258 | a block list without free neighbours is determined by its allocated blocks and its ends |
| KernelHeap.LinkedSplice | mm/heap.c:141-258 | header writes at two addresses relink the list exactly when they spell the edited part |
| KernelHeap.HandedSize | mm/heap.c:169-191 | the block handed out has room for the request and at most 40 bytes more |
| KernelHeap.Heap.constructor | mm/heap.c:105-127 | an initialised heap is valid and empty |
| KernelHeap.Heap.CommitTo | mm/heap.c:78-103 | commits pages up to the target or stops early for want of a frame, with whole pages added |
| KernelHeap.Heap.Sbrk | mm/heap.c:360-394 | the break moves by exactly the increment, down to the base or up inside committed memory, or further when frames are to be had, or not at all |
| KernelHeap.Heap.Malloc | mm/heap.c:141-215 | first fit: the lowest free block that is large enough, split when more than 40 bytes are left over and whole otherwise, else a block of exactly the size at the old break; fails only when nothing fits and the arena is exhausted; no other allocated block or byte changes; failure changes nothing; the heap stays valid and the bytes handed out lie in it exactly if nothing is handed out or the size is within the bound, and a larger size is refused unless it is misread |
| KernelHeap.Heap.Free | mm/heap.c:217-258 | the block is free and merged with free neighbours, every other allocated payload keeps its bytes; bad pointers are ignored |
| KernelHeap.Heap.Realloc | mm/heap.c:278-343 | on success the new payload starts with the first min(old, new) bytes and other payloads are untouched; the block list is the stated one; on failure, only when the arena is exhausted, nothing changed; a size above the bound that is not misread is refused |
| KernelHeap.Heap.Resize | mm/heap.c:292-343 | in place whenever the block, or the block and its free right neighbour, has the room, with exactly the stated list afterwards: shrunk, unchanged or grown; else moved to the block that an allocation hands out; every path keeps the bytes |
| KernelHeap.Heap.ShrinkBlock | mm/heap.c:301-318 | the tail becomes a free block, of exactly the bytes left over, joined with a free right neighbour |
| KernelHeap.Heap.AbsorbNext | mm/heap.c:321-329 | a free right neighbour is taken in whole and the payload keeps its bytes |
| KernelHeap.Heap.Move | mm/heap.c:331-342 | a fresh payload with the old bytes, the old block freed |
| BitTricks.Pow2Test | mm/pmm.c:567-568 | n & (n - 1) is zero exactly for powers of two |
| BitTricks.RoundUp | mm/pmm.c:586 | the masked sum is the lowest aligned frame not below |
| BitTricks.AlignedIsMultiple | mm/pmm.c:586 | aligned means divisible, for powers of two |
| Frames.TouchedFrames | mm/pmm.c:135-137 | the shifted bounds are those of the frames that hold a byte of the range |
| Frames.SkipBlocked | mm/pmm.c:591-598 | skipping past a blocking frame misses no aligned run |
| Frames.NoRoom | mm/pmm.c:588-589 | stopping when the next aligned frame leaves no room misses no run |
| Frames.PhysMem.constructor | mm/pmm.c:369-370 | every frame starts used and counted |
| Frames.PhysMem.FindFirstFree | mm/pmm.c:77-94 | the lowest free frame, or there is none, despite skipping full bytes |
| Frames.PhysMem.FindFirstFreeN | mm/pmm.c:99-121 | the lowest run of count free frames, or there is none |
| Frames.PhysMem.Reserve | mm/pmm.c:126-150 | exactly the frames of which the range holds a byte, clipped to memory, become used and the count follows |
| Frames.PhysMem.Unreserve | mm/pmm.c:155-179 | exactly the frames of which the range holds a byte, clipped to memory, become free and the count follows |
| Frames.PhysMem.IsRegionFree | mm/pmm.c:181-201 | true exactly for a non-empty range all of whose bytes lie in existing free frames |
| Frames.PhysMem.AllocFrame | mm/pmm.c:430-445 | the lowest free frame is taken; with frame 0 in use the result is 0 exactly when none is free |
| Frames.PhysMem.AllocFrames | mm/pmm.c:450-468 | the lowest run of count free frames is taken, or there is none |
| Frames.PhysMem.FreeFrame | mm/pmm.c:473-490 | exactly one frame becomes free; address 0 and frames beyond memory are ignored |
| Frames.PhysMem.FreeFrames | mm/pmm.c:495-515 | exactly the run becomes free and only frames that were used are uncounted |
| Frames.PhysMem.AllocAligned | mm/pmm.c:560-612 | terminates; takes the lowest aligned run of count free frames exactly when one exists; other alignments are refused |
| Frames.PhysMem.AllocAt | mm/pmm.c:613-635 | succeeds exactly when the frames exist and are all free, and takes exactly them |

## Left out

- BTreeStore.BTree.Insert: error returns in the middle of a split (no space, no memory, I/O) promise nothing about the tree.
- BTreeStore.BTree.Delete: error returns in the middle of a repair promise nothing about the tree. A block whose release fails is lost as a whole; what the failed release does to the allocator's counts is in `Bitmap.Allocator.FreeRange`.
- BTreeStore.BTree.NewRoot: formatting, when it cannot write the leaf, gives up the volume instead of giving back the block.
- BTreeStore.BTree.Iterate: the callback's answer depends on the entries it has been called with and nothing else; callbacks that change the tree while it is walked are not modelled.
- JournalLog.Journal.Commit: `Settled` is promised on success only. From a state whose windows do not spare the head nothing is promised about a crash inside the commit.
- JournalLog.CrashAndRecover: block 0 is written in one piece, and a crash inside a flush finds each journal block as it was or as it is now.
- JournalLog.Journal.RedoEntry: a WRITE payload is at most 4032 bytes; a block's meaning is its logged bytes, the rest of the 4096 bytes that the source copies is not modelled.
- JournalLog.Journal.Abort: the cache is not rolled back, so nothing is stated about home locations that an aborted transaction had written.
- JournalLog.Journal.Replay: the free count in the superblock and the region counts that bitmap updates move during redo are not modelled.
- Files.FileSystem.FreeRange: a release that fails leaves or sets some bits of the run and touches nothing else, as `Bitmap.Allocator.FreeRange` does; counters are not part of this class.
- Files.FileSystem.Create: the directory entry and the record table are modelled in their own classes; here a record is one map entry and one block.
- Files.FileSystem.Truncate: a record image too long for a journal entry counts as any other write failure.
- Files.FileSystem.Write: the view is described for a file whose extents do not overlap before the write and for `offset + len` below 2^64; otherwise only soundness, sizes and the other files are. Which of its two places a blind block reads from is not determined further.
- Files.FileSystem.Read: the cast of the byte count to the return type is not modelled.
- Files.FileSystem.PunchHole: with a hole that ends before it starts, a call that fails after the first release promises only that the records are as before; the end of the physical address range is not modelled.
- Extents.AddExtent: the block count of an extent is unbounded, so extents that merge to 2^32 blocks are not modelled.
- Bitmap.Allocator.AllocRange: the per-region hint, which nothing reads, is left out. After an undo that failed itself, which takes a failing append and a failing buffer or transfer, only this is promised: no allocated block became free, and a run that is handed out was free.
- Bitmap.Allocator.FreeRange: for blocks beyond the data area nothing is said about region counts and total. Bits beyond the bitmap blocks are those of whatever blocks follow on the device; a bit beyond the device is one that cannot be read, also where the sector number leaves 32 bits.
- Attributes.AttrBuffer.Add: the null-pointer test of the data argument is not modelled; the data is a sequence.
- Attributes.AttrBuffer.Iterate: the callback's answer depends on the attributes it has been called with and nothing else; it does not change the buffer.
- Records.RecordStore.Free: the release of the record's extents is in `Files.FileSystem.Remove`, and the DELETED flag, which nothing reads, is left out.
- Files.FileSystem.Remove: the record's own block and slot are given back in `Records.RecordStore.Free`.
- KernelHeap.Heap.Malloc: of the heap after a misread request nothing is stated but that it is not valid or the bytes are not backed; a header that is written beyond committed memory faults on the machine. Words are those of the 64-bit build. Callers of `sbrk` other than the heap are excluded.
- KernelHeap.Heap.Free: a pointer inside the arena that is no payload is excluded by a precondition; the source reads whatever is there.
- KernelHeap.Heap.Realloc: sizes that `Malloc` misreads are excluded by a precondition, as is a pointer inside the arena that is no allocated payload; the allocation and the release it performs are one atomic step.
- Frames.PhysMem.Reserve: address arithmetic is taken not to leave the machine word.
- Frames.PhysMem.Unreserve: address arithmetic is taken not to leave the machine word.
- Frames.PhysMem.IsRegionFree: address arithmetic is taken not to leave the machine word.
- Reading the boot memory map and placing the bitmap (mm/pmm.c:203-413) are not modelled beyond the initial all-used bitmap.
- A step named in `failing` may fail every time it is taken; single disk transfers, appends and allocations of memory are not told apart.
- Checksums and header tests are one abstract "intact" fact.
- Locks: every call is one atomic step.
- Paths, directories as records, file descriptors, mount and format code, calloc and the debug printers are left out: they only call what is modelled.
- `mm/vmm.c`, `kernel/kscope.c`, `fs/amfs.c`, drivers, the shell and the user interface are outside this model.
