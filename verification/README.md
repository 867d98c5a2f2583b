# A verified model of the UltimateDB engine

The project models the algorithmic layers of UltimateDB, an embedded database engine written in Go, and proves what
each layer is for. Layers that work on bytes are modelled on bytes: 32 KB pages, log frames and segment files are
buffers that the methods edit in place, and every method is proved against a specification on values. Protocols are
state machines, and the theorems about them hold for every run.

| layer | modules | main results |
|---|---|---|
| B+ tree on raw pages | `Bytes`, `PageHeader`, `PageCells`, `LeafPage`, `InternalPage`, `PageSplit`, `TreeModel`, `TreeOps`, `TreeSplit`, `TreeLookups`, `TreeCascade`, `TreeLatch`, `BTree`, `TreeScan`, `TreeCursor`, `TreeJoin` | the tree refines a sorted list of cells; splits keep its meaning, its routing and its leaf chain, with the exact lookups after every split that does not, up through any number of full pages; scans are complete; cursors, prefix iteration and merge join are, under exact conditions |
| Write-ahead log and recovery | `Wal`, `RecoveryModel`, `Recovery`, `RecoveryPages` | LSNs are byte offsets and decode to what was appended; a file is accepted exactly if it consists of frames with right checksums; whatever the pages held at the crash, analysis, redo and undo leave the winners only at every logged place, with the exact condition at offset 0 |
| Two-phase locking | `LockTable`, `Serializability` | when a request waits, exactly; lock table invariant over all interleavings; strict runs are equivalent to the serial run in release order |
| Buffer pool | `Lru`, `PoolModel`, `BufferPool` | the pool is transparent over every history with device failures; eviction takes the least recently used unpinned page |
| Slotted pages | `SlottedPage`, `SlottedDb` | a page refines its list of records; reads and scans agree; compaction fits, and the exact condition for it to keep a read |
| Full-text search | `Roaring`, `Segment`, `Query` | the result over a written segment is the set of documents the query holds of; the parser is exactly the grammar up to its depth bound, and inverts printing |
| Optimistic version store | `VersionStore` | what every read answers and when a commit passes, exactly, in every run; no lost update, repeatable reads |
| Canonical Huffman code | `Huffman`, `HuffmanStream` | codes fit and are prefix-free, the lookahead table is exact, and texts decode back if and only if a stated condition holds |

Where the code does not do what its documentation suggests, the model follows the code, a lemma shows the effect, and
the exact condition is stated:

- An insert into a full leaf purges the old cells of the key, splits the leaf and returns without inserting
  (btree.go:372-377): `BTree.Tree.Insert` says that the key is then absent.
- A full parent is split without taking the pending pivot (btree.go:543-546): `TreeCascade.FullAncestors` says which
  keys are no longer found, for any number of full pages above the leaf. `TreeLatch.PanicsExactly` says when the
  promotion needs a page whose latch was already given back (btree.go:363-366, 541).
- The pivot of an internal page that equals the separator behind the page overwrites the next child (btree.go:692-710):
  `TreeLookups.PromotedExactly` says exactly when lookups survive, `TreeLookups.EqualPivotLoses` shows data lost.
- A cursor takes an empty first leaf for the end, and reads a cell from any later empty leaf (btree.go:93, 115-129):
  `TreeCursor.CursorExact` and `TreeCursor.PrefixExact` say exactly when the iteration is complete.
  `TreeJoin.SplitOneCell` comes to such a tree with two insertions.
- A leaf cut between two cells of one key answers with the second one afterwards, and the split of an empty leaf takes
  the place of its parent's first child (btree.go:406, 445): `TreeLookups.SplitKeepsLookupsExactly` and
  `TreeLookups.EmptySplitExactly` say exactly when lookups survive.
- Undo takes LSN 0 for "no record" (recovery.go:214, 254): `Recovery.RecoveryExact` says exactly when this matters.
- Asking for an exclusive lock while holding a shared one next to another holder is never granted
  (lock_manager.go:42-53): `Serializability.UpgradeWaitsForever`.
- The eviction loop never reports exhaustion when every page is pinned (storage.go:292-318): `BufferPool.AllPinnedSpins`.
- A new page may already be resident, and is then formatted under its users (storage.go:332-342):
  `BufferPool.Pool.NewPage`, `BufferPool.NewPageKeepsExactly` and `BufferPool.ResidentIsFormatted`.
- Read takes the last slot and compaction the highest transaction number (db.go:149-150, 322):
  `SlottedDb.CompactionExact` says exactly when a read is unchanged, `SlottedDb.CompactionRevertsSmallerTxn` shows a write undone.
- Decoding loses a last seven-bit character that ends on a byte boundary (compression.go:176):
  `HuffmanStream.ShippedDecodable`.

Time, device failures, fresh page ids and the CRC32 function are parameters.

## Model

| member | source | states |
|---|---|---|
| Bytes.LittleEndian | storage.go:52-58 | numbers are stored with the least significant byte first |
| PageCells.ParsePack | btree.go:572-601 | cells laid out one after another in a page are exactly what a scan of that page reads back |
| PageCells.PackParse | btree.go:41-67 | what a scan reads is what stands in the page, byte for byte, from the first cell to the last |
| PageCells.IsSafeForInsert | btree.go:41-67 | answers whether the cells, the header and the new bytes stay below the page size |
| PageCells.DeleteCell | btree.go:653-674 | sliding the tail down removes exactly the one cell, keeps the header and the other cells in order, and clears the place of the last cell |
| LeafPage.DecodeEncodeCell | btree.go:620-651 | a cell decodes to the key and value it was encoded from |
| LeafPage.Get | kv_store.go:378-414 | the answer is the value of the first cell with the key, missing if there is none |
| LeafPage.Delete | kv_store.go:429-496 | reports whether the key was there, and removes its first cell only |
| LeafPage.PurgeKey | btree.go:572-601 | removes every cell of the key, however many duplicates there are, and no other |
| LeafPage.InsertIntoLeaf | btree.go:572-651 | with room the cell list becomes the old one without the key and with the new cell before the first greater key; without room the key is only purged; the page stays whole |
| InternalPage.FindChild | btree.go:550-570 | the child is the one left of the first separator greater than the key, else the rightmost |
| InternalPage.InsertIntoInternal | btree.go:676-719 | the separator list and the rightmost child become those of the pivot inserted in order; refuses when there is no room and changes nothing |
| InternalPage.InsertRouting | btree.go:676-719 | after the insertion keys of the split child go left below the pivot and right otherwise, and every other key routes as before |
| InternalPage.SplitRouting | btree.go:448-514 | routing by the pivot into one of the two halves equals routing in the whole node, for every key |
| PageSplit.SplitLeaf | btree.go:387-446 | the two pages hold the lower and upper half of the cells, linked in the chain, and the key returned is the first of the upper half |
| PageSplit.SplitInternal | btree.go:448-514 | the two pages hold the separators below and above the pivot, which goes up, and the pivot's child becomes the left rightmost child; without separators the left page loses its child and the new count wraps to 65535 |
| PageSplit.FormatRoot | btree.go:516-539 | a new root has the one separator and the two children |
| TreeModel.Rebuild | btree.go:516-548 | replacing one subtree by one with the same place keeps the tree well formed and changes contents and leaves only there |
| TreeModel.FlattenRange | btree.go:266-290 | what a subtree stores is sorted and lies within the range its separators leave it |
| TreeOps.LookupRefines | kv_store.go:378-414 | descending to a leaf and searching it finds the same as searching everything stored |
| TreeOps.FirstMatchIs | kv_store.go:378-414 | a search answers the first cell of the key, and nothing only if no cell has it |
| TreeOps.PutRefines | btree.go:292-340 | changing the responsible leaf puts the cell into the sorted contents of the whole tree |
| TreeOps.PurgeRefines | btree.go:572-601 | purging the responsible leaf purges the whole tree: no other leaf holds the key |
| TreeOps.DropRefines | kv_store.go:429-496 | dropping a key's first cell in its leaf drops its first cell in the tree |
| TreeOps.MatchPut | btree.go:572-651 | after a put the key has the new value and every other key the value it had |
| TreeOps.MatchPurged | btree.go:572-601 | after a purge the key is missing and every other key has the value it had |
| TreeOps.DropFirstStrict | kv_store.go:429-496 | with strictly sorted keys a delete removes exactly the key |
| TreeOps.DropFirstIs | kv_store.go:429-496 | a delete takes out the first cell of the key and leaves every other cell in place |
| TreeOps.PutIs | btree.go:572-651 | a put leaves exactly the cells of other keys, in their order, and adds the one new cell |
| TreeOps.PutStrict | btree.go:572-651 | a put keeps strictly sorted cells strictly sorted |
| TreeOps.SplitChild | btree.go:676-719 | putting a pivot between two halves of a child keeps the node above well formed with the same contents |
| TreeSplit.LeafHalves | btree.go:387-446 | cutting a leaf between different keys gives two leaves that divide its range at the pivot |
| TreeSplit.InnerHalves | btree.go:448-514 | cutting an internal node gives two subtrees that divide its range at the pivot |
| TreeSplit.SplitKeepsTree | btree.go:516-548 | splitting any node below the root and promoting its pivot to the node's own place, which every pivot has that differs from the separator behind the node, keeps the tree, its contents and the order of its leaves; `TreeLookups.PromotedLookups` has the other pivots |
| TreeSplit.RootSplitKeepsTree | btree.go:516-539 | the same for the root, under a new root |
| TreeSplit.LeafSplitKeepsTree | btree.go:387-446 | a leaf split with promotion keeps the contents, and the leaf chain lists the new leaves in order |
| TreeSplit.RootLeafSplitKeepsTree | btree.go:516-539 | the same when the leaf is the root |
| TreeSplit.SameContentsSameLookups | btree.go:266-290 | trees with the same contents answer every lookup alike |
| TreeLookups.SplitLookups | btree.go:387-446 | after splitting any non-empty leaf, duplicates or not, every key keeps its value but the key at the cut, which has that of the cell there |
| TreeLookups.RootSplitLookups | btree.go:516-539 | the same when the leaf is the root |
| TreeLookups.SplitKeepsLookupsExactly | btree.go:387-446 | the split keeps all lookups if and only if the cell at the cut is what a search of the leaf finds of its key |
| TreeLookups.DuplicateCutChanges | btree.go:406-423 | two cells of one key cut apart: the first is found before, the second after |
| TreeLookups.LostPivot | btree.go:543-546 | a split page of any height whose pivot is dropped leaves a tree in which exactly the keys from the pivot to the end of its range are not found |
| TreeLookups.PromotedKeeps | btree.go:448-548 | an internal page of any height split in the middle, with its pivot promoted into the page above or a new root, leaves a tree with the same contents unless the pivot equals the separator behind the page |
| TreeLookups.PromotedLookups | btree.go:692-710 | after splitting any internal page with separators every key keeps its value, except that the keys of the child behind it are not found when the pivot equals the separator between the two |
| TreeLookups.PromotedExactly | btree.go:692-710 | all lookups are kept if and only if the pivot differs from the separator behind the page or that next child stores nothing |
| TreeLookups.EqualPivotLoses | btree.go:692-710 | a tree with such an equal pivot, whose split loses the page that holds everything |
| TreeLookups.EmptySplitLookups | btree.go:406-445 | splitting an empty leaf: exactly the keys of its parent's first child are not found afterwards |
| TreeLookups.EmptySplitExactly | btree.go:406-445 | lookups are kept if and only if that first child holds nothing |
| TreeLookups.EmptySplitLoses | btree.go:676-719 | an empty leaf right of a full one whose split loses the full one |
| TreeCascade.CutUpLookups | btree.go:543-546 | when the lowest pages on a path are cut and no pivot is promoted, a lookup searches the first half of the leaf, and the keys from each dropped pivot to the end of its page's range are not found |
| TreeCascade.FullAncestors | btree.go:516-548 | the split of any leaf, empty or with duplicates at the cut, below any number of full pages, each of which is split in turn: what every lookup answers afterwards, and that it is a tree when the last pivot fits |
| TreeCascade.UpperHalfLost | btree.go:543-546 | below a full page the key at a clean cut was stored and is no longer found |
| TreeCascade.SplitChain | btree.go:397-400 | however a leaf is split, through duplicates, empty or below full pages, the leaf chain lists the same cells in the same order |
| TreeLatch.PanicsExactly | btree.go:363-366 | the promotion runs out of latched pages exactly when the lowest ancestor that is safe for the new cell is not the root and neither it nor a page below it has room for the pivot offered to it |
| TreeLatch.NoSepsNoRoom | btree.go:676-680 | a page without separators has no room only for a pivot of almost a page |
| TreeSplit.ChainSplit | btree.go:397-400 | relinking the two halves keeps the leaf chain |
| BTree.Tree.constructor | kv_store.go:79-88 | a reset root is an empty, valid tree |
| BTree.Tree.FindLeaf | btree.go:266-290 | the descent ends at the leaf responsible for the key, and knows the page above it |
| BTree.Tree.Get | kv_store.go:378-414 | answers the value of the first stored cell with the key, and missing only if there is none |
| BTree.Tree.Delete | kv_store.go:429-496 | the first cell of the key is taken out and nothing else, or nothing changes and the key was absent; every page stays whole, the tree valid, empty leaves with zeros behind the header; without duplicates exactly the key goes and none appear |
| BTree.Tree.Insert | btree.go:292-378 | inserted exactly when the leaf has room after purging: the key then has the value, every other key keeps its own and no other page changes; otherwise the key is absent, the pages and every lookup are those of the split of the purged leaf and of all full pages above it, the panic has its exact condition, and the leaf chain still lists everything but the key; a clean cut with room above keeps the tree and all other keys, and a tree without duplicates stays so |
| BTree.Tree.LatchPath | btree.go:342-370 | the descent ends at the responsible leaf with exactly the pages latched from the lowest one that is safe for the new cell, or the root, downwards |
| BTree.Tree.SplitLeaf | btree.go:387-446 | on the bytes of the pages, for any leaf: how far up pages were split because they had no room, and the pages afterwards, or the panic |
| BTree.Tree.PromoteToParent | btree.go:516-548 | a new root, the pivot in the parent if it has room, else the split of the parent, level by level; a panic when the parent is no longer latched |
| BTree.Tree.SplitInternalNode | btree.go:448-514 | a full internal page is cut, its own pivot promoted, and the pending one dropped |
| BTree.Tree.InsertPivot | btree.go:676-719 | takes the pivot exactly when the page has room, and changes no other page |
| BTree.Tree.PromoteToRoot | btree.go:516-539 | a split root, leaf or not, gets a new root above it and no other page changes |
| TreeSplit.FlattenIsFlatLeaves | btree.go:210-264 | the leaves from left to right hold the contents in order |
| TreeScan.ScanLeaf | btree.go:228-250 | one leaf contributes exactly its cells with the prefix, in order |
| TreeScan.Scan | btree.go:210-264 | the result lists exactly the stored cells whose key begins with the bytes of the prefix, in stored order |
| TreeCursor.FirstLeaf | btree.go:77-108 | the descent along first children ends at the first leaf of the chain |
| TreeCursor.Cursor.Next | btree.go:110-154 | for every tree: each call returns the next item of what the leaves contribute one after another, and behind the last one the end or the sizing error |
| TreeCursor.FeedOfLeaves | btree.go:115-129 | leaves without an empty one contribute exactly their cells; an empty one adds an item that is not stored, or an error |
| TreeCursor.CursorExact | btree.go:77-154 | a cursor returns exactly the contents and then the end if and only if no leaf is empty, or the first leaf is empty and nothing is stored |
| TreeCursor.NextWithPrefix | kv_store.go:511-531 | returns the items of the cursor that have the prefix, one a call, and then the end or the error; it skips the others and stops at the first greater one |
| TreeCursor.IteratedAll | kv_store.go:516-522 | an iteration over the empty prefix returns what the cursor does |
| TreeCursor.PrefixExact | kv_store.go:503-531 | for a non-empty prefix the iteration returns exactly the contents with the prefix if and only if the first leaf is not empty or there are none, in every tree whose empty leaves have zeros behind the header, which insertions and deletions keep |
| TreeCursor.NeverFails | btree.go:115-124 | in such a tree no cursor comes to the sizing error |
| TreeCursor.MatchingPast | kv_store.go:511-531 | behind a key greater than the prefix and without it, no key has the prefix |
| TreeJoin.SortMergeJoin | btree.go:171-208 | for any two trees, duplicates and empty leaves included: the rows are those of one merge of what the two cursors return, or an error when a side fails as the merge asks it |
| TreeJoin.JoinStep | btree.go:183-205 | what one comparison of the two heads does to the inner join |
| TreeJoin.MergeIsJoin | btree.go:183-208 | over two strictly sorted lists the merge is the inner join |
| TreeJoin.MergePairs | btree.go:183-208 | over any two sorted lists, duplicates included, the rows come in key order and those of a key pair the values of the two sides one by one until one side has no more |
| TreeJoin.JoinExact | btree.go:171-208 | over trees without duplicates and without empty leaves the result is exactly the inner join of their contents |
| TreeJoin.EmptyFirstLeafJoin | btree.go:88-94 | with an empty first leaf on either side the result is empty, whatever is stored |
| TreeJoin.SecondLeafHidden | btree.go:88-94 | a tree with an empty first leaf before a full one: its cell is stored, but the cursor and the join return nothing |
| TreeJoin.SplitOneCell | btree.go:405-436 | two insertions, the second of which does not fit beside the first, come to that tree |
| Wal.ReadFrame | wal.go:204-228 | a frame standing in the file decodes to the entry it was written from |
| Wal.FrameAt | wal.go:204-228 | entry i of a log stands at the offset that is its LSN |
| Wal.PrevBelow | wal.go:89-124 | a back pointer is below the LSN of its entry |
| Wal.Log.Append | wal.go:89-124 | the LSN is the old file length, the back pointer the transaction's previous LSN, and nothing written before changes |
| Wal.Log.Checkpoint | wal.go:183-196 | the log is consistent afterwards exactly when no transaction was unfinished |
| RecoveryModel.AllTracked | recovery.go:20-51 | in every sound log, each place is either untouched by losers or its oldest open update holds the winners' value |
| RecoveryModel.UndoneValue | recovery.go:199-261 | undoing from newest to oldest leaves the before-image of the oldest open update |
| RecoveryModel.RecoveryKeepsWinners | recovery.go:20-51 | whatever the pages held at the crash, redo of everything and undo of the losers leave every logged place as the winners alone would have from the state the log began in |
| RecoveryModel.UnloggedKept | recovery.go:20-51 | a place the log does not write keeps what it held |
| Recovery.ParseFrames | recovery.go:105-151 | reading the frames of a log gives the log |
| Recovery.AcceptsExactly | recovery.go:105-151 | a file is accepted and read as a log if and only if it is the frames of the entries of that log, each with the checksum of its other bytes |
| Recovery.DamagedFrame | recovery.go:135-137 | a frame behind intact ones whose first four bytes are not the checksum of the others spoils the file |
| Recovery.Analysis | recovery.go:105-151 | one pass over the file gives the table of unfinished transactions with their last LSNs; it succeeds if and only if the file consists of frames with right checksums |
| Recovery.AnalysisFindsLosers | recovery.go:105-151 | the table names exactly the transactions without an end, each at the head of its chain |
| Recovery.ChainBack | recovery.go:240-258 | a back pointer leads to the same transaction's previous entry, or to none |
| Recovery.RedoPass | recovery.go:157-193 | appends, in log order, one record for every update and compensation to its page |
| Recovery.HighestLsn | recovery.go:203-212 | picks the loser with the greatest last LSN |
| Recovery.UndoRound | recovery.go:199-261 | a round undoes the greatest remaining loser record, skips no open update and lowers the bound |
| Recovery.UndoPass | recovery.go:199-261 | terminates; the updates visited are exactly the losers' updates except one at offset 0, in strictly falling order, each once; their before-images are appended to the pages; no transaction left in the table had one |
| Recovery.Recover | recovery.go:20-69 | for every log Append wrote and any pages at the crash: every logged place reads the recovered value, to every reader, with the transactions left running; other places read as before; in sound logs without a loser's update at offset 0 the recovered values are the winners' |
| Recovery.PassesRead | recovery.go:20-69 | what reads of the pages return after the passes, for every page, key, reader and time |
| Recovery.RecoveredWinners | recovery.go:20-51 | the recovered value of a logged place is the winners' |
| Recovery.RecoveryExact | recovery.go:214-254 | the recovered values are the winners' if and only if no loser's update stands at offset 0 or it left behind what it found |
| Recovery.LoserAtStartSurvives | recovery.go:214-214 | a log of one update at offset 0 whose loser survives recovery |
| Recovery.FlushedLoserUndone | recovery.go:239-249 | a loser's value that had reached the page before the crash is taken back |
| RecoveryPages.RestoreCarries | db.go:427-462 | a record restored on a slotted page acts as assigning the value, and leaves the records of other keys and pages alone |
| RecoveryPages.CarriedRead | db.go:283-341 | a restored place reads the restored value to every reader, while no restoring transaction runs |
| RecoveryPages.UncarriedRead | db.go:283-341 | any other place reads as it did |
| LockTable.AcquireInv | lock_manager.go:27-85 | a request keeps the invariant: one holder of an exclusive lock, no entry without holder, index equal to holders, every blocked ticket queued once or signalled once |
| LockTable.WakeInv | lock_manager.go:67-84 | so does the round after a received signal |
| LockTable.ReleaseInv | lock_manager.go:94-117 | so does a release, after which the transaction no longer holds the lock |
| LockTable.AcquireBlocks | lock_manager.go:27-66 | a request waits if and only if another transaction holds the lock and that lock or the request is exclusive |
| LockTable.AcquireAnswers | lock_manager.go:27-70 | granted, the transaction has joined the holders in the mode it asked for or a stronger one; else a new ticket waits and nobody holds anything new |
| LockTable.WakeAnswers | lock_manager.go:67-84 | the same for a woken request, which waits again if and only if somebody holds the lock and one of the two wants it alone |
| LockTable.ReleaseGivesBack | lock_manager.go:94-117 | exactly the one holding ends, and exactly those who waited for a lock that nobody holds any more are signalled |
| LockTable.ReleaseAllGivesBack | lock_manager.go:119-144 | the same for all locks of a transaction |
| LockTable.ReleaseAllInv | lock_manager.go:119-144 | so does releasing everything, after which the transaction holds nothing |
| LockTable.SendsNeverBlock | lock_manager.go:106-114 | each waiter of the locks emptied is sent one signal and had none before, so no send blocks |
| LockTable.LastHolderWakesAll | lock_manager.go:102-112 | emptying a lock signals every ticket that waits for it |
| LockTable.Manager.Request | lock_manager.go:27-85 | granted, the transaction holds the lock, alone if it asked so; it is blocked if and only if another transaction holds the lock and one of the two wants it alone; no other lock changes |
| LockTable.Manager.Resume | lock_manager.go:67-84 | the same after a signal, for the request the ticket stands for |
| LockTable.Manager.ReleaseOne | lock_manager.go:94-117 | exactly the one holding ends; if nobody is left all who wait are signalled |
| LockTable.Manager.Finish | lock_manager.go:119-144 | the loop over the keys, in any order, ends exactly the holdings of the transaction and signals all who wait for a lock that became free |
| Serializability.RunInv | lock_manager.go:27-144 | every run keeps: the history equals the serial history of the finished transactions followed by the rest |
| Serializability.MoveTxnFront | interfaces.go:93-105 | operations of a transaction that conflict with nothing before them can be moved to the front without changing reads or data |
| Serializability.ConflictsWaitForRelease | lock_manager.go:55-85 | of two conflicting operations the earlier one's transaction has released everything before the later happens |
| Serializability.Serializable | lock_manager.go:119-144 | in every run from any data, the history and the serial history in release order read the same values and leave the same data |
| Serializability.UpgradeBlocks | lock_manager.go:42-65 | an upgrade next to another holder queues its own transaction |
| Serializability.UpgradeWaitsForever | lock_manager.go:42-65 | such a ticket is never signalled in any run |
| Lru.PromoteRecency | lru_policy.go:26-37 | moving a page to the front keeps the list ordered by time of last use |
| Lru.Policy.RecordAccess | lru_policy.go:26-37 | the page is at the front and the order of the others unchanged |
| Lru.Policy.Evict | lru_policy.go:41-55 | takes the tracked page used longest ago |
| Lru.Policy.Remove | lru_policy.go:59-67 | takes out exactly the page |
| PoolModel.StampSame | storage.go:103-105 | a stamped page passes the checksum test and differs in the checksum field only |
| PoolModel.Install | storage.go:209-252 | a page read in becomes resident with the contents it had, frames stay partitioned, other pages are untouched |
| PoolModel.DropPage | storage.go:319-320 | dropping an unpinned page that is on the device changes nothing a client sees |
| PoolModel.WriteKeeps | storage.go:306-317 | writing a page, even when the write fails and leaves arbitrary bytes, changes nothing a client sees |
| BufferPool.Pool.FetchPage | storage.go:190-254 | returns the last contents given to the page apart from the checksum field, pins it, and keeps every other page, pinned ones in place; a slotted page read from the device is refused as corrupt only, and handed out never, with a checksum field that is neither zero nor that of its other bytes |
| BufferPool.Pool.UnpinPage | storage.go:255-266 | releases one pin, records the dirty flag, changes no contents |
| BufferPool.Pool.GetAvailableFrame | storage.go:268-322 | finds the first free frame, or that of the least recently used unpinned page which alone leaves the pool, or fails with nothing changed for clients |
| BufferPool.Pool.EvictOne | storage.go:292-321 | the loop ends when some resident page is unpinned, passing over pinned pages as just used |
| BufferPool.Pool.FlushAll | storage.go:351-393 | keeps all contents, pins and places; on success every page nobody is changing is readable on the device |
| BufferPool.Pool.NewPage | storage.go:324-345 | the page at the end of the device, resident or not, comes back formatted and pinned and is remembered as empty, other pages are kept; when the write fails nothing but the device under the page changes |
| BufferPool.NewPageKeepsExactly | storage.go:332-342 | a formatted page holds a list of records exactly when it is empty |
| BufferPool.ResidentIsFormatted | storage.go:332-342 | a resident page with a record past the end of the device: taking it as the new page leaves it without the record |
| BufferPool.PastEndIsBlank | storage.go:332-337 | a page neither resident nor on the device had nothing to lose |
| BufferPool.OldestIsLeastRecent | lru_policy.go:41-55 | the victim is, of all unpinned resident pages, the one used longest ago |
| BufferPool.AllPinnedSpins | storage.go:292-302 | with every resident page pinned, every round of the search meets another pinned page |
| SlottedPage.DecodeEncode | db.go:242-252 | a record decodes to what was encoded |
| SlottedPage.RecordAt | storage.go:114-122 | each slot leads to its record, inside the page |
| SlottedPage.LayoutAppend | db.go:233-262 | appending tiles the page further: directory below, records above, the new one included |
| SlottedPage.IsSafeForInsert | storage.go:131-136 | says whether directory, records, a new slot and the required bytes fit the page |
| SlottedPage.Append | db.go:233-262 | the page holds the old records and the new one |
| SlottedDb.ReadMeaning | db.go:283-341 | a read answers a value exactly when the last record of the key by the reader or a finished transaction is unexpired and holds it |
| SlottedDb.ReadUntil | db.go:283-341 | a record that the reader sees, with none of its key behind it, is read until its end of life and not after; an end of life beyond 63 bits counts as past |
| SlottedDb.Db.Read | db.go:283-341 | the loop over the slots computes that answer |
| SlottedDb.ScanIsRead | db.go:343-393 | the scan's map holds a pair exactly when the key has the prefix and reading it answers the value |
| SlottedDb.Db.Scan | db.go:343-393 | the loop over the slots yields exactly those pairs |
| SlottedDb.Db.Write | db.go:199-270 | appends when there is room; otherwise compacts, then appends or refuses; a page with an impossible upper boundary is formatted first; once written the value is read for the time to live, or for a hundred years without one, and not after |
| SlottedDb.Db.RestoreWrite | db.go:427-462 | the same for a replayed write, with its own transaction and expiry |
| SlottedDb.Db.BeginTxn | db.go:54-61 | issues the next number and runs it |
| SlottedDb.Db.CommitTxn | db.go:63-68 | ends the transaction and changes no record |
| SlottedDb.ReadIsLatestWrite | db.go:283-341 | in every run without compaction a read returns the latest unexpired write to the key by the reader or by a transaction that is over, and nothing else |
| SlottedDb.WriteIsRead | db.go:199-341 | in every run without compaction, from a write by the reader or a transaction that is over until the next write to the key, the value is read until its end of life and not after |
| SlottedDb.KeepWitness | db.go:137-165 | what compaction keeps of a key is its unexpired record of the highest transaction, the first of equals |
| SlottedDb.RepackFits | db.go:167-192 | in whatever order and however far, repacking needs no more slots and no more bytes than before |
| SlottedDb.Db.Compact | db.go:119-196 | the page is rebuilt, within bounds, from exactly the kept records in some order |
| SlottedDb.CompactedMeaning | db.go:119-196 | at most one record per key, unexpired and stored before |
| SlottedDb.CompactionExact | db.go:119-196 | for every page, reader, key and time a compaction leaves a read unchanged if and only if the newest live record, if seen, agrees with the last seen one, and otherwise the last seen one is not live |
| SlottedDb.CompactionKeepsReads | db.go:119-196 | in particular when the key's records are finished, their numbers rise by slot and no expired one follows a live one |
| SlottedDb.ReadAfterCompaction | db.go:149-150 | what any reader gets of any key after a compaction, without hypotheses |
| SlottedDb.CompactionRevertsSmallerTxn | db.go:149-150 | a later write with a smaller number is replaced by the earlier value |
| Roaring.Intersect | roaring.go:42-54 | the merge gives the ascending list of the common values |
| Roaring.Union | roaring.go:56-71 | the merge gives the ascending list of the values of either |
| Roaring.Difference | roaring.go:73-86 | the merge gives the ascending list of the values of the first only |
| Roaring.Bitmap.Add | roaring.go:17-27 | exactly the value is added and chunks stay strictly ascending |
| Roaring.RoaringIntersect | roaring.go:42-54 | a value is in the result exactly when it is in both |
| Roaring.RoaringUnion | roaring.go:56-71 | a value is in the result exactly when it is in either |
| Roaring.RoaringDifference | roaring.go:73-86 | a value is in the result exactly when it is in the first and not in the second |
| Segment.TokenizeClean | index.go:17-22 | tokens are non-empty lower-case words, and such a word is its own only token |
| Segment.TokenizeSplit | index.go:17-22 | a byte that is no letter or digit separates the tokens before it from those behind it |
| Segment.TokenizeWord | index.go:17-22 | a text of letters and digits is one token, with capital letters made small |
| Segment.MemIndex.Add | index.go:41-55 | every term's list is the ids of the documents that contain it, once per document added |
| Segment.PostedMeaning | index.go:41-55 | an id is in a term's list exactly when a document added under it contains the term |
| Segment.PostedOnce | index.go:41-55 | each document with the term stands in its list once, in the order they were added |
| Segment.ReadUvarintWritten | index.go:88-93 | a variable-length number below 2^64 reads back, whatever follows |
| Segment.ReadIdsWritten | index.go:154-180 | the deltas of an ascending list decode to the list |
| Segment.SortMeaning | index.go:80-80 | sorting a list keeps its ids as a multiset and makes it ascending |
| Segment.WriteSegment | index.go:57-108 | the file is the lists in term order, the dictionary, and the dictionary's offset |
| Segment.InitDict | index.go:120-151 | reads the dictionary entries up to the first damaged one, from any bytes |
| Segment.DictOfSegment | index.go:120-151 | for a written segment each term is mapped to the offset of its list, and no other term is |
| Segment.FetchIsPostings | index.go:154-180 | fetching a term from a written segment gives its ids in ascending order, nothing for an unknown term |
| Query.TermFound | ast.go:15-22 | the ids fetched for a term are exactly the documents that contain it |
| Query.Execute | ast.go:15-40 | over the segment of a set of documents an id is in the result exactly when the query holds of it |
| Query.WriteAndExecute | index.go:57-108 | the same through writing the segment, reading its dictionary and merging bitmaps |
| Query.Parser.ParseExpression | ast.go:66-81 | terminates on every token list and follows the grammar |
| Query.Parser.ParseTerm | ast.go:83-103 | the same for the AND and NOT level |
| Query.Parser.ParseFactor | ast.go:105-128 | the same for terms and parentheses |
| Query.ParseQuery | ast.go:48-128 | gives a query if and only if some beginning of the tokens of the text is an expression of the grammar that means it, nested at most 15 deep, with no operator behind it |
| Query.ParseExact | ast.go:55-128 | the parser gives a query of some tokens if and only if the grammar derives it: OR below AND and NOT, all to the left, parentheses, and the first run of letters and digits of a word |
| Query.TokensAtSpace | ast.go:51-51 | white space separates tokens and belongs to none |
| Query.TokensAtParen | ast.go:49-51 | a parenthesis is a token of its own whatever stands beside it |
| Query.TokensOfWord | ast.go:51-51 | a text without white space and parentheses is one token |
| Query.TokensOfJoin | ast.go:49-51 | splitting a text of joined tokens gives the tokens |
| Query.ParsePrinted | ast.go:55-128 | a query over clean terms, printed with the fewest parentheses, parses back to itself and uses all tokens exactly when its parentheses nest at most 15 deep, and is refused otherwise |
| Query.ParseTextPrinted | ast.go:48-128 | the same from the printed text |
| Query.TooDeep | common.go:38-38 | sixteen opening parentheses are refused whatever follows |
| VersionStore.AppendKeeps | query.go:71-106 | a version that passed validation keeps its chain ascending and its writers apart |
| VersionStore.Store.BeginOCC | query.go:37-44 | the begin step: a new number and the time as snapshot |
| VersionStore.Store.Read | query.go:46-69 | answers by the newest visible version, unless deleted or expired, and refuses unknown transactions |
| VersionStore.Store.ValidateAndCommit | query.go:71-110 | the commit step: it passes exactly when no key of the write set was last written by another transaction since the snapshot; then each key gets its one new version, otherwise nothing but the running set changes |
| VersionStore.StepInv | query.go:37-110 | every call keeps chains ascending and their writers apart |
| VersionStore.NoLostUpdate | query.go:71-110 | in every run of begins, reads and commits: of two commits to one key by different transactions, the later transaction was begun between them |
| VersionStore.PassesInRun | query.go:71-88 | in every run the commit of a running transaction passes if and only if no commit since its begin wrote one of its keys |
| VersionStore.PassesOutside | query.go:71-88 | a commit outside a transaction passes if and only if each of its keys was last written under the same number, or never |
| VersionStore.GrowsTrans | query.go:71-110 | over any number of commits chains only grow, by versions of later times |
| VersionStore.ReadsRepeat | query.go:46-69 | in every run: the version a running transaction sees changes only after a commit by itself or by a transaction of a smaller number |
| VersionStore.ReadInRun | query.go:46-69 | in every run a read answers the value of the last commit to the key that happened before the begin or carries no greater number, until it expires; gone if it deleted the key or has expired |
| VersionStore.ReadUnknown | query.go:46-69 | a key without such a commit is unknown |
| Huffman.CodeFits | compression.go:63-74 | with Kraft's inequality every code fits into its length (section 3.2.2 of RFC 1951) |
| Huffman.PrefixFree | compression.go:63-74 | no code is a prefix of another |
| Huffman.CanonicalOrder | compression.go:63-74 | the first symbol of the shortest length has code 0, the next of the same length the next number, the first of the next length the next number shifted (section 3.2.2 of RFC 1951) |
| Huffman.TableMeaning | compression.go:76-84 | a window that starts with a symbol's code holds that symbol and its length |
| Huffman.TableEmpty | compression.go:56-57 | a window that no code starts holds nothing |
| Huffman.Tables.BuildDynamicForest | compression.go:55-84 | the loops build the canonical codes and that table |
| HuffmanStream.Pack | compression.go:142-159 | the bytes are the codes one after another, filled up with zero bits |
| HuffmanStream.Unpack | compression.go:169-191 | for all code lengths: decoding gives the packed symbols back if and only if every code fits the window and every symbol with too few bits left to fill it has code zero |
| HuffmanStream.ShippedKraft | compression.go:39-53 | the shipped lengths meet Kraft's inequality |
| HuffmanStream.ShippedDecodable | compression.go:39-53 | for the shipped code the condition in terms of characters: none of nine bits, and no seven-bit character but the space last on a byte boundary |
| HuffmanStream.PackThenUnpack | compression.go:142-191 | building the tables, packing a text and decoding it gives it back if and only if that condition holds |

## Left out

- Latches, `MemVersion` and races between goroutines in the tree and the pool: operations there are one at a time. Only the lock manager and the transactions over it are interleaved.
- BTree.Tree.Insert: a full internal page has separators, and a root leaf's middle key fits a page of its own; both fail only for keys of almost a page (`TreeLatch.NoSepsNoRoom`). What the split of an internal page without separators does to the bytes is `PageSplit.SplitInternal`. What goroutines do after a panic is not modelled.
- BTree.Tree.SplitLeaf: the same.
- BTree.Tree.PromoteToParent: the same.
- TreeSplit.LeafHalves: a cut between different keys; `TreeLookups.SplitLookups` covers all cuts.
- TreeSplit.LeafSplitKeepsTree: a cut between different keys, which every cut of a tree without duplicates is.
- TreeSplit.RootLeafSplitKeepsTree: the same.
- TreeSplit.SplitKeepsTree: a pivot that goes to the split node's own place; `TreeLookups.PromotedLookups` covers all pivots.
- TreeLookups.PromotedKeeps: the same.
- TreeLookups.PromotedLookups: an internal page with separators, as for `BTree.Tree.Insert`.
- TreeCascade.FullAncestors: the same.
- TreeCursor.PrefixExact: for trees that these operations built (`BTree.Tree.Blank`); with other bytes behind the header of an empty leaf the extra item could have any key, and `TreeCursor.NextWithPrefix` still says what is returned.
- TreeJoin.JoinExact: trees without duplicates and empty leaves; `TreeJoin.SortMergeJoin` and the recursive merge it refines cover all.
- Page ids of 2^32 and more, which the 32-bit rightmost child field would cut off.
- Keys, values and records of 4 GB and more, whose 32-bit sizes would wrap.
- Wal.Log.Append: entries reach the file in LSN order; the flusher goroutine, batching and fsync are not modelled.
- Wal.Log.Checkpoint: models the effect on state only, not the request channel.
- Recovery.Recover: does not model compaction while recovery restores records; an absent value counts as an empty one; the reads are stated when no transaction with number 0, which is never issued, is left running.
- BufferPool.Pool.FetchPage: is called with a frame to be found; `BufferPool.AllPinnedSpins` states what happens otherwise.
- BufferPool.Pool.GetAvailableFrame: the same.
- BufferPool.Pool.EvictOne: the same.
- BufferPool.Pool.UnpinPage: the caller holds a pin, and a caller that changed the page says so.
- Segment.TokenizeClean: works on bytes, so it does not model case folding of letters outside ASCII.
- Segment.IsSegment: lists, terms and files within the widths of the format's count, length and offset fields.
- Query.ParseQuery: white space outside ASCII does not separate words.
- VersionStore.Store.BeginOCC: transaction numbers are unbounded.
- Huffman.Tables.BuildDynamicForest: leaves out the overflow tree, which the decoder does not use.
- HuffmanStream.Pack: leaves out the block header and the run-length pass, in which a literal 0xFE byte is not escaped.
- `ToArray`, `Serialize` and `Deserialize` of bitmaps: one more list and one more round trip of the kind proved for segments.
- The text query language, kernel, object mapper, scoring, telemetry, range cursor, replication and hot-swap layers, and the file system plumbing: formatting, policy and I/O over the layers modelled here.
