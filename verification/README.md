# KodedDB storage engine and HTTP/K.0 reliable streams, modelled and proved

Two systems share this repository, and each has a simple meaning behind a complicated implementation.

**KodedDB** stores one map from byte strings to byte strings. The model follows its layers from the bytes up
and proves that each one implements the one above:

- `Keys`, `Bytes`, `Collections`: byte strings, their order, little- and big-endian fields, exclusive or; sequences as sets.
- `Pages`, `NodeCodec`, `Pagers`, `NodeStores`: the slotted 4096-byte page, B+ tree nodes as bytes, the write-through
  page cache, and the three stacked: pages that hold nodes, read, allocated, flushed and found again after a restart.
- `TreeModel`, `NodeSizes`, `TreeScan`, `TreeSteps`, `TreeLookup`, `SplitLoss`, `TornScan`, `TreeRuns`,
  `BPlusTree`, `TreeShape`: the B+ tree. A `Tree` value pairs the pages with the bookkeeping that makes sense of them
  (each page's height, interval and parent, the leaves from left to right, the stored map); `BTree` is the object
  whose methods rewrite pages and move from one such value to the next.
  `TreeLookup` says what a search finds on pages that need not be a tree, `SplitLoss` what a split leaves behind
  when one of its page writes does not fit, `TornScan` what a scan lists then. `TreeRuns` has Put and Delete as
  functions on trees and how a run of them ends.
- `SkipOrder`, `MemTables`: the skip list with tombstones, on linked nodes, for every choice of random heights.
- `Wal`: log records, checksum, replay of damaged logs.
- `FlushRuns`, `Engines`, `CrashRuns`: a flush as a run on the tree; memtable over tree behind the log. The ghost field
  `disks` collects every state the files pass through, so crash safety is a statement about all of them; `CrashRuns`
  iterates it over whole runs with crashes at any point of an operation, a checkpoint or a restart, and has those runs
  once more on images of tree and memtable, which say exactly how each one goes.
- `Values`, `Conditions`, `Executors`: typed values and rows as bytes, WHERE conditions, INSERT, UPDATE and DELETE
  on the engine. `Ordered` values carry the order in which Go happens to visit a map, so claims hold for all orders.

**HTTP/K.0** delivers ordered byte streams over packets that are lost, repeated and reordered:

- `Streams`, `Acks`, `Reliable`, `Schedules`, `Transport`: the reorder buffer, the in-flight table, the world of a
  sender, a receiver and everything ever put on the wire, where a schedule of actions leads in it, and connection
  objects run under schedules.
- `FlowControl`: send and receive windows, conservation of credit, the connection-level window.
- `Frames`, `Hpack`: frames and header compression, requests under any fragmentation (indexed headers use the
  static table of RFC 7541, Appendix A).
- `Fec`: XOR parity groups.

Every modelled object that the source updates in place is a class here; its methods are proved against functions on
values, and the lemmas are about those functions.

## What turned out not to hold

The proofs found these; each is stated exactly, as an equivalence or with the input that shows it.

- An empty chunk between bytes of a stream can overwrite a buffered chunk that was already acknowledged (`Streams.ArrivesIff`).
- The receive window counts a retransmitted packet again each time it arrives, before the duplicate is dropped
  (transport.rs:351-357); some run is then refused unless as much was lost (`FlowControl.AcceptedIff`,
  `FlowControl.CopyUnbalances`).
- Nothing feeds the connection's receive window, and updates for stream 0 go to the connection (transport.rs:519-546):
  a sender that honours both windows starves (`FlowControl.ConnectionStarves`); only bytes that arrive twice on stream 0
  give it more (`FlowControl.CopyLifts`). The program sends even when blocked.
- A page write that does not fit in the middle of a split loses stored entries: this is the `torn` result of
  `BPlusTree.BTree.Put`, whose contract says exactly when it happens and which keys go. Fifty entries vanish in
  `SplitLoss.FiftyVanish`; entries within the size bound never get there. A scan ends at the blank page that the left
  half then points to (`TornScan.ScanEnds`), or, if both halves were written, still lists what Get no longer finds
  (`TornScan.ScanGoesOn`).
- A leaf split leaves the right neighbour's `prevLeaf` behind (`TreeModel.BackLinkedIff`). Nothing reads that field.
- A log that holds only a torn first record is left in place by recovery. A record written next
  survives the next restart, with all that is written behind it, if and only if that is not so (`Wal.ReplayedIff`);
  `CrashRuns.LosesPut` is a run that loses a put, and `CrashRuns.Survive` says which runs get there.
- `Delete` does not check the key's length. A deletion of a key of 65536 bytes can make every later operation on that
  log unreadable, though all were acknowledged (`Wal.OversizedDeleteHides`); below 65536 bytes none is
  (`Wal.ReplaysIffWritable`, and `Engines.Loggable` wherever it is assumed).
- When flushing what is on the log meets an entry that does not fit the tree, the database does not open
  (`Engines.Engine.Open` has the exact condition), and never will (`CrashRuns.StaysShut`). Nothing checks the size of
  a value: in a new database one acknowledged put of more than 3992 bytes does it (`CrashRuns.OnePut`).
- `Scan` is sorted as a whole only under a condition (`Engines.ScanSortedIff`, `CrashRuns.UnsortedScan`).
- A NaN equals every float (`Conditions.NaNEqualsAll`), and a missing column fails a row even beside an OR that holds
  (`Conditions.EvalReads`).
- DELETE without WHERE also removes rows that do not decode, which DELETE with WHERE, UPDATE and SELECT skip.
- UPDATE of a primary key leaves the row under its old key (`Executors.UpdateKeepsKeyedIff`) and accepts columns the table
  does not have.
- INSERT and Put report an error when the flush they call for fails, though the row is stored (`Executors.ExecInsert`);
  UPDATE ignores that error and counts the row, rightly.
- A primary key identifies its row if and only if no map in it has two fields (`Values.KeyUniqueIff`); a table name with
  a colon shares another table's key space (`Executors.InTableIff`).
- A parity group flushed one packet short makes the decoder invent a packet, one flushed earlier makes it give up, and
  nothing was lost (`Fec.FlushShort`).
- hpack.rs says in a comment that strings have at most 127 bytes; the code works up to 255 and not beyond
  (`Hpack.BlockBackIff`). The model follows the code.

## Model

| member | source | states |
|---|---|---|
| Keys.CompareKeys | kodeddb-core/internal/storage/memtable.go:64-84 | the three-way comparison agrees with the lexicographic order: below, equal, above, each exactly when it should |
| Keys.RankDecides | kodeddb-core/internal/storage/memtable.go:64-84 | the order of byte strings is the order of reals: it embeds, so it is total, transitive and irreflexive |
| TreeModel.SplitWellFormed | kodeddb-core/internal/engine/btree.go:292-341 | splitting any page under its parent keeps every part of well-formedness: intervals, heights, parents, the leaf chain, the stored map, fill; only the parent may now hold one key too many |
| TreeModel.SplitChained | kodeddb-core/internal/engine/btree.go:300-312 | after a leaf split the next chain is again the list of all leaves, each once, their intervals end to end |
| TreeModel.SplitKeepsPath | kodeddb-core/internal/engine/btree.go:222-252 | the path to the parent that the descent collected is still the path after the split below it |
| TreeModel.GrowRootWellFormed | kodeddb-core/internal/engine/btree.go:343-361 | a root split grows a well-formed tree one level higher |
| TreeModel.LeavesAscend | kodeddb-core/internal/engine/btree.go:263-279 | along the leaf chain every key of an earlier leaf comes before every key of a later one |
| TreeModel.DisjointLeaves | kodeddb-core/internal/engine/btree.go:263-279 | no two leaves are responsible for a common key and no leaf is listed twice: the chain has no cycle |
| TreeModel.BackLinkedIff | kodeddb-core/internal/engine/btree.go:300-312 | a leaf split keeps all prevLeaf links right if and only if the split leaf is the last one |
| BPlusTree.FindEntry | kodeddb-core/internal/engine/btree.go:100-111 | the loop finds the entry with the key if and only if the sorted leaf has one |
| BPlusTree.LeafInsertPos | kodeddb-core/internal/engine/btree.go:281-288 | every entry before the position has a smaller key, none from it on has |
| BPlusTree.ChooseChild | kodeddb-core/internal/engine/btree.go:254-261 | the chosen child is the one whose interval the separators assign to the key |
| BPlusTree.BTree.FindLeafWithPath | kodeddb-core/internal/engine/btree.go:222-252 | the descent ends in the leaf responsible for the key and returns the exact chain of ancestors |
| BPlusTree.BTree.Get | kodeddb-core/internal/engine/btree.go:100-111 | the stored value if and only if the key is in the stored map |
| BPlusTree.BTree.Put | kodeddb-core/internal/engine/btree.go:114-141 | succeeds if and only if the leaf with the key set fits its page, or, when it is full, every page of the split it calls for fits; then the tree is well formed and stores the map with the key assigned, through any cascade of splits; a failure either changes nothing that is stored, or, if and only if the left half was already on its page, loses exactly the keys of one span, and every other key is still found, and a scan then lists everything unless it was the right half of a leaf that was not written; the tree and the page count afterwards are functions of those before; entries within the size bound never fail |
| BPlusTree.BTree.FlushLeaf | kodeddb-core/internal/engine/btree.go:465-474 | succeeds if and only if the page can hold the changed entries, and otherwise changes nothing |
| BPlusTree.BTree.Delete | kodeddb-core/internal/engine/btree.go:144-156 | the key leaves the map, the result says whether it was there, the tree is the one without that entry, stays well formed and entries within the size bound stay so |
| BPlusTree.BTree.SplitNode | kodeddb-core/internal/engine/btree.go:292-341 | ends in a well-formed tree with the same map if and only if both halves and everything above them fit; if the left half does not fit nothing changed; if a later write does not, exactly the keys from the last separator on in the page that was cut are gone |
| BPlusTree.BTree.InsertIntoParent | kodeddb-core/internal/engine/btree.go:343-384 | adds separator and child to the parent, splitting it in turn or growing a new root: a well-formed tree with the same map if and only if every page written fits; otherwise exactly the keys of the unlinked part are gone |
| SplitLoss.RightLost | kodeddb-core/internal/engine/btree.go:292-317 | when the left half of a page was written and the right half was not, every search from the root finds what is stored, except for the keys from the separator on in that page |
| SplitLoss.ParentLost | kodeddb-core/internal/engine/btree.go:363-384 | the same when both halves were written and the parent was not, with the parent as it was before |
| SplitLoss.RootLost | kodeddb-core/internal/engine/btree.go:343-361 | the same when the new root was not written |
| SplitLoss.LastEntryIff | kodeddb-core/internal/engine/btree.go:114-141 | in a tree that is one full leaf of ten-byte entries, one more entry behind the others is stored if and only if it has at most 3192 bytes; a longer one, up to 3992 bytes of which fit a page, tears the tree and the upper half of the leaf is gone |
| SplitLoss.FiftyVanish | kodeddb-core/internal/engine/btree.go:292-317 | the keys 0 to 99, then key 200 with 3599 bytes: Put fails and the keys from 50 on are in the lost span |
| TornScan.ScanEnds | kodeddb-core/internal/engine/btree.go:190-211 | when the right half of a leaf was not written, a scan that reaches the left half lists it and ends there |
| TornScan.ScanGoesOn | kodeddb-core/internal/engine/btree.go:190-211 | when any other write of a split failed, a scan still lists exactly the stored map, keys that Get no longer finds among them |
| TreeRuns.HaltsAgain | kodeddb-core/internal/engine/btree.go:114-156 | a run of operations on different keys that was stopped by a Put that does not fit is stopped again on the tree it has left, which stays as it is |
| TreeRuns.HaltsIff | kodeddb-core/internal/engine/btree.go:292-317 | a Put fails without a trace if and only if the leaf with the key set does not fit, or is full and its left half does not |
| TreeLookup.SearchInside | kodeddb-core/internal/engine/btree.go:222-252 | in a well-formed tree the search by separators from the page responsible for a key finds exactly what the map says |
| BPlusTree.BTree.LeftmostLeaf | kodeddb-core/internal/engine/btree.go:263-279 | the descent along first children reaches the first leaf of the chain |
| BPlusTree.BTree.FullScan | kodeddb-core/internal/engine/btree.go:190-211 | exactly the stored map, each key once, strictly ascending |
| BPlusTree.BTree.RangeScan | kodeddb-core/internal/engine/btree.go:160-187 | exactly the stored entries with keys in [start, end), strictly ascending |
| TreeScan.ListingUnique | kodeddb-core/internal/engine/btree.go:190-211 | a map has only one strictly ascending listing, so the scan results are determined by the map |
| TreeShape.ChainIsInOrder | kodeddb-core/internal/engine/btree.go:263-279 | the chain of leaves is the in-order traversal of the tree |
| TreeShape.SeparatorsBound | kodeddb-core/internal/engine/btree.go:254-261 | children are keys plus one, and every key below child i lies between separators i - 1 and i |
| TreeShape.DepthIsHeight | kodeddb-core/internal/engine/btree.go:343-384 | every path from the root to a leaf has the same length |
| TreeShape.HeightBound | kodeddb-core/internal/engine/btree.go:319-384 | a tree with h internal levels has at least 2 * 51^(h-1) leaves |
| TreeShape.Run | kodeddb-core/internal/engine/btree.go:114-156 | every run of Puts and Deletes on a new tree, with entries of any size, goes well if and only if the run of the tree as a value does; it then ends in a valid tree that stores what the run says, and otherwise stops at the first Put that does not fit; small entries always fit |
| NodeSizes.SmallFits | kodeddb-core/internal/engine/btree.go:392-418 | with keys of at most 30 bytes and at most 33 bytes of key and value, no node of up to 100 keys overflows its page |
| NodeSizes.RemoveShrinks | kodeddb-core/internal/engine/btree.go:144-156 | taking an entry out of a leaf never makes its record larger, so Delete cannot overflow |
| NodeCodec.BytesLength | kodeddb-core/internal/engine/btree.go:392-418 | the byte string of a node is as long as the capacity argument counts it |
| NodeCodec.WriteNode | kodeddb-core/internal/engine/btree.go:392-418 | writing a node on a blank page succeeds if and only if the node fits, and leaves it as the only record |
| NodeCodec.TagText | kodeddb-core/internal/engine/btree.go:392-498 | the one record of a leaf is under the key __leaf__, that of an internal page under __internal__ |
| NodeCodec.ReadLeaf | kodeddb-core/internal/engine/btree.go:428-463 | reads back exactly the leaf that was written, and refuses fewer than 20 bytes |
| NodeCodec.ReadInternal | kodeddb-core/internal/engine/btree.go:505-540 | reads back exactly the internal node that was written, and refuses fewer than 4 bytes |
| NodeCodec.ReadNode | kodeddb-core/internal/engine/btree.go:420-426 | a page written for a node reads as that node; an empty page reads as an empty one |
| Pages.Page.FreeSpace | kodeddb-core/internal/storage/page.go:120-124 | the free bytes are 4096 - 64 - 4 per slot - the bytes of all records, dead ones included |
| Pages.FirstOnly | kodeddb-core/internal/storage/page.go:159-177 | a key has a first live record exactly when it has a live one, and no other comes before it |
| Pages.Page.Insert | kodeddb-core/internal/storage/page.go:128-156 | fails exactly for a key over 512 bytes or too little room; otherwise adds one record and changes no other |
| Pages.InsertHolds | kodeddb-core/internal/storage/page.go:128-156 | the bytes after an insert hold the old records unmoved and the new one: slot array, free space and records never overlap |
| Pages.ReadRec | kodeddb-core/internal/storage/page.go:159-177 | the bytes behind a slot are the key and value of its record, or zero offsets for a dead one |
| Pages.Page.ReadSlot | kodeddb-core/internal/storage/page.go:159-177 | the record of a live slot, nothing for a dead one, on every page |
| Pages.Page.Get | kodeddb-core/internal/storage/page.go:159-177 | the value of the first live record for the key, or nothing if and only if there is none |
| Pages.Page.Delete | kodeddb-core/internal/storage/page.go:181-201 | kills the first live record for the key and nothing else; fails only when there is none |
| Pages.DeleteHolds | kodeddb-core/internal/storage/page.go:181-201 | zeroing a slot leaves every other record readable in place |
| Pages.Page.Iterate | kodeddb-core/internal/storage/page.go:210-230 | the live records in slot order |
| Pages.Page.Compact | kodeddb-core/internal/storage/page.go:235-246 | always succeeds; the live records remain, in order, and nothing else |
| Pages.LiveFits | kodeddb-core/internal/storage/page.go:235-246 | the live records never need more room than the page already gave them |
| Pagers.SealedOnce | kodeddb-core/internal/storage/pager.go:229-240 | writing the checksum changes only its own four bytes, and writing it again changes nothing |
| Pagers.XorAllParts | kodeddb-core/internal/storage/page.go:250-256 | the checksum of a page is the exclusive or of its bytes from the fifth on |
| Pagers.HeaderRoundTrip | kodeddb-core/internal/storage/pager.go:147-171 | the header page gives back page count, root and sequence |
| Pagers.Pager.CachePut | kodeddb-core/internal/storage/pager.go:54-67 | with 256 pages in the cache one clean page goes, if there is one, and otherwise none; the contents of no page change |
| Pagers.Pager.AllocatePage | kodeddb-core/internal/storage/pager.go:176-199 | the new id is the page count, fresh and never 0; its page is in the file at once and every other page keeps its contents |
| Pagers.Pager.ReadPage | kodeddb-core/internal/storage/pager.go:204-226 | the current contents of the page, whatever was evicted before; fails exactly for pages never allocated |
| Pagers.Pager.WritePage | kodeddb-core/internal/storage/pager.go:229-240 | file and cache then agree on the page and it is clean |
| Pagers.Pager.Rewrite | kodeddb-core/internal/engine/btree.go:465-474 | read, change, write: the page then has the new bytes and no other page changed |
| Pagers.Pager.FlushDirty | kodeddb-core/internal/storage/pager.go:243-250 | afterwards the file holds the contents of every page |
| NodeStores.NodeStore.Allocate | kodeddb-core/internal/storage/pager.go:176-199 | on bytes: a page that reads as a blank node under the next id, and every other page reads as before |
| NodeStores.NodeStore.Flush | kodeddb-core/internal/engine/btree.go:465-474 | on bytes: the page reads as the node from then on if and only if the node fits, else everything reads as before; the file is up to date |
| NodeStores.NodeStore.Read | kodeddb-core/internal/engine/btree.go:420-463 | on bytes, through cache or file: exactly the node last flushed to the page, or nothing for a page never allocated |
| NodeStores.NodeStore.Reopen | kodeddb-core/internal/storage/pager.go:94-145 | a restart on the same file with an empty cache reads the same nodes |
| NodeStores.SealedSays | kodeddb-core/internal/storage/pager.go:229-240 | setting the checksum does not change the node that a page says |
| SkipOrder.NextInsert | kodeddb-core/internal/storage/memtable.go:126-143 | where a level points after a node is spliced in: to the node exactly when it reaches that level, else as before |
| MemTables.MemTable.FindUpdate | kodeddb-core/internal/storage/memtable.go:87-99 | on every level the last node before the key, and the first node at or after it |
| MemTables.MemTable.Put | kodeddb-core/internal/storage/memtable.go:104-146 | for every choice of height the skip list stays a skip list and the key maps to the value |
| MemTables.MemTable.Delete | kodeddb-core/internal/storage/memtable.go:149-176 | leaves a tombstone: the key is then known to be gone, other keys are untouched |
| MemTables.MemTable.Get | kodeddb-core/internal/storage/memtable.go:179-193 | a value if and only if the key maps to one |
| MemTables.MemTable.Has | kodeddb-core/internal/storage/memtable.go:197-202 | agrees with Get |
| MemTables.MemTable.IsDeleted | kodeddb-core/internal/storage/memtable.go:205-213 | true exactly for tombstones |
| MemTables.MemTable.Scan | kodeddb-core/internal/storage/memtable.go:225-240 | exactly what is known of each key, once, ascending, tombstones included |
| MemTables.MemTable.RangeScan | kodeddb-core/internal/storage/memtable.go:243-269 | the same for the keys in [start, end) |
| MemTables.MemTable.Clear | kodeddb-core/internal/storage/memtable.go:293-300 | an empty, valid skip list |
| Wal.Checksum32 | kodeddb-core/internal/storage/wal.go:187-193 | the accumulating loop computes the checksum function of the format |
| Wal.ChecksumFlips | kodeddb-core/internal/storage/wal.go:187-193 | changing any one byte changes the checksum |
| Wal.ChecksumWords | kodeddb-core/internal/storage/wal.go:187-193 | the checksum is the exclusive or of the words of four bytes |
| Wal.RecordLayout | kodeddb-core/internal/storage/wal.go:58-94 | the bytes of a record: kind, sequence, lengths, key, value and the checksum over all three parts |
| Wal.ParseRecord | kodeddb-core/internal/storage/wal.go:60-94 | a whole record in front yields its entry and then whatever the rest yields |
| Wal.ParseTorn | kodeddb-core/internal/storage/wal.go:110-160 | a record cut short at any byte yields nothing |
| Wal.ParseRecords | kodeddb-core/internal/storage/wal.go:110-160 | a log of whole records replays to exactly its entries |
| Wal.ReplayCut | kodeddb-core/internal/storage/wal.go:110-160 | a log cut at any byte replays to exactly the entries wholly before the cut |
| Wal.ReplayAltered | kodeddb-core/internal/storage/wal.go:110-160 | a log with any one byte altered outside the length fields replays to exactly the entries before the altered one |
| Wal.ReplaysIffWritable | kodeddb-core/internal/storage/wal.go:60-94 | an entry is replayed if and only if its lengths and sequence fit their fields |
| Wal.TornFrontHides | kodeddb-core/internal/engine/engine.go:97-99 | a torn record that recovery left at the front hides, for every record written first after it, of the same kind or not, that record or one written behind it |
| Wal.ReplayedIff | kodeddb-core/internal/engine/engine.go:85-110 | for every record that fits: written first after a restart it is replayed by the next, with whatever is written behind it, if and only if the log was empty or held a whole record |
| Wal.OversizedDeleteHides | kodeddb-core/internal/storage/wal.go:60-104 | for every clean log and sequence number there is a key of 65536 bytes whose delete record hides every operation logged after it |
| Wal.AppendParses | kodeddb-core/internal/storage/wal.go:60-94 | a record appended to a clean log is replayed last; any proper part of it is not replayed and hides nothing |
| Wal.NextRecord | kodeddb-core/internal/storage/wal.go:60-94 | one more record on a clean log leaves a clean log that replays to one more entry, and the numbers still ascend if and only if the counter did not wrap around |
| Wal.WAL.Write | kodeddb-core/internal/storage/wal.go:60-94 | appends one record with the next sequence number; a clean log stays clean, and its numbers stay strictly increasing up to the counter if and only if the counter did not wrap around |
| Wal.WAL.constructor | kodeddb-core/internal/storage/wal.go:40-56 | numbering resumes after the highest sequence number that replay finds |
| Wal.WAL.ReadAll | kodeddb-core/internal/storage/wal.go:110-160 | the replay loop yields exactly what the format defines |
| Wal.WAL.Truncate | kodeddb-core/internal/storage/wal.go:163-171 | nothing is replayed any more, the log is clean, and the numbers to come still ascend |
| Engines.Engine.Open | kodeddb-core/internal/engine/engine.go:52-81 | opens if and only if flushing the replayed entries into the tree, in key order, ends well, and tears if and only if that run tears; opening yields the recovered map and says what is left of the log; a refused opening leaves files that say the same; a torn one finds that map without one span; every state of the files on the way recovers to the same map |
| Engines.Engine.Recover | kodeddb-core/internal/engine/engine.go:85-110 | replays into the memtable, flushes and truncates; fails and tears if and only if the run of the replayed entries on the tree does; says exactly when a damaged log is left in place |
| Engines.Engine.CutRecovery | kodeddb-core/internal/engine/engine.go:85-110 | a restart cut off after any number of changes to the tree ends as the run of those changes does and leaves files that recover to the same map |
| Engines.Engine.Put | kodeddb-core/internal/engine/engine.go:115-142 | acknowledged puts change the map at that key only, and so do puts that report a failed flush; below the threshold the tree is untouched, from it on the put reports a failure if and only if the run of the memtable on the tree fails; every state of the files on the way recovers to the map before or after; after a torn flush memtable and log are whole and the tree finds the map without one span |
| Engines.Engine.Delete | kodeddb-core/internal/engine/engine.go:145-163 | the same for deletions |
| Engines.Engine.Get | kodeddb-core/internal/engine/engine.go:168-186 | agrees with the overlay of memtable and tree |
| Engines.Engine.Scan | kodeddb-core/internal/engine/engine.go:198-237 | each live key once with its current value: tree keys ascending, then memtable-only keys ascending |
| Engines.Engine.RangeScan | kodeddb-core/internal/engine/engine.go:240-276 | the same for the keys in [start, end) |
| Engines.ScanSortedIff | kodeddb-core/internal/engine/engine.go:209-234 | a scan is sorted as a whole if and only if every live key of the tree comes before every live key that only the memtable knows |
| CrashRuns.UnsortedScan | kodeddb-core/internal/engine/engine.go:198-237 | a run of the engine whose scan is not sorted |
| Engines.FlushedSame | kodeddb-core/internal/engine/engine.go:282-316 | between any two steps of a flush the overlay is unchanged |
| Engines.Engine.WriteOut | kodeddb-core/internal/engine/engine.go:288-300 | the loop of a flush up to any of its entries ends exactly as the run of those operations on the tree does, leaves that tree, and does not change the map; a tear leaves the map without one span |
| Engines.TornFinds | kodeddb-core/internal/engine/engine.go:168-186 | after a torn flush a key that the memtable does not know is found with its value unless it lies in the lost span |
| Engines.Engine.FlushMemTable | kodeddb-core/internal/engine/engine.go:282-316 | ends well, fails or tears if and only if the run of the memtable on the tree does; when it ends the whole overlay is in the tree; when it fails memtable and log are kept and nothing visible changes, or, when it tears, one span of the tree is lost; no state of the files on the way recovers to anything else |
| FlushRuns.ListedOps | kodeddb-core/internal/engine/engine.go:288-300 | whichever way the memtable lists its entries, a flush does the same operations: one for each key, least key first |
| FlushRuns.HaltedBy | kodeddb-core/internal/engine/engine.go:288-300 | a flush that halts does so at a live entry of the memtable that does not fit the tree it has got to |
| FlushRuns.OneEntryEnd | kodeddb-core/internal/engine/engine.go:288-300 | flushing one entry into a new tree ends well if and only if key and value have at most 3992 bytes |
| Engines.Engine.Flush | kodeddb-core/internal/engine/engine.go:319-323 | a checkpoint leaves the map, an empty log and a tree that holds everything if and only if the run of the memtable on the tree ends well |
| Engines.Merge | kodeddb-core/internal/engine/engine.go:209-234 | the merge with its seen set emits each key of the overlay once |
| CrashRuns.TornRecovers | kodeddb-core/internal/engine/engine.go:85-110 | a clean log with the first n bytes of one more record behind it recovers to the map with that operation if the record is whole, and without it otherwise |
| CrashRuns.Survive | kodeddb-core/internal/engine/engine.go:52-323 | every run of operations, checkpoints and crashes, at any byte of any append, between any two changes to the tree, before the log is emptied, and in any number of restarts, with entries of any size, goes exactly as the run of the images does: it ends in that tree and memtable, and in the map of all operations whose records were whole; or it stops, at the event and for the reason the images stop: a crash tears the first record of an empty log, a split tears the tree, or an entry does not fit on opening; small entries leave only the first, if and only if some crash tears a record while no key is pending |
| CrashRuns.StaysShut | kodeddb-core/internal/engine/engine.go:52-110 | a database that did not open does not open however often it is tried, and its files go on saying the same |
| CrashRuns.OnePut | kodeddb-core/internal/engine/engine.go:52-142 | one put into a new database is acknowledged whatever its size; after a crash the database opens if and only if key and value have at most 3992 bytes |
| CrashRuns.LosesPut | kodeddb-core/internal/engine/engine.go:85-110 | a torn first record, a restart, a put, another crash: the put is gone |
| Values.RoundTrip | kodeddb-core/pkg/types/schema.go:132-243 | for every value, maps nested and encoded in any order, decoding returns it and its exact length, whatever follows |
| Values.ValueLayout | kodeddb-core/pkg/types/schema.go:132-223 | the bytes of a value: its tag, then a number in eight bytes or a length in four and what is that long |
| Values.Decode | kodeddb-core/pkg/types/schema.go:170-207 | on every byte string the decoder ends and consumes between one byte and all of them |
| Values.DecodeSemi | kodeddb-core/pkg/types/schema.go:225-243 | the decoding loop, with its bounds checks, computes the decoding function |
| Values.DecodeValue | kodeddb-core/pkg/types/schema.go:170-207 | the recursive decoder, case by case, computes the decoding function that RoundTrip is about |
| Values.EncodeValue | kodeddb-core/pkg/types/schema.go:132-168 | the encoder, visiting maps in whatever order, writes an encoding of its argument, and it decodes to that argument |
| Values.LengthBackIff | kodeddb-core/pkg/types/schema.go:132-168 | text and bytes come back if and only if they are shorter than 2^32 bytes |
| Values.EncodeEntries | kodeddb-core/pkg/types/schema.go:209-223 | the loop over a map writes each field once, in some order |
| Values.EncodingsDiffer | kodeddb-core/pkg/types/schema.go:132-168 | encodings are prefix-free: equal byte strings begin with encodings of equal values |
| Values.DecodedFine | kodeddb-core/pkg/types/schema.go:170-243 | whatever decodes is a value whose sizes fit the format |
| Values.RowRoundTrip | kodeddb-core/pkg/types/schema.go:327-362 | rows come back whole, whatever the column order and whatever follows |
| Values.EncodeRowValues | kodeddb-core/pkg/types/schema.go:327-339 | the bytes of a row decode to that row |
| Values.RowKeysDiffer | kodeddb-core/pkg/types/schema.go:308-323 | for table names without a colon, equal row keys mean the same table and the same primary key |
| Values.ScalarKeyUnique | kodeddb-core/pkg/types/schema.go:308-323 | a primary key without a map in it has one row key |
| Values.KeyUniqueIff | kodeddb-core/pkg/types/schema.go:308-323 | a primary key has one row key, whatever order its maps are visited in, if and only if no map in it, at any depth, has two fields |
| Conditions.CompareIsOrder | kodeddb-core/pkg/types/schema.go:88-115 | NaN aside, Compare is a total order on each type with NULL first |
| Conditions.IntLeaf | kodeddb-core/pkg/types/schema.go:96-99 | a comparison with an integer holds exactly for the integers in that relation to it |
| Conditions.TextLeaf | kodeddb-core/pkg/types/schema.go:104-107 | the same for text, in the lexicographic order of its bytes |
| Conditions.BoolLeaf | kodeddb-core/pkg/types/schema.go:108-111 | the same for booleans, false before true |
| Conditions.NullLeaf | kodeddb-core/pkg/types/schema.go:89-91 | NULL equals NULL and comes before everything else |
| Conditions.FloatLeaf | kodeddb-core/pkg/types/schema.go:100-103 | the same for floats, by the numbers that IEEE 754 assigns to their bits; with a NaN exactly the operators that allow equality hold |
| Conditions.ComparableIff | kodeddb-core/pkg/types/schema.go:88-115 | two values compare exactly when one is NULL or both have the same of the four ordered types |
| Conditions.NaNEqualsAll | kodeddb-core/pkg/types/schema.go:100-103 | Compare calls a NaN equal to every float |
| Conditions.EqualityCarriesIff | kodeddb-core/pkg/types/schema.go:100-103 | equality through a float carries over for all floats on both sides if and only if it is not a NaN |
| Conditions.EvalReads | kodeddb-core/internal/query/parser.go:85-122 | a condition has an answer if and only if all its leaves have one, and the answer is then the usual reading of AND and OR |
| Conditions.LeafMeaning | kodeddb-core/internal/query/parser.go:85-108 | the six operators of a comparable leaf, against each other and against sameness |
| Conditions.MismatchFails | kodeddb-core/internal/query/parser.go:94-98 | values do not compare if and only if every operator, != included, answers false |
| Executors.InKeySpace | kodeddb-core/internal/query/executor.go:318-321 | the prefix test accepts exactly the keys with the table prefix and something behind it |
| Executors.CollectKeys | kodeddb-core/internal/query/executor.go:314-332 | the scan of DELETE collects each matching key once |
| Executors.ExecDelete | kodeddb-core/internal/query/executor.go:305-341 | exactly the matching rows go, every other key keeps its value, and the count is reported; without WHERE undecodable rows go too |
| Executors.SelectsInts | kodeddb-core/internal/query/executor.go:305-341 | DELETE and UPDATE with an integer comparison in WHERE select exactly the rows whose column is NULL or an integer in that relation |
| Executors.CollectRows | kodeddb-core/internal/query/executor.go:269-286 | the scan of UPDATE collects each matching decodable row once |
| Executors.ExecUpdate | kodeddb-core/internal/query/executor.go:252-301 | exactly the matching decodable rows become their assigned rows under their old keys, every other key keeps its value, and the count is reported; rows whose Put reports a failed flush are stored like the others; if a flush tears, the rows done so far, that one included, are |
| Executors.AssignedAt | kodeddb-core/internal/query/executor.go:289-291 | the last assignment to a column counts and other columns keep their values |
| Executors.BuildRow | kodeddb-core/internal/query/executor.go:139-154 | accepts exactly rows whose columns exist and take their values, and complains about the first that does not |
| Executors.ExecInsert | kodeddb-core/internal/query/executor.go:117-170 | stores one decodable row under its primary key: each value under the name of its column, in the order of the schema if none are named, else in the order named; every refusal is told apart and changes nothing, except that a reported flush failure has stored the row |
| Executors.AcceptsIff | kodeddb-core/internal/query/executor.go:147-152 | what a column of each type takes |
| Executors.InTableIff | kodeddb-core/internal/query/executor.go:182-192 | a row of table t2 lies in the key space of a colon-free table t1 if and only if t1 is t2 up to its first colon |
| Executors.TablesApart | kodeddb-core/internal/query/executor.go:310-321 | tables whose names have no colon share no key |
| Executors.DeleteIsolated | kodeddb-core/internal/query/executor.go:305-341 | DELETE leaves every other colon-free table, the stored schemas among them, as it was |
| Executors.UpdateIsolated | kodeddb-core/internal/query/executor.go:252-301 | UPDATE likewise |
| Executors.InsertIsolated | kodeddb-core/internal/query/executor.go:117-170 | INSERT likewise |
| Executors.InsertKeepsKeyed | kodeddb-core/internal/query/executor.go:157-166 | INSERT keeps every row under the key of its own primary key |
| Executors.UpdateKeepsKeyedIff | kodeddb-core/internal/query/executor.go:288-296 | UPDATE does so if and only if it leaves the primary key of every selected row as it is |
| Executors.InsertedIsFound | kodeddb-core/internal/query/executor.go:117-170 | asking for a just inserted primary key selects that row and no other |
| Streams.Stream.Receive | HTTP-K.0-Browser/protocol/src/connection.rs:68-92 | the reorder loop computes the receiving function of the stream; unordered streams just append |
| Streams.Stream.TakeOffset | HTTP-K.0-Browser/protocol/src/connection.rs:100-104 | for every stream of chunks: a counter at its end gives the offset at which the next chunk starts, modulo 2^32, and is at the end again |
| Streams.Stream.Drain | HTTP-K.0-Browser/protocol/src/connection.rs:95-97 | hands out everything received since the last drain |
| Streams.ReceiveSound | HTTP-K.0-Browser/protocol/src/connection.rs:68-92 | receiving any chunk that was sent, at any time and any number of times, keeps delivered bytes a prefix, loses nothing held, and holds the chunk |
| Streams.SendSound | HTTP-K.0-Browser/protocol/src/connection.rs:100-104 | sending more does not disturb the receiving side |
| Streams.AllHeldDelivered | HTTP-K.0-Browser/protocol/src/connection.rs:68-92 | nothing but a missing chunk holds delivery up |
| Streams.ArrivesIff | HTTP-K.0-Browser/protocol/src/connection.rs:68-92 | a stream arrives whole under every order, loss and repetition if and only if it has no empty chunk between bytes |
| Acks.AckTracker.Track | HTTP-K.0-Browser/protocol/src/ack.rs:57-64 | the packet is in flight under its number |
| Acks.AckTracker.OnAck | HTTP-K.0-Browser/protocol/src/ack.rs:67-89 | exactly that packet leaves the table; its wait less the reported delay up to 25 ms counts one eighth towards the estimate, which stays between its old value and that, and one quarter towards its variation; the timeout stays between 50 ms and 5 s; the largest acknowledged number never falls |
| Acks.AckTracker.OnNak | HTTP-K.0-Browser/protocol/src/ack.rs:92-98 | requeues a packet in flight, whose timer starts again now, and ignores any other number |
| Acks.AckTracker.Tick | HTTP-K.0-Browser/protocol/src/ack.rs:111-122 | requeues the late packets in number order, the timeout doubling with each up to its cap; each that waited longer than the cap is in the queue; the timer of a requeued packet starts again now and every other entry is as before |
| Acks.NotAgain | HTTP-K.0-Browser/protocol/src/ack.rs:113-118 | a packet sent or requeued at a time is not requeued by a tick within the timeout from then |
| Acks.TickTwice | HTTP-K.0-Browser/protocol/src/ack.rs:111-122 | of two ticks the second, within the timeout that the first has left, requeues none of those the first did |
| Acks.BackoffPower | HTTP-K.0-Browser/protocol/src/ack.rs:118-119 | after n losses the timeout is 2^n times what it was, or 5 s |
| Acks.TickResends | HTTP-K.0-Browser/protocol/src/ack.rs:111-122 | every packet that waited longer than the cap is resent, none that waited less than the current timeout is, and the first late one always is |
| Reliable.RunInv | HTTP-K.0-Browser/protocol/src/transport.rs:401-439 | the invariant of every run of steps of the network |
| Reliable.DeliveredIsPrefix | HTTP-K.0-Browser/protocol/src/connection.rs:68-92 | in every run, delivered bytes are exactly the sent bytes before the next expected offset |
| Reliable.AcknowledgedWasProcessed | HTTP-K.0-Browser/protocol/src/ack.rs:67-89 | in every run, a packet that is no longer in flight was processed by the receiver |
| Reliable.IdleMeansDelivered | HTTP-K.0-Browser/protocol/src/transport.rs:401-439 | in every run, with nothing in flight everything sent has been delivered |
| Reliable.CanResend | HTTP-K.0-Browser/protocol/src/ack.rs:111-127 | in every run, a tick of the tracker is a step of the world, and a packet in flight that waited longer than the cap is then in the retransmit queue |
| Reliable.QueueDrains | HTTP-K.0-Browser/protocol/src/ack.rs:124-127 | the packet in place i of the queue is on the wire after the next i + 1 sends |
| Transport.Connection.OpenStream | HTTP-K.0-Browser/protocol/src/connection.rs:138-143 | a fresh id and an empty stream; other streams are untouched |
| Transport.Connection.SendStream | HTTP-K.0-Browser/protocol/src/transport.rs:709-783 | the packet carries the next offset and number, and is tracked if and only if the stream is reliable |
| Transport.Connection.HandleStream | HTTP-K.0-Browser/protocol/src/transport.rs:401-439 | delivers to the stream if it is open and acknowledges exactly then |
| Transport.Execute | HTTP-K.0-Browser/protocol/src/transport.rs:328-470 | two connection objects under any schedule end where its actions lead: delivered is a prefix of the data of its send actions, a packet is in flight if and only if no delivery to an open stream and later acknowledgement of it took place, and with none in flight, or every one delivered and then acknowledged, each stream has delivered all its data in order |
| Schedules.InFlightIff | HTTP-K.0-Browser/protocol/src/transport.rs:328-470 | a packet sent stays in flight until it was delivered to an open stream and then acknowledged, and no longer |
| Schedules.Follows | HTTP-K.0-Browser/protocol/src/transport.rs:709-783 | the packets on the wire are those of the send actions on open streams, numbered in order, each at the offset of the bytes sent before it |
| Schedules.DeliveredInOrder | HTTP-K.0-Browser/protocol/src/connection.rs:68-92 | after any schedule, what a stream delivered is a prefix of the data of its send actions |
| Schedules.AllArrives | HTTP-K.0-Browser/protocol/src/transport.rs:328-470 | when every packet is delivered at least once and acknowledged after that, whatever else is lost, repeated, reordered or sent again, nothing stays in flight and every stream delivers all its data |
| Schedules.Requeues | HTTP-K.0-Browser/protocol/src/ack.rs:92-127 | a NAK and a tick put packets in flight into the queue and restart their timers, a transmission sends the first of the queue |
| FlowControl.SendWindow.Consume | HTTP-K.0-Browser/protocol/src/flow.rs:49-54 | takes the credit or nothing |
| FlowControl.SendWindow.AddCredit | HTTP-K.0-Browser/protocol/src/flow.rs:57-65 | refuses exactly what would lift the window above 16 MiB |
| FlowControl.RecvWindow.OnReceive | HTTP-K.0-Browser/protocol/src/flow.rs:95-105 | reports a violation exactly when the bytes exceed the window |
| FlowControl.RecvWindow.ShouldUpdate | HTTP-K.0-Browser/protocol/src/flow.rs:115-123 | announces exactly when 32768 bytes or more are consumed and not announced, and then all of them |
| FlowControl.RecvWindow.MarkUpdated | HTTP-K.0-Browser/protocol/src/flow.rs:126-129 | window and announced bytes keep their distance, and marking what was asked for leaves nothing to announce |
| FlowControl.StreamFlowControl.ConsumeSend | HTTP-K.0-Browser/protocol/src/flow.rs:179-184 | takes credit from both windows or from neither |
| FlowControl.EventConserves | HTTP-K.0-Browser/protocol/src/flow.rs:49-129 | sent bytes and credit are conserved by every event |
| FlowControl.ConservedBounds | HTTP-K.0-Browser/protocol/src/flow.rs:49-129 | announced increments never exceed 65536, nor does available credit while bytes counted twice do not exceed bytes lost |
| FlowControl.RestIsOpen | HTTP-K.0-Browser/protocol/src/flow.rs:115-129 | at rest more than half of the initial window is open |
| FlowControl.NeverRefused | HTTP-K.0-Browser/protocol/src/flow.rs:57-105 | no run of a sender that asks first and whose packets are counted once is refused |
| FlowControl.AcceptedIff | HTTP-K.0-Browser/protocol/src/transport.rs:351-357 | from any state, all further runs without further copies are accepted if and only if bytes counted twice do not exceed bytes lost |
| FlowControl.CopyUnbalances | HTTP-K.0-Browser/protocol/src/transport.rs:351-357 | a new stream, one byte sent, one copy of it received: more bytes counted twice than lost |
| FlowControl.Converse | HTTP-K.0-Browser/protocol/src/flow.rs:31-134 | the window objects, run under any schedule, copies included, report an error if and only if the run is refused, and never one without copies |
| FlowControl.LinkWant | HTTP-K.0-Browser/protocol/src/flow.rs:179-184 | the stream and connection objects take and refuse data as the connection model does |
| FlowControl.LinkCredit | HTTP-K.0-Browser/protocol/src/transport.rs:519-546 | the same for window updates: those for stream 0 move the connection credit and no stream credit |
| FlowControl.ConnectionStarves | HTTP-K.0-Browser/protocol/src/transport.rs:519-546 | for every run, packets that arrive twice included: a sender that honours both windows never sends more than 65536 bytes on stream 0, nor on all other streams together more than 65536 and the bytes that came twice on stream 0 |
| FlowControl.CopyLifts | HTTP-K.0-Browser/protocol/src/transport.rs:519-546 | a run with one packet of stream 0 arriving twice in which the other streams send 98304 bytes, the bound exactly |
| Frames.Decode | HTTP-K.0-Browser/protocol/src/frame.rs:94-102 | takes the first whole frame off the buffer, or leaves the buffer alone |
| Frames.FrameLayout | HTTP-K.0-Browser/protocol/src/frame.rs:56-91 | the bytes of a frame: its kind, its length in four bytes with the most significant first, its payload |
| Frames.FrameDecoder.DrainFrames | HTTP-K.0-Browser/protocol/src/frame.rs:157-163 | takes exactly the whole frames off the front |
| Frames.SplitPrefix | HTTP-K.0-Browser/protocol/src/frame.rs:147-163 | of any prefix of encoded frames exactly the complete ones come out, in order, and the rest waits |
| Frames.SplitAppend | HTTP-K.0-Browser/protocol/src/frame.rs:147-163 | draining early changes neither the frames nor what is left |
| Frames.FeedPieces | HTTP-K.0-Browser/protocol/src/frame.rs:147-163 | any fragmentation with drains in between yields the frames of the whole byte string |
| Hpack.StaticExact | HTTP-K.0-Browser/protocol/src/hpack.rs:129-133 | an index exactly for headers in the table: that of the first such entry |
| Hpack.StaticName | HTTP-K.0-Browser/protocol/src/hpack.rs:135-139 | an index exactly for names in the table: that of the first entry with the name |
| Hpack.Encode | HTTP-K.0-Browser/protocol/src/hpack.rs:109-127 | the encoding loop writes the block of the header list |
| Hpack.Decode | HTTP-K.0-Browser/protocol/src/hpack.rs:157-195 | the decoding loop, error cases included, computes the decoding function and ends on every input |
| Hpack.HeaderBack | HTTP-K.0-Browser/protocol/src/hpack.rs:109-195 | an expressible header decodes to itself and its exact length, whatever follows |
| Hpack.BlockBackIff | HTTP-K.0-Browser/protocol/src/hpack.rs:109-211 | a header list survives encoding and decoding if and only if every string written out has at most 255 bytes |
| Hpack.HeaderLayout | HTTP-K.0-Browser/protocol/src/hpack.rs:109-127 | the bytes of a header: an index above 128, or an index above 64 and the value, or 0, name and value, each string after its length modulo 256 |
| Hpack.Refusals | HTTP-K.0-Browser/protocol/src/hpack.rs:157-211 | for every input, which error the decoder reports and which header it reads |
| Hpack.OneByte | HTTP-K.0-Browser/protocol/src/hpack.rs:23-41 | the pseudo headers of the static table take one byte, the one RFC 7541 gives them |
| Hpack.SendRequest | HTTP-K.0-Browser/protocol/src/transport.rs:811-828 | a HEADERS frame, and a DATA frame if and only if there is a body |
| Hpack.FramesOnWire | HTTP-K.0-Browser/protocol/src/transport.rs:811-828 | the frames are of kind 1 and, for a body, 2 with the body as payload |
| Hpack.ReceiveRequest | HTTP-K.0-Browser/protocol/src/transport.rs:384-391 | cut and fed in any pieces, the request yields its body and nothing left over, and its header list if and only if that is expressible; if its strings are short, the first header named :method, :path and :scheme has the method, path and scheme of the request, and its own headers follow |
| Fec.FecEncoder.Feed | HTTP-K.0-Browser/protocol/src/fec.rs:29-38 | the parity of the group when it is full, else nothing |
| Fec.FecEncoder.Flush | HTTP-K.0-Browser/protocol/src/fec.rs:41-46 | the parity of a started group |
| Fec.FecEncoder.ComputeParity | HTTP-K.0-Browser/protocol/src/fec.rs:48-59 | the in-place loops compute the exclusive or, byte by byte, of zero-padded packets |
| Fec.LongestReached | HTTP-K.0-Browser/protocol/src/fec.rs:48-52 | the parity is as long as the longest packet |
| Fec.FecDecoder.Recover | HTTP-K.0-Browser/protocol/src/fec.rs:97-126 | complete exactly without a gap, unrecoverable exactly with two gaps or no parity, else the exclusive or of the rest for the one gap |
| Fec.RecoversAny | HTTP-K.0-Browser/protocol/src/fec.rs:48-126 | the exclusive or of the others and the parity is the lost packet, padded to the longest; it is the packet itself if and only if that was a longest one |
| Fec.LoseOne | HTTP-K.0-Browser/protocol/src/fec.rs:29-126 | a group of any size and lengths through encoder and decoder with any one packet lost gives it back, padded |
| Fec.FlushShort | HTTP-K.0-Browser/protocol/src/fec.rs:29-126 | a started group of m of g packets, flushed and received whole: the decoder invents a packet of zeros if and only if m is g - 1, and otherwise gives up |
| Bytes.LERoundTrip | kodeddb-core/internal/storage/wal.go:67-75 | little-endian fields give back every number they have room for |
| Bytes.Digits | kodeddb-core/internal/storage/wal.go:67-75 | byte i of a field is digit i of the number in base 256, from either end |
| Bytes.XorBitsAt | HTTP-K.0-Browser/protocol/src/fec.rs:53-57 | a bit of an exclusive or is set exactly when one of the two bits is |
| Bytes.XorLaws | HTTP-K.0-Browser/protocol/src/fec.rs:53-57 | exclusive or is commutative and associative, and its own inverse |

## Left out

- CrashRuns.Survive: a run ends at the first torn first record, torn split or refused opening, and the contract says what is there then; operations after that are not followed. Keys and values have lengths that the log can express.
- Engines.Engine.Put: after a torn flush the contract says what tree, memtable and log hold, and the program's further operations on that tree are not modelled.
- Executors.ExecUpdate: stops when a flush tears the tree, where the program goes on and counts; it assumes values under 2 GiB.
- Executors.ExecInsert: assumes the one primary-key column that the schema store enforces; defaults and nullability are not checked by the program either.
- Values.EncodeValue: assumes lengths below 2^32, the width of their fields; a float is its 64-bit pattern.
- Schedules.AllArrives: for the same streams as Transport.Execute.
- Streams.ReceiveSound: assumes less than 2^32 bytes per stream, the width of an offset.
- Wal.ReplayAltered: an altered length field is not covered, because a wrong length can make other bytes parse.
- FlowControl.Converse: a run ends at its first refusal, where the program drops that packet or update and goes on.
- Hpack.ReceiveRequest: the pieces are fed in stream order; the packet handler feeds its decoder in arrival order, before the reorder buffer (transport.rs:370-372).
- Hpack.Decode: strings are byte strings, so the UTF-8 check of read_string is not modelled; what the encoder writes passes it.
- Transport.Execute: delivery is promised for streams below 2^32 bytes with no empty chunk between bytes (`Schedules.Modest`; `Streams.ArrivesIff` says why); both streams and packets are ordered and reliable; the handshake is done, encryption is the identity, and packet numbers stay below 2^64.
- Acks.AckTracker.Tick: time is a parameter; the tracker holds packets where the program holds their encoded bytes.
- BPlusTree.BTree.AllocatePage: pages are nodes here; NodeStores has the same three operations on bytes with the same contracts, but one object that runs the tree on it is not built.
- Crashes inside a single B-tree operation: the page writes of a split are not atomic. What such a crash leaves on the pages is that of SplitLoss.RightLost, ParentLost and RootLost; recovery from there is not modelled.
- File-system errors, partial sectors and fsync: the file is a byte sequence; the log can be cut at any byte.
- Scan callbacks that stop early: scans return the whole listing.
- randomLevel: the height is any number from 1 to 16.
- MemTable.byteSize: it drifts after deletes, is only reported by Stats, and nothing decides by it (the flush threshold counts nodes).
- Sequence numbers in the database header and Close, Stats and Has of the engine: bookkeeping around the same operations.
- Page checksums are written but never verified on reading, in the program as in the model.
- The schema codec, schema store, lexer, recursive-descent parser, SELECT projection, ORDER BY and LIMIT, DROP TABLE, API server and client: less depth than what is modelled.
- Unordered and unreliable delivery beyond a single receive, the FEC slots of the packet handler, BBR congestion control, path migration, session tickets, TLS and the packet header codec.
