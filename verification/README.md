# Bincows kernel: a verified model of its cores

Bincows is a small x86_64 kernel written in C. This project models the parts of it that keep
the most state and rely on the most invariants, and proves those invariants: the physical page
allocator, the four-level page tables, the kernel heap, the scheduler with its ready ring and
sleep array, the NVMe queue protocol, the block cache, the byte streams of the file layer, and
the pthread mutex. `dafny verify dfyconfig.toml` checks everything.

How the code is modelled:

- Code that updates fields in place is a class with those fields; its loops are loops. Each
  method is proved against a function or a relation over the state before it.
- Code that interleaves is a state machine over its atomic steps: single memory accesses for
  the mutex, driver and controller accesses for NVMe, whole functions for the scheduler, which
  runs on one CPU with interrupts off. Theorems are about every finite run.
- Where the kernel panics or fails an assertion, the model returns an outcome, and the contract
  says exactly when.

Modules, by component:

- Page allocator: `PmmHeader` (four-level bitmap and counters of a range), `PmmBytes` (the same
  as byte arrays and masks), `PmmWord` (the 64-bit words the scan loads from them), `PmmTrace`
  (traces of handed-out pages), `Pmm` (the allocator).
- Paging: `PageEntry` (entries and index arithmetic), `PageTree` (the tree and the flat view it
  represents), `TableCount` (how many tables a run of pages needs), `Paging` (mapping, unmapping,
  translation), `PagingFree` (freeing a subtree), `PageRange` (freeing whole top-level regions).
- Heap: `HeapSegments` (the segment list), `HeapMemory` (headers as bytes), `Heap`.
- NVMe: `NvmeQueue` (rings and phase bits), `NvmeProtocol` (the protocol), `NvmeDelivery` (what
  clients see), `NvmeReorder` (how the slot of an unfinished command comes round), `NvmeTakeover`
  (when a submission is harmless, and what follows when it is not).
- Scheduling: `ReadyQueue`, `SchedState` (the state machine), `ThreadIds`, `Scheduler` (the code
  over arrays and ring), `SleepQueue`.
- `Mutex`, `BlockCache`, `VfsStream` and `VfsSession` (whole sessions); `Common` and `Division` hold what several of them share.

Where a property fails in the code, the code is kept, a concrete run is given, and the exact
condition is proved:

- A page freed into a range that had run empty is counted as available (`Pmm.StrandedPage`) and
  is not handed out in any later run (`Pmm.Session`); requests are served exactly up to what the
  lists reach (`Pmm.Allocator.PhysAlloc`).
- `physfree` of the topmost page of the last range fails its assertion, and of no other page
  (`Pmm.Allocator.GetMemoryRange`).
- The worst bulk of 4096 pages uses 13 tables, not the 11 its comment counts, and panics with
  fewer (`Paging.WorstBulk`); the buffer of 16 suffices for every bulk (`TableCount.RunBound`).
- `free_page_range` does not count absent entries, so it frees foreign regions exactly when some of
  its own are absent (`PageRange.OwnAndForeign`). Flushing the block cache therefore frees other
  kernel mappings unless every region of the cache has a page (`BlockCache.Cache.Flush`,
  `BlockCache.TwoFlushes`).
- NVMe phase prediction survives the wrap of its counter only for sizes whose double divides
  2^32 (`NvmeQueue.PredictionIffDivides`).
- With out-of-order completion a command can take the slot of another: one read's sectors reach
  another read's buffer, one write's data another write's address (`NvmeTakeover.ReadLost`,
  `NvmeTakeover.WriteLost`). A submission is harmless iff no command holds its slot, that is, iff its
  read slot is null and no unexecuted write or unfinished synchronous read has the slot; a write
  that was executed holds nothing (`NvmeTakeover.HarmlessIff`).
- `alloc_tid` can return a number in use once 0xffff is taken (`ThreadIds.TidReused`,
  `ThreadIds.FreshTidIff`).
- `write_cache` releases its lock inside the loop: with assertions on, a write over several
  pages that ends inside a page stops the kernel, and an empty write leaves the lock taken
  (`BlockCache.Cache.WriteCache`, `BlockCache.RaggedTailIff`).
- `vfs_write_file` does not refresh its sector buffer. A later write through the same handle can
  undo an earlier one (`VfsStream.FirstWriteLost`): of two writes in a row the second is exact iff the
  first left the buffer unused or put nothing new into its last sector (`VfsSession.TwoWrites`). A
  write that fills its sector leaves the buffer valid for the next sector: a read then returns wrong
  bytes (`VfsStream.WrongRead`), and a write replaces bytes behind it (`VfsStream.BytesBehindLost`).
  Every session that positions the handle again after each write behaves as on a plain file
  (`VfsSession.Session`).

## Model

| member | source | states |
|---|---|---|
| PmmHeader.FreshInv | kernel/memory/pmm.c:105-141 | a new range has every page free, and satisfies the header invariant |
| PmmHeader.AllocInv | kernel/memory/pmm.c:307-340 | marking any free page keeps the invariant: a level-1/2/3 bit is set iff some page below it is used, each counter is the number of clear in-range bits of its level, nothing beyond the range is marked |
| PmmHeader.FreeInv | kernel/memory/pmm.c:344-388 | releasing any used page keeps the same invariant, although each level is re-examined only after the level below |
| PmmHeader.SummaryIffStacked | kernel/memory/pmm.c:527-571 | reading a summary bit as "some page below is used" is the same as the level-by-level test of the debug checker |
| PmmHeader.ClearPositive | kernel/memory/pmm.c:450-524 | a counter is positive iff its bitmap has a clear bit in range |
| PmmHeader.AllocThenFree | kernel/memory/pmm.c:307-388 | releasing a page right after marking it restores all four bitmaps and all four counters |
| PmmBytes.UpdateByte | kernel/memory/pmm.c:307-388 | or-ing a one-bit mask into byte n/8 sets exactly bit n of the bitmap, and-not clears exactly bit n |
| PmmBytes.QuadTest | kernel/memory/pmm.c:344-388 | the nibble mask over a byte tests exactly the four pages of one level-1 block |
| PmmBytes.PairTest | kernel/memory/pmm.c:344-388 | the two-bit mask tests exactly the two blocks below one block of the next level |
| PmmBytes.RangeHeader.constructor | kernel/memory/pmm.c:105-141 | zeroed byte bitmaps and the initial counters stand for the fresh header |
| PmmBytes.RangeHeader.AllocPageBitmaps | kernel/memory/pmm.c:307-340 | the in-place byte updates refine the abstract marking of a page, and no 32-bit counter wraps |
| PmmBytes.RangeHeader.AllocCounters | kernel/memory/pmm.c:307-340 | exactly the levels whose covering bit was clear lose one from their counter |
| PmmBytes.RangeHeader.ReleaseIfNoPage | kernel/memory/pmm.c:344-388 | a level-1 block is released iff none of its four pages is used |
| PmmBytes.RangeHeader.ReleaseIfNoBlock | kernel/memory/pmm.c:344-388 | a block of level 2 or 3 is released iff neither block below it is used |
| PmmBytes.RangeHeader.FreePageBitmaps | kernel/memory/pmm.c:344-388 | the in-place byte updates refine the abstract release of a page |
| PmmWord.LoadIsSlice | kernel/memory/pmm.c:599-748 | a 64-bit word loaded from a byte bitmap holds 64 consecutive bits of it, lowest first |
| PmmWord.NotBits | kernel/memory/pmm.c:599-748 | its complement has exactly the other bits |
| PmmWord.ZeroIff | kernel/memory/pmm.c:599-748 | a word is zero iff none of its bits is set |
| PmmWord.ClearBit | kernel/memory/pmm.c:599-748 | masking out 1 << i clears exactly bit i |
| PmmWord.FreeBlocks | kernel/memory/pmm.c:599-748 | the complemented word has the free ones of 64 blocks, and is zero iff all are used |
| PmmWord.FindFirst | kernel/memory/pmm.c:599-748 | ffsll of the word is the first set bit that the scan of Pmm finds |
| PmmTrace.LegalInv | kernel/memory/pmm.c:599-748 | handing out pages that were free keeps every range's header invariant |
| PmmTrace.UsedAfter | kernel/memory/pmm.c:599-748 | after a trace exactly the old used pages and the traced pages are used |
| PmmTrace.LegalDistinct | kernel/memory/pmm.c:599-748 | the pages of a trace are pairwise distinct and were all free before it |
| PmmTrace.FreeInAfter | kernel/memory/pmm.c:599-748 | n pages handed out from a set of ranges lower that set's free count by exactly n |
| Pmm.FindFirstSet | kernel/memory/pmm.c:599-748 | one plus the index of the lowest set bit, 0 iff there is none |
| Pmm.InitMemoryRange | kernel/memory/pmm.c:105-141 | the header of a fresh range and the best list it deserves |
| Pmm.Allocator.constructor | kernel/memory/pmm.c:144-223 | every page free, every range listed, the total equals the sum of the level-0 counters |
| Pmm.Allocator.MoveRegionIfFull | kernel/memory/pmm.c:398-436 | a range moves iff its level ran out; it goes to the front of the best list at or below its own whose level still has a free block, every level between is empty, and it leaves all lists only when it has no free page; no other list changes |
| Pmm.Allocator.AllocBlock | kernel/memory/pmm.c:599-748 | the pages of one free block are handed out in order, each to one callback call, at consecutive virtual pages |
| Pmm.Allocator.ScanChunk | kernel/memory/pmm.c:599-748 | a 64-bit word is scanned lowest free block first; if the request is not met, every block of the word is used up |
| Pmm.Allocator.ScanRange | kernel/memory/pmm.c:599-748 | every round makes progress, and a scan that runs off the range's end means that level has no free block left |
| Pmm.Allocator.GetMR | kernel/memory/pmm.c:230-255 | the head of the best non-empty list: every better list is empty; nothing is found iff no list holds a range |
| Pmm.Allocator.PhysAlloc | kernel/memory/pmm.c:599-748 | exactly request callback calls on distinct pages that were free, at virt, virt+4096, ...; the out-of-memory panic iff request exceeds the total, the no-range panic iff it exceeds what the lists reach, after every page they reach was handed out, and never when no drained range got a page back; the total and what the lists reach drop by request; whatever the outcome, the pages come from listed ranges and no range is listed anew |
| Pmm.Allocator.GetMemoryRange | kernel/memory/pmm.c:784-824 | the dichotomy ends on the owning range for every page, and its assertion fails iff the page is the topmost page of the last range |
| Pmm.Allocator.PhysFree | kernel/memory/pmm.c:830-851 | exactly that page becomes free, the lists stay, and the total grows by one; it fails iff the page is the topmost one, and then nothing changes |
| Pmm.StrandedPage | kernel/memory/pmm.c:830-851 | a concrete run in which a page freed into a drained range is counted as available and yet the next request panics |
| Pmm.Session | kernel/memory/pmm.c:599-851 | over every sequence of requests and returns, up to and including one that panics, no page of a range that is in no list is ever handed out, no range comes back into a list, and every page in use was in use before or was handed out |
| Pmm.NothingStranded | kernel/memory/pmm.c:230-255 | while no unlisted range has a free page, the lists reach every available page |
| Pmm.AddressInjective | kernel/memory/pmm.c:830-851 | distinct pages have distinct physical addresses |
| PageEntry.EntryRoundTrip | kernel/memory/paging.c:116-127 | an entry made of an aligned address and flags has that address in its address field and the flags' bits everywhere else; it is present iff the flags are |
| PageEntry.EntryUnique | kernel/memory/paging.c:116-127 | that determines the entry |
| PageEntry.OrSplit | kernel/memory/paging.c:116-121 | bitwise or can be taken separately above and below any bit position |
| PageEntry.OffsetsArePath | kernel/memory/paging.c:86-107 | the four shift-and-mask offsets are the indices of the virtual page's walk |
| PageEntry.PathInjective | kernel/memory/paging.c:86-107 | two virtual pages with the same four indices are equal |
| PageTree.LinkTree | kernel/memory/paging.c:479-495 | linking a blank table keeps the tree: no table is reached along two walks |
| PageTree.LinkLookup | kernel/memory/paging.c:479-495 | linking a blank table changes the flat view nowhere |
| PageTree.LeafLookup | kernel/memory/paging.c:519-568 | writing a last-level entry changes the flat view at exactly one virtual page |
| PageTree.CrossingsClosed | kernel/memory/paging.c:649-677 | boundaries inside a run, in closed form |
| PageTree.BulkBound | kernel/memory/paging.c:22-28 | 3 tables and one per boundary: at most 13 for 4096 pages, at most 6 for 64 |
| TableCount.MissingIsNew | kernel/memory/paging.c:479-495 | the tables missing on one walk are its prefixes that no table is reached by |
| TableCount.CoveredTail | kernel/memory/paging.c:519-568 | pages whose tables exist need no more |
| TableCount.NeededSplit | kernel/memory/paging.c:649-706 | the tables needed by a run are those of its first part and those its second part needs afterwards |
| TableCount.NeededBound | kernel/memory/paging.c:519-568 | over any tree a run needs at most what its first page misses and one table per boundary entered |
| TableCount.RunBound | kernel/memory/paging.c:22-28 | over any tree 4096 consecutive pages need at most 13 new tables and 64 pages at most 6 (the comment in the source says 11) |
| TableCount.EmptyNeeds | kernel/memory/paging.c:519-568 | over an empty tree a run needs exactly 3 tables and one per boundary entered |
| TableCount.ThirteenNeeded | kernel/memory/paging.c:22-28 | 13 is reached |
| Paging.PageTables.constructor | kernel/memory/paging.c:309-364 | an empty root table over a supply of pages: nothing is mapped, no table below the root, an empty buffer, no part of the root set aside for the kernel |
| Paging.PageTables.GetEntryOrAllocate | kernel/memory/paging.c:479-495 | an existing entry is returned unchanged; otherwise the last buffered blank table is linked with the flags present, user and writable and no other, and only that walk changes |
| Paging.LeafDecides | kernel/memory/paging.c:479-495 | outside the kernel's part of the root every link on the walk to a last-level table is present, user and writable, so the leaf alone decides what a user may do |
| Paging.PageTables.TableFor | kernel/memory/paging.c:519-568 | the last-level table of a page; it fails iff the buffer holds fewer tables than the walk misses, and otherwise uses exactly those |
| Paging.PageTables.FillTable | kernel/memory/paging.c:519-568 | one last-level table is filled from the page at hand to its end or the end of the run |
| Paging.PageTables.InternalMapPages | kernel/memory/paging.c:519-568 | the flat view maps exactly the run, and the buffer loses exactly the tables the run needs; it fails only on a page already mapped or when the buffer is smaller than that |
| Paging.PageTables.FillBuffer | kernel/memory/paging.c:414-429 | the buffer is topped up with blank pages that belong to no table; it fails iff memory is short |
| Paging.PageTables.MapPages | kernel/memory/paging.c:679-706 | page x+i maps frame phys+4096i on exactly the requested range, with every bit of the flags asked for; nothing else moves, and the out-of-buffered-pages panic is never reached; memory runs out only, and mapping succeeds only, on the two sides of one number: the buffer size and the tables needed before the last batch |
| Paging.PageTables.AllocBulk | kernel/memory/paging.c:639-647 | a bulk of at most 4096 pages over 16 buffered tables never runs out of tables; the frames are distinct and new; exactly the tables needed leave the buffer |
| Paging.PageTables.AllocPages | kernel/memory/paging.c:649-677 | count distinct frames from the allocator are mapped at exactly the requested pages, with every bit of the flags asked for, and the out-of-buffered-pages panic is never reached; the pages used are exactly the frames and the tables needed, and memory runs out only when those and the buffer do not fit |
| Paging.WorstBulk | kernel/memory/paging.c:519-568 | over an empty tree, the bulk of 4096 pages from the last page of a 512 GB region takes exactly 13 buffered tables, and runs out of tables iff the buffer has fewer |
| Paging.PageTables.GetPhysAddr | kernel/memory/paging.c:1145-1176 | the four-level walk computes the flat translation, 0 where nothing is mapped |
| Paging.PageTables.UnmapPages | kernel/memory/paging.c:740-808 | completes iff every page of the run was mapped; then exactly the run is unmapped and exactly its frames are freed when asked |
| Paging.PageTables.GetPageTable | kernel/memory/paging.c:722-738 | finds the last-level table iff the walk reaches one |
| Paging.TranslateAfterMap | kernel/memory/paging.c:679-706 | after mapping, an address of the range translates to phys + (addr - virt) and every other address as before |
| Paging.TranslateAfterUnmap | kernel/memory/paging.c:740-808 | after unmapping, addresses of the range translate to 0 and every other address as before |
| PagingFree.Reclaimer.FreePageTable | kernel/memory/paging.c:461-476 | a table page goes to the back of the buffer while it has room, and then all its 512 entries are 0; else it goes to the allocator |
| PagingFree.Reclaimer.DeepFreeMap | kernel/memory/paging.c:863-890 | every table of a well-formed subtree is returned exactly once, children first; every frame is freed exactly once iff pfree; no page outside the subtree changes; every page put into the buffer is blank at the end, and a buffer of blank pages stays one |
| PagingFree.Reclaimer.FreeChildren | kernel/memory/paging.c:863-890 | the same for the children of one table, in entry order; every entry of the table is 0 afterwards |
| PagingFree.Reclaimer.ReleaseEntry | kernel/memory/paging.c:863-890 | one present entry is released and cleared, no other entry of the table changes, the later children are untouched |
| PagingFree.TreeHolds | kernel/memory/paging.c:863-890 | every subtree of the tree that mapping and unmapping keep is one that deep_free_map accepts |
| PagingFree.TreeTables | kernel/memory/paging.c:863-890 | the tables of such a subtree are pairwise distinct and lie below its root |
| PagingFree.TreeCanBeFreed | kernel/memory/paging.c:863-890 | so the demands of deep_free_map hold for every table of the tree |
| PageRange.FreePageRange | kernel/memory/paging.c:933-971 | the first count present entries from first on, going round the table, are freed; the loop ends iff there are that many |
| PageRange.OwnAndForeign | kernel/memory/paging.c:933-971 | all present entries of the region are freed, and as many foreign ones as the region has absent ones: none iff the whole region is present |
| HeapSegments.CarveKeeps | kernel/memory/heap.c:296-312 | taking a free segment keeps the tiling and alignment, adds exactly the block taken to the live blocks, and moves no other |
| HeapSegments.ExpandKeeps | kernel/memory/heap.c:131-159 | growing the heap keeps the tiling and all live blocks |
| HeapSegments.RetryFits | kernel/memory/heap.c:323-417 | after one expansion the head of the list fits, so malloc's retry cannot expand again |
| HeapSegments.ReleaseKeeps | kernel/memory/heap.c:470-498 | releasing a segment keeps the tiling and removes exactly that block |
| HeapSegments.MergedKeeps | kernel/memory/heap.c:177-216 | merging keeps the tiling and the live blocks and leaves no two adjacent free segments |
| HeapSegments.LiveDisjoint | kernel/memory/heap.c:323-498 | two live blocks are the same block or lie apart |
| HeapMemory.EncodeRoundTrip | kernel/memory/heap.c:30-37 | a header field survives its little-endian bytes |
| HeapMemory.WriteRead | kernel/memory/heap.c:30-37 | a stored header reads back |
| HeapMemory.ReadElsewhere | kernel/memory/heap.c:30-37 | headers apart from the stored bytes read back unchanged |
| HeapMemory.WriteOne | kernel/memory/heap.c:131-216 | storing the header of one segment changes that header only, and no byte of a live block |
| Heap.KernelHeap.constructor | kernel/memory/heap.c:76-87 | the empty heap |
| Heap.KernelHeap.ExpandHeap | kernel/memory/heap.c:131-159 | one free segment over the new bytes; the headers in memory are again exactly the list |
| Heap.KernelHeap.FindSegment | kernel/memory/heap.c:323-417 | the first segment that fits in list order, and its predecessor |
| Heap.KernelHeap.TakeSegment | kernel/memory/heap.c:323-417 | the segment is split iff its tail can stand on its own, and marked; live bytes are kept |
| Heap.KernelHeap.SplitSegment | kernel/memory/heap.c:296-312 | a new free segment is linked between the split one and its predecessor, in the bytes of the heap |
| Heap.KernelHeap.Malloc | kernel/memory/heap.c:323-417 | returns an 8-aligned first-fit block of at least the requested size, larger than the rounded size only by less than a header and a smallest segment, that overlaps no live block; n_allocations counts the live blocks; every live byte is kept; at most one expansion |
| Heap.KernelHeap.Free | kernel/memory/heap.c:470-498 | exactly the given block leaves the live set, every other live byte is kept; the call is counted, and on every 32nd call no two adjacent free segments remain |
| Heap.KernelHeap.Realloc | kernel/memory/heap.c:421-466 | NULL allocates, size 0 frees; otherwise the block stays, and the heap with it, iff it is larger than the new size and that is over half of it or less than two smallest segments short of it, else a new one takes over its first min(old, new) bytes; all other live bytes are kept; room for an expansion is needed only when a new block is |
| Heap.KernelHeap.Relocate | kernel/memory/heap.c:421-466 | the copy reaches a block that was not live before the old one is released |
| Heap.KernelHeap.Defragment | kernel/memory/heap.c:177-216 | refines the merge of the list: no live block moves or changes, no two adjacent free segments remain |
| Heap.KernelHeap.FoldSegment | kernel/memory/heap.c:177-216 | one merge, as header stores |
| NvmeQueue.NextIndexCount | kernel/drivers/nvme/queue.h:56-62 | advancing a ring index is advancing a count modulo the size |
| NvmeQueue.IndexInjective | kernel/drivers/nvme/queue.h:56-62 | counts less than the size apart have the same index only when equal |
| NvmeQueue.RingCounts | kernel/drivers/nvme/queue.h:64-70 | the ring is empty iff head and tail counts are equal, full iff they are size-1 apart |
| NvmeQueue.PredictionIffDivides | kernel/drivers/nvme/queue.h:87-92 | the phase predicted from the wrapped 32-bit counter is right at every count iff twice the queue size divides 2^32 |
| NvmeQueue.PhaseDetects | kernel/drivers/nvme/queue.c:64-94 | the phase of the tail slot differs from the predicted one iff a completion was posted there |
| NvmeQueue.QueuePair.UpdateQueues | kernel/drivers/nvme/queue.c:64-94 | finds every posted completion exactly once; neither queue assertion fails |
| NvmeProtocol.SubmitInv | kernel/drivers/nvme/commands.c:22-71 | submitting a command keeps the protocol invariant |
| NvmeProtocol.PollInv | kernel/drivers/nvme/queue.c:64-94 | one turn of update_queues keeps it; a completion is found iff there is a new one, and then the completion queue is not full and the submission queue not empty |
| NvmeProtocol.HandleInv | kernel/drivers/nvme/nvme.c:286-339 | processing one completion keeps the invariant |
| NvmeProtocol.FinishInv | kernel/drivers/nvme/nvme.c:270-282 | ringing the completion doorbell keeps it |
| NvmeProtocol.FetchInv | kernel/drivers/nvme/commands.c:22-71 | the controller fetching a command keeps it |
| NvmeProtocol.CompleteInv | kernel/drivers/nvme/queue.c:64-94 | the controller posting any fetched command's completion, in any order, keeps it |
| NvmeProtocol.StepInv | kernel/drivers/nvme/nvme.c:286-339 | every step of either side keeps the invariant |
| NvmeDelivery.RunInv | kernel/drivers/nvme/nvme.c:286-339 | so does every interleaving |
| NvmeDelivery.EveryInterleaving | kernel/drivers/nvme/queue.c:64-94 | from start-up, for every interleaving and completion order: detection is exact, the index assertions hold, each completion is processed once and in the order posted, sq.tail is cmd_counter mod the size |
| NvmeDelivery.DriverQueueSize | kernel/drivers/nvme/nvme.c:46-46 | the driver's size 64 meets the size condition |
| NvmeDelivery.SubmitOwn | kernel/drivers/nvme/nvme.c:1097-1161 | a command submitted into a slot that no command holds disturbs no other command's page or read slot |
| NvmeDelivery.HandleOwn | kernel/drivers/nvme/nvme.c:286-339 | the processed completion delivers its own command's sectors to its own buffer |
| NvmeDelivery.CompleteOwn | kernel/drivers/nvme/nvme.c:1183-1245 | whatever command the controller completes, it uses that command's own page; reads and writes take effect in completion order |
| NvmeDelivery.FreeIff | kernel/drivers/nvme/nvme.c:1126-1141 | no command holds the next slot iff its read slot is NULL and no unexecuted write or unfinished synchronous read has it |
| NvmeDelivery.SubmitSafeIff | kernel/drivers/nvme/nvme.c:1097-1245 | whatever is in flight, a submission takes a slot that no command holds iff that is so |
| NvmeDelivery.NotNullShares | kernel/drivers/nvme/nvme.c:1126-1141 | whatever is in flight, a read slot that is not NULL means that the submission takes a slot that is held |
| NvmeDelivery.FreeSlotsDeliver | kernel/drivers/nvme/nvme.c:286-339 | over every run that submits only into slots that no command holds (a write that was executed holds none), for any completion order, commands own their slots and the state is that of sequential execution in completion order |
| NvmeDelivery.OwnRight | kernel/drivers/nvme/nvme.c:1035-1161 | then clients see what they should: the disk, every delivery, and the page of every completed synchronous read |
| NvmeDelivery.InOrderFree | kernel/drivers/nvme/nvme.c:1097-1161 | with in-order completion the next slot is always free |
| NvmeDelivery.InOrderRefinesDisk | kernel/drivers/nvme/nvme.c:1097-1161 | with in-order completion driver and controller refine a sequential disk: its contents, and the deliveries in submission order |
| NvmeDelivery.SyncCompletes | kernel/drivers/nvme/nvme.c:1165-1178 | when nvme_sync's test succeeds, every request has taken effect and every read was delivered |
| NvmeDelivery.SyncReadCopies | kernel/drivers/nvme/nvme.c:1035-1094 | when a synchronous read sees the submission queue empty, its page holds the sectors as of all earlier requests |
| NvmeDelivery.SubmitSafeIffNull | kernel/drivers/nvme/nvme.c:1126-1141 | while only asynchronous reads are unfinished, a submission takes a slot of its own iff the read slot it overwrites is NULL |
| NvmeDelivery.RunNulls | kernel/drivers/nvme/nvme.c:311-328 | the invariant behind that test holds after every run that respected it |
| NvmeReorder.Update | kernel/drivers/nvme/queue.c:64-94 | from any state an interrupt finds every completion posted so far and changes nothing else |
| NvmeReorder.ComesRound | kernel/drivers/nvme/nvme.c:1097-1245 | for every queue size of at least 4 and any request, a run from start-up that uses free slots only ends with that request unfinished and its slot next |
| NvmeTakeover.CompleteNext | kernel/drivers/nvme/commands.c:22-71 | from any state the controller can complete any unfinished command next, with these effects on disk, page and completions |
| NvmeTakeover.ServeAt | kernel/drivers/nvme/nvme.c:286-339 | the interrupt that processes a read completion copies what its slot then holds, after completions of other slots left it alone |
| NvmeTakeover.ReadTakenOver | kernel/drivers/nvme/nvme.c:1097-1161 | in every state in which commands own their slots: once a read is submitted into the slot of an unfinished read, posted or not, some continuation copies the older read's sectors into the newer buffer |
| NvmeTakeover.WriteTakenOver | kernel/drivers/nvme/nvme.c:1183-1245 | likewise over an unexecuted write: some continuation stores the newer write's data at the older address |
| NvmeTakeover.TakenOver | kernel/drivers/nvme/nvme.c:1035-1245 | any request over any command that holds the slot, if the two differ in what they carry or in their buffers: some continuation without further submissions shows clients what no sequential disk shows |
| NvmeTakeover.HarmlessIff | kernel/drivers/nvme/nvme.c:1035-1245 | so every continuation that uses free slots is right iff no command holds the slot of the submission, which is iff its read slot is NULL and no unexecuted write or unfinished synchronous read has it |
| NvmeTakeover.ReadLost | kernel/drivers/nvme/nvme.c:1097-1161 | from start-up, for every queue size of at least 4, an interleaving that copies one read's sectors into another read's buffer |
| NvmeTakeover.WriteLost | kernel/drivers/nvme/nvme.c:1183-1245 | and one that puts the data of one write at the address of another, although the read slot is NULL |
| Mutex.InitInv | blibc/src/pthread_mutex.c:11-38 | a new mutex is free, whatever its type |
| Mutex.CallInv | blibc/src/pthread_mutex.c:50-110 | starting lock, trylock or unlock keeps the invariant |
| Mutex.LockInv | blibc/src/pthread_mutex.c:74-92 | every memory access of lock and trylock keeps it |
| Mutex.UnlockInv | blibc/src/pthread_mutex.c:96-110 | every memory access of unlock keeps it |
| Mutex.StepInv | blibc/src/pthread_mutex.c:50-110 | every memory access of every thread keeps it |
| Mutex.MutualExclusion | blibc/src/pthread_mutex.c:50-110 | after any interleaving of any number of threads at most one has been granted the mutex; a non-zero owner is the holder; an idle owner's rec is its number of unmatched locks |
| Mutex.ReleasedIffMatched | blibc/src/pthread_mutex.c:96-110 | an unlock leaves the mutex free iff the thread's unlocks match its locks |
| Mutex.OnlyUnlockReleases | blibc/src/pthread_mutex.c:96-110 | nothing else frees it, and then nobody holds it |
| Mutex.TryLockBusyIff | blibc/src/pthread_mutex.c:50-71 | trylock returns EBUSY iff some thread holds the mutex at its compare-and-swap, and then its locks are as before; otherwise it takes it |
| Mutex.LockWaitsIff | blibc/src/pthread_mutex.c:74-92 | the compare-and-swap of lock changes nothing iff some thread holds the mutex; otherwise it takes it |
| Mutex.OnlyLockWaits | blibc/src/pthread_mutex.c:50-110 | every access brings its call nearer to its return, except that of a lock at a mutex that is held |
| Mutex.CallResult | blibc/src/pthread_mutex.c:50-110 | from the call to the return, through any interleaving: lock returns 0 and only with the mutex granted, trylock returns 0 iff it was granted and else EBUSY, unlock returns 0 and grants nothing; a call that has not returned was not granted yet |
| Mutex.NestedLockGranted | blibc/src/pthread_mutex.c:74-92 | the owner of a recursive mutex never waits: three accesses of its nested call add one to rec, return 0 and change nothing else |
| ReadyQueue.Ring.constructor | kernel/sched/sched.c:132-141 | an empty ring of capacity 3 |
| ReadyQueue.Ring.Expand | kernel/sched/sched.c:149-184 | doubling a full ring, wrapped or not, keeps its entries in order and makes room |
| ReadyQueue.Ring.MoveUp | kernel/sched/sched.c:165-182 | the part from head on moves to the end of the larger buffer |
| ReadyQueue.Ring.Push | kernel/sched/sched.c:186-197 | the entry goes to the back, expanding when full |
| ReadyQueue.Ring.PushReady | kernel/sched/sched.c:374-396 | n_ready_threads stays the length |
| ReadyQueue.Ring.PopReady | kernel/sched/sched.c:400-419 | the entry at the front, and n_ready_threads stays the length |
| ReadyQueue.FirstInFirstOut | kernel/sched/sched.c:149-209 | over every run of pushes and pops, popped entries followed by remaining ones are old entries followed by pushed ones |
| ReadyQueue.PoppedInTurn | kernel/sched/sched.c:149-209 | the entry at position k leaves with exactly the (k+1)-th later pop, whatever is pushed between |
| SchedState.BootInv | kernel/sched/sched.c:271-294 | the state after sched_init satisfies the invariant |
| SchedState.SaveInv | kernel/sched/sched.c:654-692 | sched_save keeps it |
| SchedState.SaveDecides | kernel/sched/sched.c:654-692 | from its dispatch on, through any run up to its save: the thread is READY and last in the queue iff it did not ask to block since, and BLOCKED and unqueued iff it did; no request to block is left afterwards |
| SchedState.ReapInv | kernel/sched/sched.c:1216-1254 | the lazy kill keeps it |
| SchedState.DispatchInv | kernel/sched/sched.c:1319-1325 | dispatching a thread keeps it |
| SchedState.UnblockInv | kernel/sched/sched.c:1118-1128 | unblocking keeps it; a blocked thread is READY and last in the queue afterwards, for any other nothing changes |
| SchedState.KillInv | kernel/sched/sched.c:547-597 | marking a process keeps it |
| SchedState.StepInv | kernel/sched/sched.c:654-692 | every step keeps it |
| SchedState.StateFate | kernel/sched/sched.c:654-692 | over every step, exactly when a thread is BLOCKED and when it is RUNNING afterwards |
| SchedState.FlagFate | kernel/sched/sched.c:1018-1046 | over every step, exactly when should_block, should_exit and uninterruptible are set afterwards |
| SchedState.QueueFate | kernel/sched/sched.c:901-939 | over every step, which thread is current, and the queue only loses its head or gains one entry at its back |
| SchedState.QueueHead | kernel/sched/sched.c:901-939 | whenever no thread runs the ready queue is not empty, and its head exists, is READY and is queued once |
| SchedState.ReachableStates | kernel/sched/sched.c:901-939 | in every reachable state a thread is READY iff it is queued exactly once, a RUNNING thread is the current one, no thread but the running one has should_block set, no queue entry names a removed thread, live processes are those with a thread, and the queue is not empty when nothing runs |
| SchedState.RemovedOnlyWhenDoomed | kernel/sched/sched.c:1216-1233 | a thread disappears only by being popped with should_exit set and uninterruptible clear |
| SchedState.RetiredExactlyWithLastThread | kernel/sched/sched.c:1235-1247 | a process is retired iff its last thread goes |
| SchedState.ScheduleEnds | kernel/sched/sched.c:1204-1258 | schedule() can always go on, and each removal shortens the queue |
| SchedState.TurnsWakeParents | kernel/sched/sched.c:1204-1258 | over every run of turns of schedule(), a blocked thread is woken iff it is thread 1 of a process that does not ignore the end of a child and a child of it was retired |
| ThreadIds.Preferred | kernel/sched/process.c:543-571 | one past the largest thread number in use |
| ThreadIds.AllocTid | kernel/sched/process.c:543-571 | the loop computes the preferred number, else the fallback, else 0 |
| ThreadIds.AlternativeUnusedIff | kernel/sched/process.c:543-571 | the fallback is unused iff the numbers below the smallest unused one stand in increasing order, and then it is that one |
| ThreadIds.FreshTidIff | kernel/sched/process.c:543-571 | for every table: alloc_tid returns an unused number iff MAX_TID is not in use or that order holds, and 0 iff besides every number is in use |
| ThreadIds.TrustworthyFresh | kernel/sched/process.c:543-571 | stated as a condition on the table alone |
| ThreadIds.TidReused | kernel/sched/process.c:543-571 | threads 2, 1, 0xffff in table order: the number 2 is returned again |
| Scheduler.SetSlotRep | kernel/sched/sched.c:435-491 | updating one array slot is a point update of the thread table |
| Scheduler.DropSlotRep | kernel/sched/sched.c:1231-1233 | moving the last thread into the hole removes exactly one thread |
| Scheduler.DropProcessRep | kernel/sched/sched.c:343-358 | moving the last process into the hole removes exactly the empty process |
| Scheduler.Kernel.constructor | kernel/sched/sched.c:271-294 | the arrays and the ring after sched_init |
| Scheduler.Kernel.GetProcess | kernel/sched/sched.c:453-491 | finds the process iff it is in the table |
| Scheduler.Kernel.GetThread | kernel/sched/sched.c:435-450 | finds the thread iff the process has it |
| Scheduler.Kernel.Lookup | kernel/sched/sched.c:435-491 | finds the thread iff it is in the thread table |
| Scheduler.Kernel.Save | kernel/sched/sched.c:654-692 | the code on arrays and ring is the sched_save step, whose outcome SchedState.SaveDecides gives |
| Scheduler.Kernel.RequestBlock | kernel/sched/sched.c:1018-1046 | should_block is set on the current thread, which is not the kernel's |
| Scheduler.Kernel.UnblockThread | kernel/sched/sched.c:1118-1128 | a blocked thread becomes READY and goes to the back; any other thread is left alone |
| Scheduler.Kernel.Unblock | kernel/sched/sched.c:1131-1164 | the same by name, with no effect on an unknown name |
| Scheduler.Kernel.ChooseNext | kernel/sched/sched.c:901-939 | pops a thread that exists and is READY; the queue is never empty |
| Scheduler.Kernel.Dispatch | kernel/sched/sched.c:1319-1325 | the popped thread becomes the RUNNING current thread |
| Scheduler.Kernel.Terminate | kernel/sched/sched.c:1216-1254 | the popped thread is removed, and its process iff it was the last one; the parent is to be signalled iff the process was retired, and the number returned is its parent's |
| Scheduler.Kernel.RemoveProcess | kernel/sched/sched.c:327-369 | exactly that process leaves the table and joins the killed list |
| Scheduler.Kernel.SignalParent | kernel/sched/process.c:975-1011 | if the parent is in the table and does not ignore the signal, its thread 1 is unblocked: READY and last in the queue when it was blocked; otherwise nothing changes |
| Scheduler.Kernel.Reap | kernel/sched/sched.c:1204-1258 | one turn of the loop removes one thread, and wakes the parent iff that retired a process whose parent hears of it |
| Scheduler.Kernel.Schedule | kernel/sched/sched.c:1168-1325 | the whole loop is a run of lazy kills, each followed by the wake-up of the parent when there is one, and then one dispatch; a blocked thread is woken iff it is thread 1 of a hearing parent of a retired process; it terminates |
| Scheduler.Kernel.MarkAll | kernel/sched/sched.c:567-583 | every thread of the process is marked should_exit |
| Scheduler.Kernel.KillProcess | kernel/sched/sched.c:547-597 | afterwards every thread of the process is marked and none is blocked, no other thread changed; fails iff there is no such process |
| Scheduler.Kernel.CreateThread | kernel/sched/sched.c:602-627 | for every process in which alloc_tid can be trusted: a new READY thread with an unused number, or -1 iff the caller is being killed, or 0 when the numbers are used up or the stack fails |
| Scheduler.Kernel.Birth | kernel/sched/process.c:574-624 | the thread is stored blocked and launched |
| Scheduler.Kernel.Launch | kernel/sched/sched.c:540-543 | a newborn thread becomes READY and is queued |
| Scheduler.KillWakes | kernel/sched/sched.c:585-593 | waking every recorded thread number leaves none of the process blocked |
| SleepQueue.InsertSorted | kernel/lib/time.c:58-95 | inserting at the found position keeps the order by deadline, adds exactly the entry, and puts it behind equal deadlines |
| SleepQueue.DueExactly | kernel/lib/time.c:112-157 | on a sorted array the due prefix is exactly the set of entries past their deadline |
| SleepQueue.RemoveSorted | kernel/lib/time.c:213-265 | removing an entry keeps the order and every other entry |
| SleepQueue.Sleepers.InsertPosition | kernel/lib/time.c:38-55 | the first entry with a later deadline |
| SleepQueue.Sleepers.Register | kernel/lib/time.c:58-95 | the array stays sorted and holds the new entry |
| SleepQueue.Sleepers.WakeupThreads | kernel/lib/time.c:112-157 | a tick removes exactly the entries with deadline < now and unblocks exactly their threads |
| SleepQueue.Sleepers.SleepCancel | kernel/lib/time.c:213-265 | removes the thread's last entry and unblocks it; fails iff it has none |
| SleepQueue.StaysAsleep | kernel/lib/time.c:180-199 | no tick up to its deadline and no unrelated event wakes a sleeping thread |
| SleepQueue.TickWakes | kernel/lib/time.c:112-157 | a tick past the deadline makes the thread READY |
| SleepQueue.WokenByFirstTick | kernel/lib/time.c:112-157 | over every run, a sleeping thread that is not otherwise unblocked is woken by the first tick past its deadline |
| SleepQueue.BlockSleeps | kernel/lib/time.c:185-195 | a thread that blocks with a registered deadline sleeps; this is one turn of the loop in sleep |
| SleepQueue.SleepSleeps | kernel/lib/time.c:162-199 | from the call of sleep: the deadline is registered, the thread is blocked and sleeps |
| SleepQueue.StaysThrough | kernel/lib/time.c:162-199 | it goes on sleeping through every run of events not meant for it |
| SleepQueue.SleepWakes | kernel/lib/time.c:162-199 | all in one: from the call of sleep, blocked at once, blocked through every such run, READY at the first tick past the deadline |
| BlockCache.InIteration | kernel/drivers/block_cache.c:421-436 | a turn never leaves its page, makes progress, and ends at the page's end unless it is the last |
| BlockCache.RaggedTailIff | kernel/drivers/block_cache.c:565-617 | a write has a ragged tail iff it touches two pages or more and ends inside a page |
| BlockCache.RaggedExample | kernel/drivers/block_cache.c:565-617 | four sectors from sector 6, with eight sectors a page |
| BlockCache.SectorsWritten | kernel/drivers/block_cache.c:647-674 | reading back what was written gives it, and sectors outside the write are unchanged |
| BlockCache.Cache.constructor | kernel/drivers/block_cache.c:683-734 | an empty, unlocked cache over its regions of the address space |
| BlockCache.Cache.IsFetching | kernel/drivers/block_cache.c:291-307 | whether a fetch of the page is outstanding |
| BlockCache.Cache.TargetSync | kernel/drivers/block_cache.c:354-417 | every outstanding fetch is mapped once with the disk's data, nothing else changes, n_used_page counts the mapped pages |
| BlockCache.Cache.MakeRoom | kernel/drivers/block_cache.c:331-338 | a full fetch list is drained; nothing mapped or coming is lost |
| BlockCache.Cache.FetchPage | kernel/drivers/block_cache.c:312-350 | the page is outstanding exactly once, no mapped page is fetched, and no other page is mapped or outstanding that was neither before |
| BlockCache.Cache.Prefetch | kernel/drivers/block_cache.c:439-473 | every page of the range is mapped with the disk's data, and no page that is neither in the range nor was cached |
| BlockCache.Cache.BlockingReadCache | kernel/drivers/block_cache.c:485-509 | the page is mapped with the disk's data if it was absent, and nothing else changes |
| BlockCache.Cache.Read | kernel/drivers/block_cache.c:518-562 | returns exactly the disk's sectors for any range of the device, whatever is cached, leaves every cached page equal to the disk, and caches exactly the pages of the range besides those that were |
| BlockCache.Cache.WritePage | kernel/drivers/block_cache.c:592-611 | one turn of the write leaves every cached page as the disk will be, and adds at most its own page |
| BlockCache.Cache.WriteCache | kernel/drivers/block_cache.c:566-617 | with assertions on it stops iff the write has a ragged tail; otherwise the cached pages are those of the written disk, the pages of the range besides those that were cached; the lock stays taken iff the write is empty |
| BlockCache.Cache.Write | kernel/drivers/block_cache.c:647-674 | a completed write leaves the disk spliced and every cached page equal to it, and caches exactly the pages of the range besides those that were |
| BlockCache.Cache.Flush | kernel/drivers/block_cache.c:223-243 | all pages of the cache go; one foreign region is freed for each region of the cache without a page, so none iff every region has one; the kernel hangs iff the table has fewer entries than regions |
| BlockCache.FreedSplit | kernel/drivers/block_cache.c:223-243 | own and foreign entries among those freed |
| BlockCache.TwoFlushes | kernel/drivers/block_cache.c:223-243 | a concrete run: the second of two flushes frees entry 511 of the kernel |
| VfsStream.Stream.constructor | kernel/fs/vfs_files.c:300-330 | a fresh handle at offset 0 with no valid buffer |
| VfsStream.Stream.SetOffset | kernel/fs/vfs_files.c:354-365 | sector_count = offset / g, sector_offset = offset mod g, no valid buffer |
| VfsStream.Stream.Seek | kernel/fs/vfs_files.c:1279-1318 | the new offset for each whence, modulo 2^64; fails iff not seekable or unknown whence, and then nothing changes; otherwise no buffer is used afterwards |
| VfsStream.Stream.FromBuffer | kernel/fs/vfs_files.c:889-929 | the bytes come from the buffer, whatever it holds, up to the end of the sector; the cursor stays exact, a buffer that is right, or holds its whole sector, stays so, and it is dropped iff it is used up |
| VfsStream.Stream.ReadSectors | kernel/fs/vfs_files.c:932-1008 | the bytes taken from whole sectors are the file's; the last sector is buffered iff cacheable and not used up |
| VfsStream.Stream.FromSectors | kernel/fs/vfs_files.c:932-1014 | and the cursor stays exact |
| VfsStream.Stream.Take | kernel/fs/vfs_files.c:889-1014 | first the rest of the buffered sector, then whole sectors |
| VfsStream.Stream.Read | kernel/fs/vfs_files.c:840-1021 | for every granularity and every state of the buffer: min(size, N-off) bytes and the offset advances by as many; they are the file's bytes iff the buffer is unused or agrees with the file on the bytes it gives, and so whenever the buffer is right from the cursor on; a buffer that holds its whole sector goes on to do so; whatever the buffer held, after a read that goes past it, or that did not use it, it holds its whole sector or is unused; a read that stays inside it keeps it |
| VfsStream.ReadRightIff | kernel/fs/vfs_files.c:889-929 | the same as a statement about the bytes |
| VfsStream.BufferFresh | kernel/fs/vfs_files.c:889-929 | a buffer that is right from the cursor on gives the file's bytes |
| VfsStream.Stream.FirstSector | kernel/fs/vfs_files.c:1160-1192 | the current sector around the written part, from the buffer when it is valid |
| VfsStream.Stream.LoadFirst | kernel/fs/vfs_files.c:1147-1192 | the first sector is read back whenever part of it that is in the file is not overwritten |
| VfsStream.Stream.LoadLast | kernel/fs/vfs_files.c:1194-1231 | the last sector likewise; it is buffered as it was before the write |
| VfsStream.Stream.Compose | kernel/fs/vfs_files.c:1141-1236 | the sectors to be written, byte by byte |
| VfsStream.Stream.PutSectors | kernel/fs/vfs_files.c:1239-1245 | whole sectors are stored and no other byte changes |
| VfsStream.Stream.Store | kernel/fs/vfs_files.c:1072-1262 | every byte of the old file after the write, the new size max(N, off+size), the cursor, and: the buffer is right from the new cursor on iff not (it was valid and the write ended exactly at the end of its sector) |
| VfsStream.Stream.Write | kernel/fs/vfs_files.c:1025-1276 | for every state of the buffer: the written bytes are in place, the size is max(N, off+size), every byte of the old file; no other byte changed iff the buffer was unused or agreed with the file on what the write keeps of its sector, and, when the buffer was right from the cursor on, iff it held its whole sector; from a whole buffer it is whole afterwards iff it is unused or nothing new was put into the last sector; whatever the buffer held, it is right from the cursor on after an unaligned write over several sectors, and it is left alone by a write of whole sectors or inside one |
| VfsStream.Stream.Splice | kernel/fs/vfs_files.c:1072-1262 | the same for the write proper |
| VfsStream.KeptInside | kernel/fs/vfs_files.c:1178-1192 | inside one buffered sector the buffer stays whole iff the written bytes are those already there |
| VfsStream.RewritesIff | kernel/fs/vfs_files.c:1194-1245 | the buffered last sector is the stored one iff the write put nothing new there |
| VfsStream.WholeIffFresh | kernel/fs/vfs_files.c:1178-1192 | a buffer that is right from the cursor on is right around any write iff it is whole |
| VfsStream.UnharmedIff | kernel/fs/vfs_files.c:1178-1192 | the same as a statement about the bytes |
| VfsStream.FirstWriteLost | kernel/fs/vfs_files.c:1194-1234 | a concrete run in which the second of two consecutive writes undoes the first |
| VfsStream.WrongRead | kernel/fs/vfs_files.c:1248-1262 | a concrete run: after a write that fills its sector, reading one byte gives 1 where the file has 5 |
| VfsStream.BytesBehindLost | kernel/fs/vfs_files.c:1160-1192 | and writing one byte there replaces the three bytes behind it |
| VfsSession.TwoWrites | kernel/fs/vfs_files.c:1025-1276 | of two writes in a row through a whole buffer the first is exact, and the second is exact iff the first left the buffer whole |
| VfsSession.Session | kernel/fs/vfs_files.c:840-1318 | over every session of reads, writes and seeks that begins with a whole buffer, every answer and every file is that of a plain file with an offset, if the handle is not cacheable, or appends, or is positioned again after each write |

## Left out

- Hardware: port and memory-mapped I/O, cr3 and the TLB, MSRs, extended state, PCIe, timers, interrupt controllers, context switching, ACPI. Interrupts being off is modelled as atomicity.
- The clock, the contents of fresh memory, and sectors the file system appends are parameters.
- FAT32, pipefs, the ELF loader, the terminal, drivers other than NVMe, boot, system-call argument checks and user programs.
- kernel/memory/paging.c: remap_pages, get_paddr, and get_pd and map_pd above level 0. The first writes frame 0 and the second indexes an untranslated table, so they state no usable property.
- kernel/memory/heap.c: try_merge and find_pred are never called. The user-space allocator in blibc/src/alloc.c repeats the same design.
- Pmm.Allocator.constructor: assumes sorted, page-aligned, disjoint boot ranges of at most one header's worth of pages; how init_pmm cuts the boot memory map into such ranges is not modelled.
- Pmm.Allocator.PhysAlloc: headers are values here; that the byte bitmaps in the header pages refine them is stated by PmmBytes.RangeHeader, and what the scan's words hold by PmmWord, separately.
- Pmm.Allocator.PhysFree: takes an allocated page; freeing a free page or a foreign address is not modelled.
- Paging.PageTables.AllocPages: the frames come one by one from a supply of distinct pages, not from the allocator of module Pmm.
- Paging.PageTables.constructor: the two tables that init_paging links at entries 256 and 511 of the root are absent, so the boot tree is the empty one.
- PagingFree.Reclaimer.DeepFreeMap: shares the store with Paging but not one object; PagingFree.TreeCanBeFreed connects the two.
- PageRange.FreePageRange: on the entries of the top table only; what is freed below an entry is DeepFreeMap's.
- Heap.KernelHeap.Malloc: assumes that the heap stays at or below 2^32 bytes, because a segment size is a 32-bit field; the panic of a refused expansion is a precondition.
- Heap.KernelHeap.Free: takes a pointer that malloc returned; the assertions on other pointers are not modelled.
- NvmeProtocol: one controller, one I/O queue pair, fewer than 2^31 commands (cmd_counter is a signed 32-bit integer), one transfer per page; splitting a long transfer into pages, error statuses and the admin queue are not modelled.
- NvmeQueue.QueuePair.UpdateQueues: the controller is quiet during the loop; NvmeProtocol.PollInv lets it act between any two turns.
- NvmeProtocol.HandleInv: the panic on an error status and the size assertion are not modelled.
- NvmeTakeover.HarmlessIff: for commands that can be told apart; two that carry the same data to the same place may share a slot unnoticed. The copy of a synchronous read is not a step, so its page counts from its completion to its processing.
- NvmeDelivery.SyncReadCopies: the copy itself is one memcpy after the wait, and is not a step of the protocol.
- Mutex.MutualExclusion: assumes that only a thread that was granted the mutex unlocks it, program order of the accesses, and fewer than 2^31 nested locks. The initial argument checks of pthread_mutex_init are not modelled.
- SchedState.ReachableStates: assumes that process 0 is not killed and does not exit (the code does not check this), that process numbers are not reused while live (alloc_pid wraps), and one CPU. Signals are modelled only as the wake-up of a thread; whether a process ignores the end of a child is fixed when it is created; exec, stacks and memory maps are not modelled.
- Scheduler.Kernel.KillProcess: the sleep entries of the woken threads are not cancelled here; one atomic step, although the kernel enables interrupts between marking and waking; the state machine interleaves the two freely.
- Scheduler.Kernel.SignalParent: does not model threads waiting in sigwait, nor the cancelling of a sleep.
- Scheduler.Kernel.CreateThread: takes a process in which alloc_tid can be trusted, the exact condition for an unused number.
- Scheduler.Kernel.Birth: does not model a failing create_thread, which the code handles but which always returns 0; of the stack only that allocating it can fail.
- SleepQueue.WokenByFirstTick: an earlier entry of the same thread, left behind by an interrupted sleep, counts as being otherwise unblocked.
- BlockCache.Cache.Read: one client and one device; the range must lie on the device. With one client the lock only matters for write_cache, and the disk does not change while a fetch is outstanding. Fetch identifiers are all equal in the code, so a sync drains the whole list.
- BlockCache.Cache.Flush: what the kernel does after losing a foreign region is not modelled.
- VfsStream.Stream.Read: one handle on a regular file of finite size over a file system that returns whole sectors; transfers below 2^32 bytes; infinite files, short reads, read errors and other handles' buffers are not modelled.
- VfsSession.TwoWrites: a first write that fills a buffered sector to its end is excluded; VfsStream.Stream.Write has the condition on the bytes.
- VfsStream.Stream.Write: bytes between the old end and a cursor beyond it are unspecified, as in the code; failed sector writes are not modelled.
- FAT32-backed truncation, directory operations and the open-file table.
