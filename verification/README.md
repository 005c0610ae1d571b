# PrismaticOS, verified parts

A Dafny model of the parts of PrismaticOS that carry its hard invariants, and proofs about them. `dafny verify
dfyconfig.toml` checks everything. Code that changes state step by step is a class or a method with loops, proved
against functions on values; what the code promises is proved about those functions. What one call does is also stated
case by case, in the code's own fields, bits and bytes and without those functions: in the contracts of the calls or in
the lemmas whose names end in `Is`.

- `Frames`, `PageEntries`, `PageWalk`, `BootTables`, `Mmu`, `Regions`: physical frames, the four-level page tables as
  a map from (space, page) to translation, and the region allocator on top of both (`kernel/mm.c`).
- `HeapModel`, `Headers`, `HeapMemory`, `HeapOverwrite`, `HeapRuns`, `HeapContents`, `KernelHeap`: the first-fit kernel
  heap; first as a list of blocks, then as headers in the memory they manage, where one header can fall on another.
- `MutexProtocol`, `Scheduler`: mutexes and the ready queue as steps of any number of threads, and the same over
  thread records that share one `next` field (`kernel/process.c`).
- `Dom`, `HtmlTree`, `HtmlLexer`, `HtmlParser`, `HtmlRoundTrip`, `HtmlBuilder`: node links, the tree a token stream
  builds, the tokenizer, and the parser that composes them (`html/src`).
- `Words`, `ByteMemory`, `Strtok`, `Strtol`, `Numerals`: word-at-a-time string code, in-place tokenizing and number
  parsing (`libc/src`).
- `Console`: the scrolling screen as the end of an unbounded page (`kernel/console.c`).
- `Vfs`, `Files`: path lookup and creation, and files under many descriptors (`kernel/fs.c`).
- `Machine`, `Characters`, `Lists`: constants, character classes, duplicate-free sequences.

## What the code does not secure

These are proved with a concrete run or an exact condition.

- `kfree` merges with the next block of the list without testing that it is adjacent in memory: `FreeTiles`,
  `BrokenRun`. A later split of such a block can write its header over that of a block in use, and the list then loses
  blocks: `MallocFollows` and `StepConserves` give the exact condition, `OverwriteLoses` what is lost, `LostBlocks` a run.
  (A header that meets another only in part is outside `OverwriteLoses`: what its bytes then say depends on the payload.)
- A request near 2^64 wraps the end-of-heap test: `MallocTiles`, `EmptyHeapWraps`. The seven largest sizes wrap in the
  rounding and yield a block too small, into which `krealloc` copies too much: `MallocGives`, `NoBytes`, `MoveFits`.
- Top-level slot 0 is shared by all spaces and holds every heap start, so the heaps of two spaces replace each other's
  pages: `HeapsCollide`. Pages in that slot are never user-accessible, since the boot entry lacks the user bit.
- A region size within 4095 of 2^64 wraps in `PAGE_ALIGN` and gives an empty region, at an address the next region gets
  as well: `RoundsUp`, `AllocRegion`.
- A failed `mm_alloc_region` unmaps its pages but frees no frame (`Rollback`, `FreeNothing`), and `mm_free_region`
  compares the unaligned size (`ReleaseMatches`) and gives no frame back.
- A contended `mutex_lock` by a thread that is not queued drops the ready queue and returns 0 without the mutex:
  `LockReturnsUnowned`, `LockKeepsReady`, `TwoThreadsInside`. A recursive lock overflows at 2^32: `RelockOverflow`.
- `strtol` on `0x` without a hexadecimal digit reads nothing, not even the zero, unlike section 7.22.1.4 of
  ISO/IEC 9899:2011: `BarePrefix`.
- `console_print_int` prints only a sign for INT_MIN: `IntRoundTrip`. In bases other than 10 it would print nothing for
  negative numbers (`OtherBaseRoundTrip`), an input it never gets: both callers pass 10.
- `fs_create` with a path that ends in a slash makes a node that no path leads to: `CreateThenLookup`.
- `dom_node_append_child` makes a cycle when the child is the parent or an ancestor of it: `AppendAcyclic`.
- `memfs_read` and `memfs_write` return 32-bit lengths, so a transfer of 2 GB or more moves the offset wrongly:
  `WriteMoves`, `ReadMoves`. The 1 MB heap of `mm_init` (`kernel/mm.c:430`) holds no such file; the input is real only
  under the assumption below that `kmalloc` succeeds.

## Assumptions

- Table memory from `kmalloc` is fresh, zeroed and 4096-aligned, and enough of it is there: the table pool of
  `Mmu.PageTables`. (`kmalloc` itself only rounds to 8.) Physical addresses are below 2^52 and page-aligned.
- The heap header is 24 bytes: size at 0, used at 8, next at 16, little-endian. The heap starts above address 0, and
  the header that a request writes lies inside the address space. The frame pool does not start at 0 and ends at or below 2^64.
- A blocked thread takes no step until it is unblocked; a context switch is another thread's next step.
- `malloc` and `kmalloc` in the DOM, HTML and file code succeed and return addresses in no other use.
- Paths have at most 510 characters and file names 254: one more, and `strncpy` pads without end
  (`libc/src/string/strlen.c:45-58`).
- `strlen` may read seven bytes past the terminator. Characters above 127 are neither letters, digits nor blanks.

## Model

| member | source | states |
|---|---|---|
| `Frames.MarkedAfterSet` | kernel/mm.c:21-23 | setting one bit of the byte bitmap adds exactly that frame to the set of marked frames |
| `Frames.MarkedAfterClear` | kernel/mm.c:25-27 | clearing one bit takes exactly that frame out |
| `Frames.HeldCount` | kernel/mm.c:33-40 | the number of held frames reaches the total exactly when every frame is held |
| `Frames.FrameAllocator.constructor` | kernel/mm.c:43-65 | after set-up the held frames are those below the end of the kernel heap, counted from frame 0 |
| `Frames.FrameAllocator.ReserveKernel` | kernel/mm.c:57-64 | the reserving loop marks exactly the frames below the kernel end and counts them |
| `Frames.FrameAllocator.FindFree` | kernel/mm.c:33-40 | the lowest free frame, or all ones when every frame is held |
| `Frames.FrameAllocator.Alloc` | kernel/mm.c:67-77 | 0 exactly when all frames are held; otherwise the lowest free frame, not held before and held afterwards, and the count stays the size of the held set |
| `Frames.FrameAllocator.Free` | kernel/mm.c:79-86 | only the address of a held frame changes anything; double, too low (the subtraction wraps) and too high frees change nothing |
| `Frames.FrameAllocator.Available` | kernel/mm.c:439-441 | the bytes of the frames nobody holds |
| `PageEntries.TableEntryDecodes` | kernel/mm.c:192-216 | an entry that links a table is the address plus 7: present, writable, user, not no-execute, and masking it gives the table back |
| `PageEntries.LeafEntryDecodes` | kernel/mm.c:218-224 | for every 32-bit flag word the stored word is writable iff bit 0x2 is set, no-execute iff bit 0x4 is clear, present, user, and masks back to the frame; its value is written out |
| `PageEntries.PathIsPageNumber` | kernel/mm.c:186-189 | the four indices are the digits of address bits 12 to 47 to the base 512, that of the top table first |
| `PageEntries.SamePath` | kernel/mm.c:185-189 | two addresses take the same four indices exactly when they agree in bits 12 to 47 |
| `PageWalk.WalkIs` | kernel/mm.c:184-224 | on the address and the table words themselves: which bits index which table, and which bits of the four words make the translation |
| `PageWalk.WalkPlaces` | kernel/mm.c:191-216 | in a well-formed hierarchy every step of a walk reaches the table that belongs to that part of the path |
| `PageWalk.TranslateIsLeaf` | kernel/mm.c:184-230 | a page shows its leaf word through upper levels that restrict nothing but the missing user bit of kernel slots |
| `PageWalk.MeetOnlyInSharedSlots` | kernel/mm.c:141-154 | two walks meet in one page table only in the same slot of the same space or in a slot shared with the kernel |
| `PageWalk.PutKeepsInv` | kernel/mm.c:224-250 | writing a word of a page table keeps the tables a tree without shared nodes |
| `PageWalk.PutTranslates` | kernel/mm.c:216-224 | the word written is seen through exactly one page of one space, or that page of every space in a shared slot; every other page of every space translates as before |
| `PageWalk.HangKeepsInv` | kernel/mm.c:191-216 | hanging a fresh zeroed table into an absent entry keeps the hierarchy |
| `PageWalk.HangTranslates` | kernel/mm.c:191-216 | a new table changes the translation of no page of any space |
| `PageWalk.NewSpaceKeepsInv` | kernel/mm.c:130-162 | copying 256 top-level entries and clearing 256 gives another root of the same hierarchy |
| `PageWalk.NewSpaceTranslates` | kernel/mm.c:141-154 | creating a space leaves every other space as it was; the new one maps nothing outside the kernel slots |
| `PageWalk.SharedSlotsAgree` | kernel/mm.c:145-148 | all spaces translate every page below a shared top-level slot alike |
| `BootTables.BootIsValid` | kernel/mm.c:89-115 | the tables made at boot form a well-formed hierarchy in which only top-level slot 0 is present |
| `Mmu.HangView` | kernel/mm.c:191-216 | adding a table leaves the map from (space, page) to translation unchanged |
| `Mmu.PutView` | kernel/mm.c:216-224 | storing a leaf word is one update of that map |
| `Mmu.LastOperationDecides` | kernel/mm.c:184-254 | over any run of mapping and unmapping in any spaces, a page translates to what the last operation that concerns it left |
| `Mmu.Separation` | kernel/mm.c:141-156 | below a slot the kernel does not own, a space looks as if all operations on other spaces had not happened |
| `Mmu.Sharing` | kernel/mm.c:145-148 | below a slot the kernel owns, spaces that start alike stay alike through every run |
| `Mmu.HeapsCollide` | kernel/mm.c:156-157 | after a mapping of the first heap page in each of two spaces, the first space shows the frame of the second exactly when slot 0 is shared |
| `Mmu.PageTables.CreateSpace` | kernel/mm.c:130-162 | a new root whose first 256 entries are those of the kernel and whose others are empty; no other table and no other space changes |
| `Mmu.PageTables.FillWalk` | kernel/mm.c:191-216 | the missing tables of one walk are added, nothing translates differently |
| `Mmu.PageTables.MapPage` | kernel/mm.c:184-230 | afterwards the page translates to the frame asked for, writable iff flag bit 0x2 is set and no-execute iff bit 0x4 is clear, and every other page as before |
| `Mmu.PageTables.UnmapPage` | kernel/mm.c:232-254 | afterwards exactly that page is unmapped and every other translates as before, also when it was not mapped |
| `Regions.RoundsUp` | kernel/mm.h:9 | PAGE_ALIGN gives the least multiple of the page size from the size on, and 0 exactly when its addition wraps |
| `Regions.Scan` | kernel/mm.c:259-271 | the restart scan ends, on any list of regions, at the first address that lies in none |
| `Regions.ScanFindsHeapEnd` | kernel/mm.c:259-271 | although only the start address is tested, the scan stops at heap_end, above every region |
| `Regions.ReleaseMatches` | kernel/mm.c:304-310 | a region is found again under the size it was asked for exactly when that size is whole pages |
| `Regions.HeapPages` | kernel/mm.c:156-157 | different heap pages have different walks, and none runs through the directories made at boot |
| `Regions.ShrunkUndoesGrown` | kernel/mm.c:276-283 | unmapping what a partial run mapped restores the start |
| `Regions.MemorySpace.constructor` | kernel/mm.c:155-157 | a fresh space has no regions and satisfies the invariant |
| `Regions.MemorySpace.LiveRegions` | kernel/mm.c:256-328 | in every reachable state live regions are disjoint and end at or below heap_end, and their pages are mapped with their permissions |
| `Regions.MemorySpace.OnlyLivePages` | kernel/mm.c:256-328 | in every reachable state a heap page is mapped exactly when a live region covers it, also when none is left |
| `Regions.MemorySpace.NoSharedFrame` | kernel/mm.c:256-328 | in every reachable state no two mapped heap pages share a frame |
| `Regions.MemorySpace.MapRun` | kernel/mm.c:273-287 | all pages of the run are mapped, or after the rollback none is |
| `Regions.MemorySpace.Rollback` | kernel/mm.c:276-283 | the rollback unmaps the pages but gives no frame back |
| `Regions.MemorySpace.FreeNothing` | kernel/mm.c:279-280 | the call pm_free_page(0) of the rollback frees nothing |
| `Regions.MemorySpace.AllocRegion` | kernel/mm.c:256-302 | succeeds exactly when the size fits the free frames; the region starts at the old heap_end, is at least as large as asked for and by less than a page larger, each byte of it is mapped writable iff flag bit 0x2 and no-execute iff bit 0x4 is clear, and every other byte of the heap window translates as before; a size that wraps in rounding gives an empty region |
| `Regions.MemorySpace.FreeRegion` | kernel/mm.c:304-328 | the first region with exactly these bounds leaves the list, its bytes are unmapped and every other byte of the heap window translates as before; without a match nothing changes |
| `Regions.MemorySpace.ReleaseRegion` | kernel/mm.c:310-323 | one region and its pages go, all other pages keep their frames |
| `HeapModel.MallocIs` | kernel/mm.c:339-383 | case by case when no sum wraps: the first free block that holds the size rounded up to 8, split exactly when larger than that by more than a header; else a new block at the bump pointer; null exactly when that passes the end |
| `HeapModel.FreeIs` | kernel/mm.c:385-396 | when no sum wraps: the block is free, one with the next of the list exactly when that one is free, and no other block changes |
| `HeapModel.TilesApart` | kernel/mm.c:330-337 | in a tiled heap no two blocks overlap and all lie below the bump pointer |
| `HeapModel.MallocTiles` | kernel/mm.c:339-383 | the blocks still tile the heap exactly when the bump addition does not wrap |
| `HeapModel.EmptyHeapWraps` | kernel/mm.c:370-372 | the wrap happens: a request of 2^64 - 24 - start on the heap mm_init sets up passes the end test |
| `HeapModel.MallocGives` | kernel/mm.c:339-383 | a block in use, of bytes no block in use owned, what was in use untouched; it is as large as asked for exactly when size + 7 fits 64 bits, and otherwise no larger than a header |
| `HeapModel.NoBytes` | kernel/mm.c:343-343 | for the seven largest sizes the empty heap hands out a block of no bytes |
| `HeapModel.FreeTiles` | kernel/mm.c:385-396 | freeing keeps the tiling exactly when the merge, if any, joins blocks adjacent in memory, which the code does not test |
| `HeapModel.RunTiles` | kernel/mm.c:339-396 | the tiling survives every run whose merges join neighbours |
| `HeapModel.BrokenRun` | kernel/mm.c:374-395 | two bump blocks freed in order break the tiling, and two later requests get overlapping payloads |
| `Headers.DecodeEncode` | kernel/mm.c:331-335 | a word stored in a header is read back |
| `HeapMemory.OneList` | kernel/mm.c:331-337 | the bytes of memory determine the block list that the next pointers spell out |
| `HeapMemory.MallocFollows` | kernel/mm.c:339-383 | after kmalloc the list in memory is the computed one exactly when the header it wrote meets no header of the list |
| `HeapMemory.FreeFollows` | kernel/mm.c:385-396 | after kfree the list in memory is always the computed one, whatever was merged |
| `HeapOverwrite.OverwriteLoses` | kernel/mm.c:354-360 | when the header written falls on that of a listed block, no list in memory accounts for the bytes given out any more |
| `HeapRuns.StepConserves` | kernel/mm.c:339-396 | after one call the list in memory accounts for every byte given out exactly when the bump did not wrap and the new header met no other |
| `HeapRuns.RunConserves` | kernel/mm.c:339-396 | bytes are accounted for in every state of a run exactly when that holds of each of its requests |
| `HeapRuns.TiledIsClear` | kernel/mm.c:354-380 | in a tiled heap the header that a request writes meets no other |
| `HeapRuns.TiledRunConserves` | kernel/mm.c:339-396 | every run from a tiled heap whose merges join neighbours and whose requests do not wrap keeps all bytes accounted for in memory, and the tiling |
| `HeapRuns.LostBlocks` | kernel/mm.c:354-395 | a run of six calls after which memory lists one of three blocks, marked free although nobody freed it: 32 of 96 bytes |
| `HeapContents.MoveFits` | kernel/mm.c:407-417 | what krealloc copies out of a block larger than a header fits the new block exactly when new_size + 7 fits 64 bits |
| `HeapContents.MallocSpares` | kernel/mm.c:339-383 | in a tiled heap kmalloc changes no byte of a block in use |
| `HeapContents.FreeSpares` | kernel/mm.c:385-396 | in a tiled heap kfree changes no byte of any payload |
| `KernelHeap.Allocator.Kmalloc` | kernel/mm.c:339-383 | the walk along the next pointers and the header stores give the specified address and memory; the list in memory is the computed one exactly when the new header is clear |
| `KernelHeap.Allocator.Kfree` | kernel/mm.c:385-396 | the stores of the release and the merge give the specified memory and list |
| `KernelHeap.ReallocIs` | kernel/mm.c:398-423 | case by case in a tiled heap: null allocates, size 0 releases, a large enough block stays, else the block is released once a new one was found |
| `KernelHeap.Allocator.Krealloc` | kernel/mm.c:398-423 | in a tiled heap the old bytes are found at the new address and no block in use changes |
| `Words.PackedBytes` | libc/src/string/strlen.c:19-26 | each mask of the cascade looks at one byte of memory, lowest address first |
| `Words.HasZeroBits` | libc/src/string/strlen.c:16-17 | the subtract-and-mask test is nonzero exactly when some byte of the word is zero |
| `Words.UnpackRepeat` | libc/src/string/memcpy.c:72-79 | the eight-fold shift makes a word of eight equal bytes |
| `Words.Load` | libc/src/string/strlen.c:14-14 | a word load and what its masks say about the bytes |
| `Words.Strlen` | libc/src/string/strlen.c:4-31 | the least index of a zero byte, for every alignment, given seven readable bytes after one |
| `ByteMemory.Memcpy` | libc/src/string/memcpy.c:4-36 | for every alignment the destination holds the original source bytes and nothing else changes, also when the ranges overlap with the destination below |
| `ByteMemory.Memmove` | libc/src/string/memcpy.c:39-58 | the same for every pair of ranges in one buffer |
| `ByteMemory.Memset` | libc/src/string/memcpy.c:61-93 | every byte of the range is set, no other changes |
| `ByteMemory.Memcmp` | libc/src/string/memcpy.c:96-131 | the difference of the first differing bytes, 0 when there is none |
| `MutexProtocol.LockIs` | kernel/process.c:514-539 | a free mutex is taken with count 1, the owner counts up by one, anyone else is blocked at the head of the wait queue; nothing else of any mutex changes |
| `MutexProtocol.ContendedIs` | kernel/process.c:442-539 | after a contended call the head of the ready queue without the caller runs; with nobody left there the caller goes on |
| `MutexProtocol.TrylockIs` | kernel/process.c:568-578 | a free mutex is taken; a held one is refused, from its owner too, and nothing changes |
| `MutexProtocol.UnlockIs` | kernel/process.c:541-566 | anyone but the owner is refused and nothing changes; the owner succeeds: a count above one goes down, and at one without waiters the mutex is free with count 0 |
| `MutexProtocol.OffQueueIs` | kernel/process.c:442-457 | a queued thread is taken out at its place; for one that is not queued nothing is left of the queue |
| `MutexProtocol.LockKeeps` | kernel/process.c:514-539 | mutex_lock keeps the protocol invariant |
| `MutexProtocol.UnlockKeeps` | kernel/process.c:541-566 | mutex_unlock keeps it |
| `MutexProtocol.TrylockKeeps` | kernel/process.c:568-578 | mutex_trylock keeps it |
| `MutexProtocol.StepKeeps` | kernel/process.c:429-578 | so does every step of any thread |
| `MutexProtocol.RunKeeps` | kernel/process.c:429-578 | so does every run |
| `MutexProtocol.ProtocolHolds` | kernel/process.c:503-578 | in every state of every run: owned iff count positive; a thread past its lock calls owns the mutex and the count is its surplus of calls; so mutual exclusion; waiters are distinct, not the owner, wait for one mutex and are not ready |
| `MutexProtocol.HandOff` | kernel/process.c:548-563 | the last unlock gives the mutex with count 1 to the head waiter, which becomes ready |
| `MutexProtocol.RelockOverflow` | kernel/process.c:524-528 | a recursive lock keeps owner and count consistent exactly while the 32-bit count has room |
| `MutexProtocol.LockReturnsUnowned` | kernel/process.c:530-539 | mutex_lock returns to its caller without the mutex exactly when another thread holds it and no other thread is left to switch to |
| `MutexProtocol.LockKeepsReady` | kernel/process.c:442-457 | a contended lock keeps the other ready threads queued exactly when the caller was queued or nobody was |
| `MutexProtocol.TwoThreadsInside` | kernel/process.c:442-539 | a run of lock, schedule, lock in which a second thread returns from mutex_lock while the first owns the mutex, and a third drops out of the ready queue |
| `Scheduler.LinkedIsCons` | kernel/process.c:429-439 | adding a thread puts it in front of the doubly linked ready queue |
| `Scheduler.UnlinkedIsRemove` | kernel/process.c:442-457 | removing a queued thread takes exactly it out |
| `Scheduler.UnlinkedDropsQueue` | kernel/process.c:447-449 | removing an unqueued thread empties the ready queue |
| `Scheduler.PushQueues` | kernel/process.c:532-533 | an idle thread becomes the head of a wait queue through the same next field, all other queues stay |
| `Scheduler.PopQueues` | kernel/process.c:554-560 | the head of a wait queue leaves it and all other queues stay |
| `Scheduler.Kernel.constructor` | kernel/process.c:412-415 | the initial queues represent the initial protocol state |
| `Scheduler.Kernel.AddThread` | kernel/process.c:429-439 | the thread becomes the head of the ready queue and nothing else changes; nothing for null |
| `Scheduler.Kernel.RemoveThread` | kernel/process.c:442-457 | the ready queue loses the thread at its place, or everything when the thread is not on it; its links are null; nothing for null |
| `Scheduler.Kernel.Reschedule` | kernel/process.c:460-487 | the head of the ready queue leaves it and runs; with an empty queue nothing changes |
| `Scheduler.Kernel.BlockThread` | kernel/process.c:389-394 | blocked and taken off the ready queue in the same way; nothing for null |
| `Scheduler.Kernel.UnblockThread` | kernel/process.c:397-402 | thread_unblock: ready and at the head of the ready queue; nothing for null |
| `Scheduler.Kernel.MutexLock` | kernel/process.c:514-539 | 0 exactly for an initialised mutex; a free one gets the caller as owner with count 1, its own counts up, any other gets the caller at the head of its queue; the pointer code does the protocol step and keeps all queues |
| `Scheduler.Kernel.MutexTrylock` | kernel/process.c:568-578 | 0 exactly for an initialised mutex without owner, which then has the caller as owner with count 1; else nothing changes |
| `Scheduler.Kernel.MutexUnlock` | kernel/process.c:541-566 | 0 exactly for an initialised mutex that the caller owns: its count goes down, and at one it is free or handed to the head waiter; else nothing changes |
| `Dom.OneParent` | html/src/dom/dom.c:144-186 | a node in a child list names that parent and is in no other list |
| `Dom.BypassedIsWithout` | html/src/dom/dom.c:168-180 | the four conditional stores take the child out of its list and out of no other, and keep first, last, prev, next and parent consistent |
| `Dom.RemovedIsWithout` | html/src/dom/dom.c:165-186 | after dom_node_remove_child every list has lost the child and it has no parent or siblings |
| `Dom.LinkedIsAppended` | html/src/dom/dom.c:152-162 | linking a parentless child extends exactly one list at its end |
| `Dom.ListAfter` | html/src/dom/dom.c:144-186 | position by position: removing cuts the child out of the list it is in, appending puts it last in the list of the parent, no other list changes |
| `Dom.AppendAcyclic` | html/src/dom/dom.c:144-163 | the links stay acyclic exactly when the child is not the new parent or an ancestor of it |
| `Dom.RemoveAcyclic` | html/src/dom/dom.c:165-186 | taking a child out makes no cycle |
| `Dom.SetThenGet` | html/src/dom/dom.c:189-220 | setting an attribute changes what is read for its name and no other, and keeps names distinct |
| `Dom.SetAt` | html/src/dom/dom.c:189-208 | the first attribute of the name gets the value in its place; without one it is added at the end |
| `Dom.ValueAt` | html/src/dom/dom.c:210-220 | what is read is the value of the first attribute of the name, nothing without one |
| `Dom.PostIs` | html/src/dom/dom.c:57-67 | the order of release is that of the subtrees one after the other as listed, then the node |
| `Dom.PostHas` | html/src/dom/dom.c:57-67 | it names the nodes of the tree and no other |
| `Dom.AcyclicTree` | html/src/dom/dom.c:57-65 | without cycles the nodes under a node form a finite tree |
| `Dom.Arena.Create` | html/src/dom/dom.c:7-16 | a new node without links |
| `Dom.Arena.RemoveChild` | html/src/dom/dom.c:165-186 | every list loses the child, only its parent changes; nothing happens for null or a child of another node |
| `Dom.Arena.AppendChild` | html/src/dom/dom.c:144-163 | the list of the parent becomes the old list without the child, then the child; every other list only loses the child |
| `Dom.Arena.DestroyTree` | html/src/dom/dom.c:18-68 | the nodes of the subtree are freed in post-order, each once, none is touched after its release, all other nodes and lists stay |
| `Dom.Arena.DestroyChildren` | html/src/dom/dom.c:59-65 | the loop over the children, whose next pointer is read before the child goes |
| `Dom.Arena.Destroy` | html/src/dom/dom.c:18-68 | the same from outside, and nothing for null |
| `Dom.Arena.SetAttribute` | html/src/dom/dom.c:189-208 | the search and the update or growth of the arrays set the attribute |
| `Dom.Arena.GetAttribute` | html/src/dom/dom.c:210-220 | the value of the first attribute of that name |
| `HtmlTree.StepOrder` | html/src/html/html_parser.c:366-458 | one token extends the preorder of the tree by the node it shows |
| `HtmlTree.DocumentOrder` | html/src/html/html_parser.c:317-458 | for every token stream, balanced or not, the preorder of the document is its start tags and texts in input order |
| `HtmlTree.CloseCurrent` | html/src/html/html_parser.c:422-437 | the end tag of the current element makes its parent current |
| `HtmlTree.CloseOuter` | html/src/html/html_parser.c:422-435 | the end tag of any open element finishes it with everything open inside; it becomes the last child of the node around it, which is current again, for the innermost element of that name |
| `HtmlTree.CloseNothing` | html/src/html/html_parser.c:422-435 | without an open element of that name an end tag changes nothing |
| `HtmlTree.OpenTag` | html/src/html/html_parser.c:366-420 | a start tag opens an element with its attributes; a self-closing or void one becomes a leaf |
| `HtmlTree.VoidIs` | html/src/html/html_parser.c:520-536 | the void elements by name |
| `HtmlTree.AddText` | html/src/html/html_parser.c:449-458 | a text that is not empty becomes the last child of the current node |
| `HtmlTree.IgnoreOthers` | html/src/html/html_parser.c:339-346 | comments and DOCTYPE leave the tree and the current node alone |
| `HtmlTree.SameNameIs` | html/src/html/html_parser.c:428-428 | names match letter by letter in either case |
| `HtmlTree.LastValueCounts` | html/src/html/html_parser.c:370-373 | of attributes with one name the last value is kept |
| `HtmlTree.WholeFinished` | html/src/html/html_parser.c:460-480 | the parse is the document with everything still open finished |
| `HtmlTree.SetAllSame` | html/src/html/html_parser.c:370-373 | attributes with distinct names are stored as written |
| `HtmlTree.BuildForest` | html/src/html/html_parser.c:317-458 | the tokens of a forest add exactly that forest to the current node, which stays current |
| `HtmlLexer.ClassesAre` | html/src/html/html_parser.c:36-161 | the characters each scanning loop runs over |
| `HtmlLexer.ReadAttributes` | html/src/html/html_parser.c:112-161 | the attribute loop reads the markup of attributes back |
| `HtmlLexer.ReadStartTag` | html/src/html/html_parser.c:163-210 | a written start tag is read back |
| `HtmlLexer.ReadEndTag` | html/src/html/html_parser.c:163-210 | a written end tag is read back |
| `HtmlLexer.ReadText` | html/src/html/html_parser.c:212-234 | a text is read back up to the next tag |
| `HtmlLexer.ReadBareValue` | html/src/html/html_parser.c:92-109 | an unquoted value ends at a blank, > or / |
| `HtmlLexer.ReadComment` | html/src/html/html_parser.c:236-268 | a comment is read back up to the first end mark |
| `HtmlLexer.ReadDoctype` | html/src/html/html_parser.c:294-308 | a DOCTYPE is one token whose text is skipped |
| `HtmlLexer.SkipDoctypeText` | html/src/html/html_parser.c:294-308 | a DOCTYPE in any case of its letters runs to the first > or to the end of the input |
| `HtmlLexer.SkipBlanks` | html/src/html/html_parser.c:270-276 | blanks before a token do not matter; with nothing but blanks left the input ends |
| `HtmlLexer.OpenComment` | html/src/html/html_parser.c:236-268 | a comment without an end mark ends the input |
| `HtmlLexer.NoName` | html/src/html/html_parser.c:163-210 | a < that no name follows ends the input |
| `HtmlLexer.NoTagEnd` | html/src/html/html_parser.c:163-210 | so does a tag with a / that no > follows |
| `HtmlLexer.ValueAfterBlanks` | html/src/html/html_parser.c:61-70 | blanks before an attribute value do not matter |
| `HtmlLexer.OpenQuote` | html/src/html/html_parser.c:71-91 | a quote that is not closed takes the rest of the input and gives no value |
| `HtmlLexer.ReadMarkup` | html/src/html/html_parser.c:270-314 | the tokenizer reads the markup of any writable token list back |
| `HtmlParser.Tokenizer.Skip` | html/src/html/html_parser.c:41-47 | each scanning loop moves past the longest run of its class |
| `HtmlParser.Tokenizer.ParseTagName` | html/src/html/html_parser.c:36-59 | the name loop meets its specification |
| `HtmlParser.Tokenizer.ParseAttributeValue` | html/src/html/html_parser.c:61-110 | quoted and unquoted values, and the unterminated one |
| `HtmlParser.Tokenizer.ParseAttributes` | html/src/html/html_parser.c:112-161 | the attribute loop meets its specification |
| `HtmlParser.Tokenizer.ParseTag` | html/src/html/html_parser.c:163-210 | tags and malformed tags |
| `HtmlParser.Tokenizer.ParseText` | html/src/html/html_parser.c:212-234 | a text up to the next tag or the end |
| `HtmlParser.Tokenizer.SkipDoctype` | html/src/html/html_parser.c:294-308 | a DOCTYPE is skipped up to its end, whatever it says |
| `HtmlParser.Tokenizer.ParseComment` | html/src/html/html_parser.c:236-268 | comments and unterminated comments |
| `HtmlParser.Tokenizer.Next` | html/src/html/html_parser.c:270-314 | the next token and where it ends, for every input |
| `HtmlRoundTrip.ForestWritable` | html/src/html/html_parser.c:270-314 | the tokens of a forest in normal form can be written |
| `HtmlRoundTrip.RoundTrip` | html/src/html/html_parser.c:460-480 | for every forest in normal form, parsing its markup gives the forest back and ends at the document |
| `HtmlBuilder.StackedFrame` | html/src/html/html_parser.c:366-376 | a node that is not yet appended changes nothing in the tree |
| `HtmlBuilder.HangLeaf` | html/src/html/html_parser.c:395-396 | appending a closed node to the current one adds a leaf |
| `HtmlBuilder.HangOpen` | html/src/html/html_parser.c:416-419 | appending a node that becomes current opens it |
| `HtmlBuilder.FoldToStacked` | html/src/html/html_parser.c:424-437 | moving current_node up closes the nodes below it |
| `HtmlBuilder.WholeStacked` | html/src/html/html_parser.c:317-364 | at any moment the linked nodes spell out the specified tree |
| `HtmlBuilder.LastChildSpine` | html/src/html/html_parser.c:317-458 | current_node is reached from the document by last_child alone |
| `HtmlBuilder.RepresentedIsTree` | html/src/dom/dom.c:57-65 | what the parser has built is a finite tree of nodes, so dom_node_destroy frees each once |
| `HtmlBuilder.Builder.CreateElement` | html/src/html/html_parser.c:366-373 | a new element outside the tree with each attribute set in turn |
| `HtmlBuilder.Builder.HandleStartTag` | html/src/html/html_parser.c:366-420 | a start tag does the specified step on the linked nodes |
| `HtmlBuilder.Builder.HandleEndTag` | html/src/html/html_parser.c:422-447 | an end tag does the specified step on the linked nodes, for any open element and for none |
| `HtmlBuilder.Builder.HandleText` | html/src/html/html_parser.c:449-458 | a text does the specified step on the linked nodes |
| `HtmlBuilder.Builder.HandleToken` | html/src/html/html_parser.c:325-346 | each kind of token does its step; comments and DOCTYPE do nothing |
| `HtmlBuilder.Builder.BuildTree` | html/src/html/html_parser.c:317-364 | the loop builds the tree of all tokens of the rest of the input |
| `HtmlBuilder.ParseHtml` | html/src/html/html_parser.c:460-480 | for every input the linked nodes below the returned document are the specified parse of it |
| `Strtol.Cutoff` | libc/src/stdlib/atoi.c:59-82 | the cutoff test fires exactly when one more digit would pass the limit |
| `Strtol.DigitsAre` | libc/src/stdlib/atoi.c:63-73 | the digits of the bases up to 36: 0 to 9, then the letters in either case |
| `Strtol.ReadIs` | libc/src/stdlib/atoi.c:25-100 | for every text split into blanks, a sign or none, the prefix its base allows, digits of the base and a rest: the number the digits spell, negative exactly with a minus sign, read up to the rest; nothing without a digit |
| `Strtol.Prefix` | libc/src/stdlib/atoi.c:32-51 | blanks, sign and base prefix, without reading past the terminator |
| `Strtol.DigitLoop` | libc/src/stdlib/atoi.c:63-83 | the digit loop ends after the longest digit run; it flags overflow exactly when the value passes the limit and otherwise computes it |
| `Strtol.Signed` | libc/src/stdlib/atoi.c:25-172 | strtol and strtoll: the number read when it fits the type, else the largest or least value of the type, and its end even after clamping |
| `Strtol.Unsigned` | libc/src/stdlib/atoi.c:175-314 | strtoul and strtoull: the magnitude when it fits the type, else its largest value; the sign is dropped |
| `Strtol.BarePrefix` | libc/src/stdlib/atoi.c:46-50 | after 0x something is read exactly when a hexadecimal digit follows |
| `Numerals.TextIs` | kernel/console.c:113-161 | what is printed: only digits of the base, lower case for unsigned and upper case for signed numbers, the first one zero for 0 alone |
| `Numerals.DigitCount` | kernel/console.c:149-156 | a number below 2^k has at most k digits in any base |
| `Numerals.UintRoundTrip` | libc/src/stdlib/atoi.c:175-243 | strtoul reads back what console_print_uint prints |
| `Numerals.IntRoundTrip` | kernel/console.c:113-141 | strtol reads back what console_print_int prints in base 10 exactly when it is not INT_MIN |
| `Console.EntryIs` | kernel/console.c:19-21 | a cell holds the character in its low byte and the colour in its high byte |
| `Console.PutGood` | kernel/console.c:43-66 | no character moves the cursor off the screen |
| `Console.TextInOrder` | kernel/console.c:43-73 | printable text lies in reading order with its colour whatever wraps or scrolls, and nothing before the cursor changes |
| `Console.HistoryStays` | kernel/console.c:30-110 | no run of operations changes or loses a row above the screen it started from |
| `Console.MovedPlace` | kernel/console.c:44-50 | newline, return and tab are the same moves on rows and columns as on the unbounded page |
| `Console.Terminal.constructor` | kernel/console.c:24-27 | after initialisation the 2000 cells are blank in light grey, with the cursor at the top left |
| `Console.Terminal.Clear` | kernel/console.c:30-40 | the 2000 cells are blank in the current colour, cursor at the top left |
| `Console.Terminal.PutChar` | kernel/console.c:43-66 | by character class on the cells, row and column themselves: newline, return, the next multiple of 8, one cell written and one column on, or nothing, then the wrap and the scroll; and the screen stays the last 25 rows of the page |
| `Console.Terminal.PutString` | kernel/console.c:69-73 | the same for a string |
| `Console.PutAllIs` | kernel/console.c:69-73 | a text is put character by character, first to last, control characters included |
| `Console.Terminal.SetColor` | kernel/console.c:14-16 | for colours below 16 the foreground is the low and the background the high half of the colour; cells already written keep theirs |
| `Console.Terminal.SetCursor` | kernel/console.c:81-86 | column below 80 and row below 25 are taken, any other position is ignored |
| `Console.Terminal.MoveRows` | kernel/console.c:95-110 | rows move up by one and the last becomes blank |
| `Console.Terminal.ScrollUp` | kernel/console.c:95-110 | every row moves up by one, the last becomes blank, the cursor stays: one more row of page |
| `Console.Terminal.FillDigits` | kernel/console.c:149-156 | the 32-byte buffer holds the digits in reverse and is never exceeded |
| `Console.Terminal.PrintUint` | kernel/console.c:143-161 | prints the digits of the number |
| `Console.Terminal.PrintInt` | kernel/console.c:113-141 | prints sign and digits, with the 32-bit negation |
| `Numerals.OtherBaseRoundTrip` | kernel/console.c:113-141 | in any other base exactly the numbers that are not negative are read back |
| `Strtok.PiecesConcat` | libc/src/string/strlen.c:234-266 | one delimiter splits a string into the pieces of both sides |
| `Strtok.PieceAlone` | libc/src/string/strlen.c:234-266 | a delimiter-free string is its own only piece |
| `Strtok.PiecesAreClean` | libc/src/string/strlen.c:234-266 | no piece is empty or contains a delimiter |
| `Strtok.Strcspn` | libc/src/string/strlen.c:184-200 | the length of the longest prefix without delimiters |
| `Strtok.Cutter.Next` | libc/src/string/strlen.c:234-266 | cuts the next maximal piece in place and keeps the rest |
| `Vfs.SlashesDoNotMatter` | kernel/fs.c:137-159 | repeated and trailing slashes do not change what a path leads to |
| `Vfs.LookupIs` | kernel/fs.c:137-159 | a relative path leads nowhere, / to the root, and one more component to the first child of that name |
| `Vfs.FindFirst` | kernel/fs.c:341-353 | the child found is the first of that name, none exactly when there is none |
| `Vfs.CreateInIs` | kernel/fs.c:162-185 | the last slash splits off the name; what stands before it must be absolute and lead to a node with the directory bit 0x4000 |
| `Vfs.AddedFind` | kernel/fs.c:330-353 | after adding a child a search under its name finds it, every other search finds what it found |
| `Vfs.AddedWalk` | kernel/fs.c:162-200 | after a creation a path leads where it led unless it steps from that parent to that name |
| `Vfs.CreateThenLookup` | kernel/fs.c:137-200 | the path just created leads to the new node exactly when it does not end in a slash; every other path keeps its meaning unless it goes through that parent and name |
| `Vfs.Strncpy` | libc/src/string/strlen.c:45-58 | copies and pads for a source shorter than the space |
| `Vfs.Strrchr` | libc/src/string/strlen.c:135-147 | the last index of a character |
| `Vfs.NodeTree.FindChild` | kernel/fs.c:341-353 | the first child of that name |
| `Vfs.NodeTree.FsLookup` | kernel/fs.c:137-159 | the strtok loop is the component walk |
| `Vfs.NodeTree.AddChild` | kernel/fs.c:330-338 | the new node has the name, the mode, no data, the parent, and is first in its list; no other node changes but the parent, by its first child |
| `Vfs.NodeTree.FsCreate` | kernel/fs.c:162-200 | fails exactly when the path is relative, has no second slash or names no directory before its last one; otherwise adds one such node under the last component |
| `Files.OpenIs` | kernel/fs.c:438-492 | opening gives the lowest free descriptor offset 0 of that file with the flags and mode; O_TRUNC (0x200) empties the file; nothing else changes |
| `Files.FirstRead` | kernel/fs.c:438-525 | the first read after opening without O_TRUNC delivers the first min(count, size) bytes of the file |
| `Files.CloseIs` | kernel/fs.c:494-509 | exactly that descriptor is closed; a descriptor that is not open changes nothing |
| `Files.ReadIs` | kernel/fs.c:382-400 | the bytes from the offset on, at most count and none past the end; below 2 GB as many are reported and the offset moves by as many; -1 without a descriptor or data |
| `Files.SpliceIs` | kernel/fs.c:402-426 | byte by byte: the bytes from the offset on are replaced, the rest stays, the file grows as far as needed |
| `Files.WriteIs` | kernel/fs.c:402-426 | a write replaces those bytes of that file and moves that offset, and no other |
| `Files.WriteMoves` | kernel/fs.c:527-542 | after a write the offset has moved by its length exactly when that is below 2^31 |
| `Files.ReadMoves` | kernel/fs.c:511-525 | after a read the offset has moved by what was delivered exactly when that is below 2^31 |
| `Files.StepGood` | kernel/fs.c:438-542 | no open, close, read or write leaves an offset past the end of its file |
| `Files.FileIsReplay` | kernel/fs.c:402-492 | over any interleaving of descriptors, with files created and truncated on the way, a file is the replay of the writes and truncations made to it |
| `Files.ReadsAreConsecutive` | kernel/fs.c:511-525 | reads in a row deliver the file without gap or overlap |
| `Files.WritesAreConsecutive` | kernel/fs.c:527-542 | writes in a row leave what one write of them all would |
| `Files.WritesToNew` | kernel/fs.c:527-542 | written to a new file they leave exactly those bytes |
| `Files.FileTable.FdAlloc` | kernel/fs.c:238-257 | the lowest free descriptor |
| `Files.FileTable.Close` | kernel/fs.c:494-509 | frees that descriptor and disturbs no other |
| `Files.FileTable.MemRead` | kernel/fs.c:382-400 | the slice at the offset, cut at the end; -1 without data |
| `Files.FileTable.MemWrite` | kernel/fs.c:402-426 | a splice, with no byte of the new memory left uninitialised |
| `Files.FileTable.Read` | kernel/fs.c:511-525 | the slice at the offset of the descriptor, which advances |
| `Files.FileTable.Write` | kernel/fs.c:527-542 | the splice at the offset of the descriptor, which advances |
| `Files.FileTable.OpenNode` | kernel/fs.c:441-451 | the node the path leads to; if none and O_CREAT is given, a new regular file (mode 0x8000 plus the low nine bits) under the last component, in the directory before it |
| `Files.FileTable.SyscallOpen` | kernel/fs.c:438-492 | the node the path leads to or, with O_CREAT (0x40), a new one gets the lowest free descriptor, at offset 0 with the flags and mode; every other descriptor stays; O_TRUNC (0x200) empties that file and every other file stays; it fails exactly for no file, a directory or a full table |

## Left out

- Hardware and assembly: paging control, `invlpg` and the TLB, `context_switch`, interrupts, port output, boot code.
- The identity map of `init_page_tables`: its directory entries step by 4 KB (`kernel/mm.c:107-110`), so it is none;
  pages that run through those four directories are outside the model.
- `mm_destroy_space`, stack fields, region names.
- Threads, mutexes, nodes and page tables as separately allocated objects: they are records in a map from address to
  fields, a pointer is a key of that map, and a store updates the map. Two equal pointers do alias; an access to freed
  or unallocated memory is a missing key, which is proved not to happen.
- The `next` pointers of memory regions: that list is a sequence in list order.
- What the heap does after a header was overwritten: the list is then whatever the bytes say.
- Processes, threads beyond run state and links, time slices, sleeping, `thread_yield`, `mutex_destroy`.
- The document fields `html_element`, `head_element`, `body_element`, the parser flags, and the `id` and class lists
  that `html_handle_start_tag` copies from attributes; class names, text setters, events and reference counts of nodes.
- `html_document_create` is declared but not defined in the repository; a fresh document node stands for it.
- Strings in nodes are values: that `strdup` and `free` on them match is not modelled, nor is `strcmp` byte by byte.
- `console_printf` and `printk`, which only dispatch on the format.
- `fs_mount`, `fs_unlink`, `fs_rmdir` (which remove nothing), the sample files of `fs_init`, `vfs_remove_child`,
  `syscall_lseek`, writes past the end of a file, and truncation of a file that is open elsewhere past its start.
- `strtod`, `malloc.c`, `printf.c`, CSS, layout, rendering, graphics, and the stub versions of the kernel files.
- Files.FileTable.SyscallOpen: asks that a truncated file is not open elsewhere past its start, because a later write
  through that descriptor would leave bytes of uninitialised memory in the file; and for short paths, as below.
- Files.FileTable.Read: asks that offset plus count fit 64 bits, because the code adds them before it compares.
- Files.FileTable.MemRead: asks the same; past it the code copies beyond the end of the data.
- Files.FileTable.Write: asks that offset plus length fit 64 bits, which the code adds as well.
- Files.FileTable.MemWrite: asks for an offset inside the file, which every run of these calls keeps (`Files.StepGood`);
  past the end the code would leave uninitialised memory in the file.
- Files.FileTable.OpenNode: asks for a path of at most 510 characters and a last component of at most 254, for `strncpy`.
- Vfs.Strncpy: asks for a source shorter than the space; at one that fills it the padding loop never ends.
- Vfs.NodeTree.FsLookup: asks for a path of at most 510 characters, for the same reason.
- Vfs.NodeTree.FsCreate: asks for a path of at most 510 characters, for the same reason.
- Vfs.NodeTree.AddChild: asks for a name of at most 254 characters, for the same reason.
- Mmu.PageTables.MapPage: asks for a page-aligned physical address, since the code stores it next to the flag bits, and
  for a page outside the four directories made at boot.
- Mmu.PageTables.UnmapPage: asks for a page outside those directories.
- Regions.MemorySpace.constructor: asks that no heap page is mapped yet; a space made after another one has mapped pages
  in shared slot 0 starts with those (`Mmu.HeapsCollide`).
- Regions.MemorySpace.AllocRegion: asks for enough table memory, because the code does not check `kmalloc` there.
- KernelHeap.Allocator.Kmalloc: asks that the new header lies in the address space; past it the pointer arithmetic of
  the code is undefined. In a tiled heap it always does (`HeapRuns.TiledIsClear`).
- KernelHeap.Allocator.Krealloc: asks for a tiled heap, a request that does not wrap, and a copy that fits the new block;
  `HeapContents.MoveFits` says when it does.
- Dom.Arena.DestroyTree: asks for a finite tree under the node; `AcyclicTree` gives one when there is no cycle.
- Dom.Arena.SetAttribute: on elements only, the one kind of node whose attributes the parser sets.
- Dom.Arena.GetAttribute: on elements only, likewise.
- Scheduler.Kernel.MutexLock: a contended call is followed up to the point where another thread runs, not across the
  context switch.
