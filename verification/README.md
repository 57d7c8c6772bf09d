# A verified model of HelinKern's core

This Dafny project models the parts of the HelinKern kernel whose correctness is hardest to see
from the code, and proves what they promise.  `dafny verify dfyconfig.toml` checks all of it.

| part | files | modules |
|---|---|---|
| copy-on-write address spaces on 32-bit page tables | `src/arch/x86/mmu.c`, `src/arch/x86/gdt.c` | `CowMachine`, `CowSafety`, `CowRefinement`, `CowEffects`, `PageTables`, `AddressSpaces` |
| page frames and their handoff at boot | `src/mm/alloc.c` | `FrameAllocator`, `FrameMarks` |
| the first-fit kernel heap with in-band headers | `src/mm/alloc.c` | `HeapChunks`, `KernelHeap` |
| the user break and loading executables into it | `src/mm/alloc.c`, `src/elf.c` | `UserBreak`, `ElfLoader` |
| run queue and scheduler | `src/thread.c` | `Ring`, `RunQueue`, `SchedulerMachine`, `SchedulerProofs`, `SchedulerUnique`, `SchedulerEffects`, `Scheduler` |
| file contents in tmpfs | `src/fs/tmpfs.c` | `Tmpfs` |
| byte queue and UNIX-socket streams | `src/lib/fifosize.c`, `src/socket/unix.c` | `ByteFifo`, `SocketMachine`, `SocketEffects`, `UnixSocket` |
| reading ext2 files | `module/ext2/main.c` | `Ext2`, `Ext2Layout`, `Ext2Device` |
| linked lists | `src/lib/clist.c`, `include/lib/queue.h` | `CyclicList`, `LinkedQueue` |
| numbers as text | `src/lib/string.c` | `Strings` |
| facts about sequences and sets used by several parts | | `Facts` |

Code that changes things step by step is modelled by classes and loops over arrays, maps and
linked nodes.  Where the promise is about whole runs - address spaces, the heap, the scheduler,
sockets - there is a state machine beside the class: the class's methods are proved to perform
exactly the machine's steps, and the safety, refinement and liveness results are proved about
every run of the machine.  What a step does is stated once more beside the machine, entry by entry
and with the numbers of the source (the modules ending in `Effects`).

Main results, each for all inputs, states or runs:

* As far as user-mode loads and accepted user-mode stores go, fork with shared read-only pages cannot be told from a
  fork that copies every page at once (`CowRefinement.RunRefinesEagerCopy`, `ForkIsSnapshot`).  A
  store can be refused where the eager machine would accept it: a process without a parent has
  lost write access to its pages once it has forked (`AddressSpaces.Mmu.UserStore` has the exact
  condition).  Frames are never freed twice or while mapped (`CowSafety.FreedHaveNoMapping`), and
  the nested loops over real page tables and the allocator's bitmap perform exactly these steps
  (`AddressSpaces.Mmu.Duplicate`, `DestroyAspace`, `UserStore`).
* After any sequence of kmalloc and kfree the chunks tile the heap and live blocks are disjoint
  (`HeapChunks.LiveBlocksDisjoint`), down to the bytes of the headers (`KernelHeap`).
* Scheduling does not overtake and the dead stay dead (`SchedulerProofs.NoOvertaking`,
  `DispatchedWithinQuota`, `DeadStaysDead`), and nobody is queued twice
  (`SchedulerUnique.NoDuplicates`), on a ring that removes across its wrap.
* A connected socket pair carries two reliable byte streams under every interleaving
  (`SocketMachine.StreamsReliable`): what arrives is what the callers of send handed over, in that
  order (`SocketEffects.DeliveredInOrder`).
* Teardown gives back all it should and nothing else (`CowEffects.DestroyReleasesExactly`).
* No instance of a signal is lost while its handler runs (`SchedulerEffects.BlockedStaysPending`).
* tmpfs is a flat file; ext2's indirect walk delivers the file's own bytes in logical order; a
  loaded image holds file bytes then zeros in distinct frames.

Where the code does not meet a natural promise for all inputs, the exact condition is proved:

* A kernel-mode store does not heed write protection, because CR0.WP is never set
  (`src/arch/x86/mmu.c:126-134`).  It is the eager machine's store if and only if no other space
  owns the frame or the byte was there already (`CowRefinement.KernelStoreRefinesIff`), so not
  right after a fork (`KernelStoreAfterFork`).
* Full teardown (`all = true`) frees read-only frames too; it is safe if and only if no
  surviving mapping shares one (`CowSafety.FullTeardownSafeIff`); it is not while a forked
  child shares a page of an exec'd process that exits (`ForkedParentTeardownBreaks`).
* `arch_mmu_getPhysical` answers an absent page of a present table with the bare offset, not
  with NULL (`AddressSpaces.Mmu.GetPhysical`).
* The scheduler's search loop never ends exactly when nothing queued can run and something
  queued is alive (`SchedulerMachine.SpinsForever`; it ends otherwise, `Scheduler.Threads.SelectTask`),
  as after boot with one process being created (`SchedulerUnique.CreatingHangs`).
* Idle is queued a second time exactly when a waiting task is popped while idle is queued
  (`SchedulerUnique.TickUniqueIff`, `UniqueThroughoutIff`), as in a run from boot in which two
  processes start to wait (`TwoWaitQueueIdleTwice`).
* `tmpfs_read` returns a right count if and only if the read does not start past the end
  (`Tmpfs.File.ReadRange`).
* A non-blocking socket that connects twice is paired twice; sockets stay paired if and only if
  no accept takes a socket connected meanwhile (`SocketMachine.PairedThroughoutIff`,
  `DoubleConnectBreaks`).
* An image that ends 2 GB or more above USER_OFFSET is given no memory at all, because the size
  turns negative as an int (`ElfLoader.Loader.LoadFile`, `HighImageGetsNothing`).
* `atoi(itoa(v))` is `v` if and only if `v` is below 2^31 (`Strings.ReadUndoesText`).
* An ext2 file is read as it is if and only if every block and table on the way to its data lies
  below 2 GB (`Ext2Device.AlwaysRightIff`).
* The walk over an ext2 file meets its first n blocks as they are if and only if none of them is a
  hole (`Ext2Layout.WalkRightIff`); behind a hole among the first 12 it delivers what it finds
  through the tables (`HoleShifts`).
* sbrk fails if and only if the state before the call lacks pages, room or frames; when a page
  takes the last frame and still needs a page table, the failure goes unnoticed
  (`UserBreak.Process.Sbrk`, `LastFrameGoesWild`).
* kmalloc does not notice that growing the heap failed at the address limit and reads a header
  behind the heap.  That page is not mapped while the heap ends below the limit (`Fault`); it is
  user memory once the heap has reached it (`Stray`).  With no frame left it panics (`Panic`).
  `KernelHeap.Heap.Kmalloc` has the exact condition of each.

Assumptions about what lies outside the modelled code:

* The assembly context switch makes the chosen task the running one.
* `copy_page_physical` copies one frame; a user store to a present read-only page faults and is
  repeated after the handler returns.
* Memory lies below 4 GB and starts at a page boundary.
* A call into the scheduler or into a socket operation is one atomic step; a polling loop is a
  step that is not enabled yet, answered by `Wait`.
* Directory slots 960 to 1022 hold the kernel's tables, the same and not owned in every space.

## Model

| member | source | states |
|---|---|---|
| `CowSafety.ForkEntries` | src/arch/x86/mmu.c:728-776 | entry by entry, fork leaves parent and child with the same owned frames, both without write permission, foreign entries as they were, and every other space untouched |
| `CowSafety.ForkKeepsInv` | src/arch/x86/mmu.c:728-776 | fork keeps the ownership invariant: a writable owned frame has one mapping in the machine, owned frames are allocated, no frame is owned here and foreign there, page tables are private |
| `CowSafety.WriteKeepsInv` | src/arch/x86/gdt.c:253-323 | a user store, with its fault and private copy when the page is read-only, keeps the invariant |
| `CowSafety.GrowKeepsInv` | src/mm/alloc.c:201-220 | adding a fresh page to a space keeps the invariant |
| `CowSafety.MapForeignKeepsInv` | src/arch/x86/mmu.c:137-174 | mapping a page that is not owned (a frame outside the allocator) keeps the invariant |
| `CowSafety.FreedHaveNoMapping` | src/arch/x86/mmu.c:515-558 | teardown gives back only frames that are allocated at that moment, and after it no mapping and no directory of any space names a freed frame: no double free, no dangling mapping |
| `CowSafety.DestroyKeepsInv` | src/arch/x86/mmu.c:515-558 | teardown of a space (owned writable frames only, or everything when nothing is shared) keeps the invariant |
| `CowSafety.FullTeardownSafeIff` | src/arch/x86/mmu.c:515-558 | with all = true the invariant survives if and only if no frame freed is still mapped by an entry that survives |
| `CowSafety.ForkedParentTeardownBreaks` | src/thread.c:409-414 | an input on which it fails: after a fork, tearing the parent down with all = true (as a process loaded by exec is) frees a frame the child still maps |
| `CowSafety.StepKeepsInv` | src/arch/x86/mmu.c:137-776 | every step of the machine keeps the invariant |
| `CowRefinement.ForkRefines` | src/arch/x86/mmu.c:728-776 | fork is, to a reader, the eager copy of all private pages |
| `CowRefinement.WriteRefines` | src/arch/x86/gdt.c:253-323 | a store changes one byte of one page of one space in the eager machine, shared frame or not |
| `CowRefinement.GrowRefines` | src/mm/alloc.c:201-220 | growing adds one page to one space in the eager machine |
| `CowRefinement.DestroyRefines` | src/arch/x86/mmu.c:515-558 | teardown changes what the other spaces read in nothing |
| `CowRefinement.StepRefines` | src/arch/x86/mmu.c:137-776 | each kernel step is one step of the eager-copy machine |
| `CowRefinement.RunRefinesEagerCopy` | src/arch/x86/mmu.c:728-776 | along every run of new space, fork, load, store, growth, unmap and teardown the private pages of all spaces are those of the eager-copy machine |
| `CowRefinement.ReadSeesEagerByte` | src/arch/x86/mmu.c:728-776 | after any run, a load from an owned page returns the byte the eager machine holds there |
| `CowRefinement.StepLeavesContents` | src/arch/x86/mmu.c:728-776 | a step that does not name a space changes nothing that space reads |
| `CowRefinement.OthersLeaveContents` | src/arch/x86/mmu.c:728-776 | a run none of whose steps names a space leaves everything that space reads unchanged |
| `CowRefinement.KernelStoreRefinesIff` | src/arch/x86/mmu.c:126-134 | a kernel-mode store ignores write protection: it is the eager machine's store if and only if no other space owns the frame or the byte was there already |
| `CowRefinement.KernelStoreAfterFork` | src/arch/x86/mmu.c:126-134 | an input on which it is not: right after a fork, a new byte stored by the kernel into a page the child shares |
| `CowRefinement.ForkIsSnapshot` | src/arch/x86/mmu.c:728-776 | whatever parent and others do after a fork, the child keeps reading the parent's pages of the moment of the fork |
| `CowEffects.ForkShares` | src/arch/x86/mmu.c:741-771 | after fork parent and child map exactly the parent's pages with equal entries: an owned page read-only, owned and still accessible to user mode, any other entry as it was |
| `CowEffects.ForkTakes` | src/arch/x86/mmu.c:728-776 | the child has a table for exactly the slots its pages lie under, the frames of these are all that is taken, other spaces and all memory stay |
| `CowEffects.StoreInPlace` | src/arch/x86/gdt.c:297-323 | a store through a writable entry changes one byte of one frame and nothing else |
| `CowEffects.StoreCopies` | src/arch/x86/gdt.c:253-290 | a store through a read-only entry moves that page, writable, owned and user, to one new frame with the byte stored; every other entry and frame stays |
| `CowEffects.GrowEnabledExactly` | src/mm/alloc.c:201-220 | a page can be added exactly between 0x40000000 and 0xF0000000 with a free frame, and a second one if its slot has no table |
| `CowEffects.GrowEnters` | src/mm/alloc.c:201-220 | growing enters a writable, owned, user page; a new table takes over the entry's ownership bit; exactly these frames are taken |
| `CowEffects.MapForeignEnters` | src/arch/x86/mmu.c:137-174 | mapping enters exactly the entry asked for and takes no frame but a table's |
| `CowEffects.UnmapTakes` | src/arch/x86/mmu.c:263-313 | unmapping takes one entry away; tables and frames stay |
| `CowEffects.DestroyReleasesExactly` | src/arch/x86/mmu.c:515-558 | what must be given back is: after teardown the owned tables of slots 256 to 575 and the owned pages there that are writable or torn down with all = true are gone with their frames, pages under those tables are gone, and everything else is as before |
| `CowEffects.NothingLeftBehind` | src/arch/x86/mmu.c:515-558 | hence nothing is left mapped between 0x40000000 and 0x90000000 when its tables were owned |
| `CowEffects.NewAndReadEffects` | src/arch/x86/mmu.c:447-503 | a new space is empty, a load changes nothing |
| `PageTables.WordRoundTrip` | include/arch/x86/mmu.h:19-23 | an entry built as address|flags reads back as the frame and flags stored; only the absent entry is the word 0 |
| `PageTables.TableAsWords` | include/arch/x86/mmu.h:19-23 | tables of entries stand for tables of 32-bit words: storing a word is storing its entry, taking stored words apart yields the entries |
| `PageTables.StoreEntryLookup` | src/arch/x86/mmu.c:137-174 | storing an entry changes the two-level walk for that page of that space and for no other page of any space |
| `PageTables.AddTableLookup` | src/arch/x86/mmu.c:152-161 | putting a zeroed table behind an empty slot changes no walk at all |
| `PageTables.StoreEntrySpaces` | src/arch/x86/mmu.c:137-174 | seen as maps, a store is a one-entry update of one space |
| `PageTables.AddTableSpaces` | src/arch/x86/mmu.c:152-161 | seen as maps, a new table only records the table |
| `PageTables.DropTableSpaces` | src/arch/x86/mmu.c:549-554 | clearing a directory entry drops its table and exactly the pages under it |
| `PageTables.WalkByAddress` | src/arch/x86/mmu.c:683-717 | the walk for an address takes directory entry a / 4 MB and table entry a / 4 KB modulo 1024 |
| `AddressSpaces.ViewIsWalk` | src/arch/x86/mmu.c:137-174 | the machine's mappings and tables are what the processor finds: same pages, frame, write, user and ownership bits, between 0x40000000 and 0xF0000000 |
| `AddressSpaces.MapTablesView` | src/arch/x86/mmu.c:137-174 | two-level tables refine a map: with or without a new table, mapping a page is one map update and keeps the layout well formed |
| `AddressSpaces.StoreIsStep` | src/arch/x86/gdt.c:253-290 | copying the page, mapping the copy and redoing the store is exactly the machine's faulting store |
| `AddressSpaces.GrowView` | src/mm/alloc.c:201-220 | taking the page frame first and the table frame second is the machine's growth step |
| `AddressSpaces.ForkAdvances` | src/arch/x86/mmu.c:741-771 | one turn of the fork loop (child first, then write permission taken from the parent) advances the partial fork by exactly that page |
| `AddressSpaces.ForkEnds` | src/arch/x86/mmu.c:728-776 | when the loops are through, the partial fork is the machine's fork |
| `AddressSpaces.DestroyFreesPage` | src/arch/x86/mmu.c:535-548 | the page the teardown loop frees is still allocated then, and freeing it advances the partial teardown by that page |
| `AddressSpaces.DestroyEnds` | src/arch/x86/mmu.c:515-558 | when the loops are through, the partial teardown is the machine's teardown |
| `AddressSpaces.StepKeepsApart` | src/arch/x86/mmu.c:137-776 | no step maps a frame that was in use for something else, such as the kernel's own tables |
| `AddressSpaces.BuildDirectory` | src/arch/x86/mmu.c:447-503 | a new directory has the kernel's entries without the ownership bit, zero user entries and itself, present and writable, in slot 1023 |
| `AddressSpaces.Mmu.constructor` | src/arch/x86/mmu.c:67-136 | the machine after boot: one space with empty user slots |
| `AddressSpaces.Mmu.GetPage` | src/mm/alloc.c:52-77 | one frame that was not in use is, and the bitmap still marks exactly the frames in use, as after every operation of this class |
| `AddressSpaces.Mmu.FreePage` | src/mm/alloc.c:273-277 | a frame in use no longer is, in the set and in the bitmap |
| `AddressSpaces.Mmu.AddPageToPd` | src/arch/x86/mmu.c:137-174 | the view changes by one mapping, a table frame is taken exactly when the slot had none and its directory entry is then present, writable and has the page's user and ownership bits; other directory entries are untouched |
| `AddressSpaces.Mmu.NewAspace` | src/arch/x86/mmu.c:447-503 | the machine's New step while the directory area lasts, otherwise failure and no change |
| `AddressSpaces.Mmu.RemovePage` | src/arch/x86/mmu.c:263-313 | the machine's Unmap step, also for a page without a table |
| `AddressSpaces.Mmu.GetPhysical` | src/arch/x86/mmu.c:683-717 | frame plus offset for a mapped page; for an absent one the answers the code gives |
| `AddressSpaces.Mmu.GrowPage` | src/mm/alloc.c:201-220 | the machine's Grow step with a fresh frame |
| `AddressSpaces.Mmu.HandleCow` | src/arch/x86/gdt.c:253-290 | on a write fault in a forked process the page becomes a private writable copy with the same bytes; in the other cases nothing changes |
| `AddressSpaces.Mmu.CopyPage` | src/arch/x86/gdt.c:284-287 | a frame not in use before holds the bytes and replaces the old one in this space only |
| `AddressSpaces.Mmu.UserStore` | src/arch/x86/gdt.c:297-323 | a store succeeds if and only if the page is writable or can be privatised, and then is the machine's Write step |
| `AddressSpaces.Mmu.UserLoad` | src/arch/x86/mmu.c:683-717 | a load returns the byte of the frame the tables name |
| `AddressSpaces.Mmu.ShareOwned` | src/arch/x86/mmu.c:745-760 | the owned arm of the fork loop: both spaces read-only on the same frame, progress by one page |
| `AddressSpaces.Mmu.ShareForeign` | src/arch/x86/mmu.c:761-769 | the other arm: the child gets the entry as it is |
| `AddressSpaces.Mmu.CopyTable` | src/arch/x86/mmu.c:741-771 | the inner loop of fork treats all 1024 entries of a table |
| `AddressSpaces.Mmu.CopyTables` | src/arch/x86/mmu.c:735-773 | the outer loop of fork treats the whole directory |
| `AddressSpaces.Mmu.Duplicate` | src/arch/x86/mmu.c:728-776 | the nested loops over real tables perform exactly the machine's Fork step |
| `AddressSpaces.Mmu.ReleaseEntries` | src/arch/x86/mmu.c:535-548 | the inner loop of teardown treats all entries of a table |
| `AddressSpaces.Mmu.ReleaseTable` | src/arch/x86/mmu.c:549-554 | an owned page table goes back after its entries |
| `AddressSpaces.Mmu.DestroyAspace` | src/arch/x86/mmu.c:515-558 | the nested loops perform exactly the machine's teardown, and the layout stays valid unless all = true frees a shared frame |
| `FrameAllocator.SetBit` | include/mm/alloc.h:7-9 | setting or clearing a page's bit changes the mark of that page and of no other |
| `FrameAllocator.Managed` | src/mm/alloc.c:58-60 | the scan covers the pages up to the last multiple of 8, at most 7 less than there are |
| `FrameAllocator.Reserved` | src/mm/alloc.c:297-300 | 10 pages more than twice the page count fills |
| `FrameAllocator.EarlyBase` | src/mm/alloc.c:48-49 | 10 pages more than eight times the page count fills |
| `FrameAllocator.LayoutDisjoint` | src/mm/alloc.c:27-51 | every page the bitmap lies on is in the reserve, and bump allocation starts behind it |
| `FrameAllocator.Allocator.constructor` | src/mm/alloc.c:27-51 | nothing handed out yet, bump phase |
| `FrameAllocator.Allocator.GetPage` | src/mm/alloc.c:52-77 | a page not outstanding and not of the bitmap; after the switch the lowest free one, -1 exactly when none is free; the free pages lose exactly that one; used bytes stay 4096 times the pages outstanding, across the handoff |
| `FrameAllocator.Allocator.FindFree` | src/mm/alloc.c:58-76 | the lowest clear bit, or none when all are set |
| `FrameAllocator.Allocator.FreePage` | src/mm/alloc.c:273-277 | exactly that page is no longer outstanding and its bit alone is cleared |
| `FrameMarks.Take` | src/mm/alloc.c:52-77 | in terms of the frames in use: exactly one frame that was neither in use nor marked becomes both |
| `FrameMarks.Give` | src/mm/alloc.c:273-277 | exactly that frame is no longer in use nor marked |
| `FrameAllocator.Allocator.MapItself` | src/mm/alloc.c:281-307 | after the handoff the marked pages are exactly the reserve and what the bump phase gave out with its guard pages; outstanding pages stay outstanding |
| `HeapChunks.Need` | src/mm/alloc.c:123-127 | bytes a request takes: the larger of 16 and 4 more than asked |
| `HeapChunks.FirstFit` | src/mm/alloc.c:128-151 | the first free chunk that is large enough, none before it |
| `HeapChunks.GrowPages` | src/mm/alloc.c:140-141 | pages the heap grows by: more than one and at most two above what is needed |
| `HeapChunks.SupplyMeans` | src/mm/alloc.c:128-151 | the first free chunk that is large enough is used; only without one is the heap grown, by one free chunk of the size above |
| `HeapChunks.NextUsed` | src/mm/alloc.c:179-188 | the first used chunk behind a place, all between it unused |
| `HeapChunks.PayloadsDisjoint` | src/mm/alloc.c:94-189 | no byte of one payload lies in another chunk or in any header |
| `HeapChunks.CarveTiles` | src/mm/alloc.c:152-164 | splitting a chunk keeps the heap tiled with chunks of at least 16 bytes |
| `HeapChunks.GrownTiles` | src/mm/alloc.c:94-117 | growing keeps the heap tiled |
| `HeapChunks.MergeTiles` | src/mm/alloc.c:166-189 | merging keeps the heap tiled |
| `HeapChunks.CarveKeepsLive` | src/mm/alloc.c:152-164 | allocation leaves every live chunk as it is and adds one; it has exactly the size needed, or all of a chunk that is less than 16 bytes larger |
| `HeapChunks.MergeKeepsLive` | src/mm/alloc.c:166-189 | freeing leaves every other live chunk as it is |
| `HeapChunks.MergeReaches` | src/mm/alloc.c:166-189 | the freed chunk reaches up to the next used chunk or the end of the heap |
| `HeapChunks.CarveUsedBytes` | src/mm/alloc.c:118-165 | bytes in used chunks grow by the chunk handed out |
| `HeapChunks.MergeUsedBytes` | src/mm/alloc.c:166-189 | bytes in used chunks shrink by the chunk freed |
| `HeapChunks.BootSound` | src/mm/alloc.c:78-93 | the heap after kheap_init meets the invariant of the runs |
| `HeapChunks.AllocSound` | src/mm/alloc.c:118-165 | allocation keeps: the chunks tile the heap and the used ones are those handed out |
| `HeapChunks.FreeSound` | src/mm/alloc.c:166-189 | freeing keeps the same |
| `HeapChunks.RunSound` | src/mm/alloc.c:94-189 | after any sequence of allocations and frees the chunks tile the heap and the used ones are exactly those handed out and not freed |
| `HeapChunks.LiveBlocksDisjoint` | src/mm/alloc.c:94-189 | hence, after any such sequence, two live blocks never overlap and none leaves the heap |
| `KernelHeap.HeaderRoundTrip` | src/mm/alloc.c:118-189 | size and used flag written into a header's bytes read back |
| `KernelHeap.CarveHeaders` | src/mm/alloc.c:152-164 | the headers written by a split spell out the split list, and no other chunk's bytes change |
| `KernelHeap.MergedHeaders` | src/mm/alloc.c:166-189 | the header written by a merge spells out the merged list, and no other chunk's bytes change |
| `KernelHeap.GrownHeaders` | src/mm/alloc.c:94-117 | the header of newly mapped pages spells out the grown list |
| `KernelHeap.Heap.constructor` | src/mm/alloc.c:78-93 | one page, one free chunk |
| `KernelHeap.Heap.GrowHeap` | src/mm/alloc.c:94-117 | succeeds exactly when the limit and the frames allow it; old bytes stay |
| `KernelHeap.Heap.FindChunk` | src/mm/alloc.c:128-151 | the walk over the headers finds the first fit, growing at most once and only when nothing fits |
| `KernelHeap.Heap.TakeChunk` | src/mm/alloc.c:152-164 | the chunk is split or taken whole and every other payload survives |
| `KernelHeap.Heap.Kmalloc` | src/mm/alloc.c:118-165 | the outcome is decided by the size, the first fit, the limit and the frames (`Fault` where the search runs into an unmapped page, `Stray` where it runs into user memory); a block returned is the payload of a fresh used chunk, all live payloads keep their bytes, the corruption and limit panics are not reached, and heap_used stays within 15 bytes per allocation below the bytes in used chunks |
| `KernelHeap.Heap.Kfree` | src/mm/alloc.c:166-189 | the chunk and the free ones behind it become one; other live payloads keep their bytes; freeing -1 or a free chunk does nothing |
| `KernelHeap.Heap.MergeChunks` | src/mm/alloc.c:177-188 | the merging loop stops at the next used chunk and rewrites one header only |
| `KernelHeap.Heap.StoreByte` | src/mm/alloc.c:118-189 | a store anywhere in a live payload changes no header |
| `UserBreak.StockCounts` | src/mm/alloc.c:52-77 | the stock is the pages the bitmap has free and those of them below 2 GB; before the handoff it never runs out |
| `UserBreak.LowestFirst` | src/mm/alloc.c:58-76 | the lowest free page lies below 2 GB exactly when any does, so low frames are handed out first |
| `UserBreak.TakeFrame` | src/mm/alloc.c:52-77 | a frame below 2 GB comes exactly while low ones are left, -1 exactly when none is left; the stock shrinks by one |
| `UserBreak.NewTablesStep` | src/arch/x86/mmu.c:152-161 | one more page needs one more table exactly when it lies under a slot that has none |
| `UserBreak.NewTablesCount` | src/arch/x86/mmu.c:152-161 | tables needed: one for each 1024 pages touched that has none |
| `UserBreak.CanGrowMeans` | src/mm/alloc.c:190-222 | the condition of a growth, page by page: the machine's page count, the end below 0xFFBFF000, a low frame for every page in turn, frames for all pages and tables |
| `UserBreak.Process.MachineCounts` | src/mm/alloc.c:196-200 | the page count held against: the machine's pages plus those handed out |
| `UserBreak.StockTells` | src/mm/alloc.c:201-220 | whether page i and its table find frames, from the stock at the start |
| `UserBreak.Decided` | src/mm/alloc.c:190-222 | a page that is not added decides the whole growth, and which way |
| `UserBreak.LastFrameGoesWild` | src/arch/x86/mmu.c:152-161 | an input on which the failure goes unnoticed, for a machine of any size: the page takes the last frame and its table gets -1 |
| `UserBreak.BackedGrows` | src/mm/alloc.c:201-220 | one more page with a frame not handed out before keeps the break backed by distinct frames |
| `UserBreak.PagesFor` | src/mm/alloc.c:228-236 | the page count is the least that covers the missing bytes |
| `UserBreak.Process.MakeTable` | src/arch/x86/mmu.c:152-161 | a table is made exactly when there is none, and fails exactly when no frame is left |
| `UserBreak.Process.OnePage` | src/mm/alloc.c:201-220 | one page with its table: refused exactly without room or a low frame, derailed exactly when its table finds no frame, otherwise added |
| `UserBreak.Process.SbrkPage` | src/mm/alloc.c:190-222 | all pages are added if and only if the machine has as many, there is room and the frames left suffice for pages and tables; a failed call keeps what it added; pages below stay |
| `UserBreak.Process.Sbrk` | src/mm/alloc.c:224-250 | begin <= break <= next page, every page between backed by a frame of its own, slack below one page while no call failed and below 2 GB always; returns the old break, or -1 if and only if that condition on the state before the call fails |
| `UserBreak.Process.InitProcess` | src/mm/alloc.c:252-257 | the break covers exactly the size asked for under the same condition; otherwise - unnoticed by the caller - it falls short of it |
| `ElfLoader.EndInMemory` | src/elf.c:37-71 | the largest segment end, attained by a segment; 0 for a bad header |
| `ElfLoader.InitSize` | src/elf.c:118-131 | the int handed on is positive exactly when the image ends above USER_OFFSET by less than 2 GB |
| `ElfLoader.HighImageGetsNothing` | src/elf.c:118-131 | an image that ends 2 GB or more above USER_OFFSET, such as at 0xC0001000, is never backed, whatever memory there is |
| `ElfLoader.PhysicalInPage` | src/mm/alloc.c:201-220 | an address translates to the same place in its page's frame |
| `ElfLoader.PhysicalInjective` | src/mm/alloc.c:201-220 | different addresses of the break reach different physical bytes |
| `ElfLoader.ViewStore` | src/elf.c:153-160 | hence a write through the mapping changes one byte of the break's view |
| `ElfLoader.SegmentsHold` | src/elf.c:134-162 | segments that do not overlap hold their file bytes followed by zeros, in whatever order they are loaded; where the file ends early memory stays as it was |
| `ElfLoader.OutsideUntouched` | src/elf.c:134-162 | bytes outside every segment stay as they were |
| `ElfLoader.Loader.StoreBytes` | src/elf.c:153-157 | file bytes land at their addresses and nowhere else in the break |
| `ElfLoader.Loader.StoreZeros` | src/elf.c:158-160 | the rest of the segment is cleared and nothing else in the break |
| `ElfLoader.Loader.LoadSegment` | src/elf.c:142-161 | one segment laid over the break's memory |
| `ElfLoader.Loader.LoadSegments` | src/elf.c:134-162 | all segments, later ones over earlier ones |
| `ElfLoader.Loader.LoadFile` | src/elf.c:118-162 | the image is backed by pages if and only if it ends less than 2 GB above USER_OFFSET and the frames left before the call suffice for its pages and tables; then it is loaded without a fault |
| `ElfLoader.Loader.Fill` | src/elf.c:132-162 | the segments fill the break that was set up for them |
| `Facts.RemoveFirst` | src/thread.c:61-84 | nothing changes without an occurrence, otherwise one entry less |
| `Facts.RemoveFirstAt` | src/thread.c:61-84 | removing the first occurrence joins what lies before and after it |
| `RunQueue.GapClosed` | src/thread.c:61-84 | shifting slots across the wrap and stepping the head back deletes exactly one place of the queue |
| `RunQueue.Filo.constructor` | src/thread.c:54-60 | an empty queue |
| `RunQueue.Filo.Read` | src/thread.c:36-45 | the oldest handle, NULL when empty |
| `RunQueue.Filo.Write` | src/thread.c:46-53 | appended, refused exactly when size - 1 handles are queued |
| `RunQueue.Filo.Remove` | src/thread.c:61-84 | the first occurrence is deleted for every head/tail placement, the rest keeps its order |
| `SchedulerMachine.SpinsForever` | src/thread.c:137-152 | when nothing queued can run and something queued is alive, every turn of the search loop leaves that so: it never ends |
| `SchedulerMachine.TurnKeepsChoice` | src/thread.c:137-152 | otherwise a turn does not change which task the search will find and what it leaves queued |
| `SchedulerProofs.SearchRotates` | src/thread.c:137-152 | with no dead task queued the search takes out the first runnable one and puts those before it at the end |
| `SchedulerProofs.TickRotates` | src/thread.c:115-227 | with every queued process running and idle queued or not, a tick keeps the queue, dispatches the process, or dispatches one before it and brings it forward |
| `SchedulerProofs.TimerKeepsInv` | src/thread.c:115-227 | a tick keeps: nothing dead queued, everything queued known, nobody but idle queued twice |
| `SchedulerProofs.CreateKeepsInv` | src/thread.c:228-272 | creation keeps the invariant |
| `SchedulerProofs.KillKeepsInv` | src/thread.c:325-443 | a kill keeps the invariant and leaves the process dead and not queued |
| `SchedulerProofs.StepKeepsInv` | src/thread.c:115-443 | every step keeps the invariant |
| `SchedulerProofs.RunKeepsInv` | src/thread.c:115-443 | hence every run does: nothing dead is ever queued and everything queued is known |
| `SchedulerProofs.DeadStaysDead` | src/thread.c:325-345 | over every run a dead process stays dead, is never queued again and never dispatched |
| `SchedulerProofs.KilledStaysDead` | src/thread.c:325-345 | in particular after a kill |
| `SchedulerProofs.PlaceAfter` | src/thread.c:115-227 | no step that spares a process moves it back, also while idle is queued; a switch brings it forward or dispatches it |
| `SchedulerProofs.NoOvertaking` | src/thread.c:115-227 | from place i a process is among the next i + 1 dispatches, whatever is created or killed meanwhile and wherever idle is queued |
| `SchedulerProofs.DispatchedInTime` | src/thread.c:115-227 | without kills and signals it is dispatched within the ticks left to the running task plus 11 per place |
| `SchedulerProofs.DispatchedWithinQuota` | src/thread.c:115-227 | hence within 11 (i + 1) ticks |
| `SchedulerUnique.TickUniqueIff` | src/thread.c:133-174 | a tick queues somebody twice if and only if it pops a task that is neither skipped nor able to run while idle is queued and the ring has room: then idle |
| `SchedulerUnique.StepUnique` | src/thread.c:228-443 | creations, kills, signals, state changes and forced switches never queue anybody twice |
| `SchedulerUnique.UniqueThroughoutIff` | src/thread.c:115-443 | along every run the queue is free of duplicates if and only if no tick meets that case |
| `SchedulerUnique.NoDuplicates` | src/thread.c:115-443 | over every run of ticks, creations, kills, signals and forced switches the queue has no duplicates at all |
| `SchedulerUnique.TwoWaitQueueIdleTwice` | src/thread.c:133-174 | an input on which it fails: from boot, two processes are created and start to wait for a child one after the other; idle, which stood in for both, is then queued twice and nothing else |
| `SchedulerUnique.BootMeetsInv` | src/thread.c:93-113 | the state after thread_init - idle alone, queued and running - meets all invariants |
| `SchedulerUnique.CreatingHangs` | src/thread.c:137-152 | an input on which the search never ends: from boot, one process is created and marked as still being created |
| `SchedulerEffects.HeadTaken` | src/thread.c:133-174 | a head that is alive and not in state -1, 4 or 6 is dispatched, idle in its place if its state is above 3, and goes to the end |
| `SchedulerEffects.HeadPassedOver` | src/thread.c:137-152 | any other head leaves the queue and the first task behind it that is alive in state 1 or 2 is dispatched, none otherwise |
| `SchedulerEffects.PassedOverRequeued` | src/thread.c:137-152 | those passed over follow the rest of the queue in their order without the dead, then comes the task dispatched |
| `SchedulerEffects.HangsExactly` | src/thread.c:137-152 | the search hangs exactly when it passes the head, finds nobody alive in state 1 or 2, and somebody alive |
| `SchedulerEffects.TickCharges` | src/thread.c:115-227 | the running task keeps the processor exactly below a quota of 10 and is charged one per tick; a task dispatched starts at 0; nobody else changes |
| `SchedulerEffects.TickEnabledExactly` | src/thread.c:183-212 | a tick goes through exactly when the search ends and no default action kills |
| `SchedulerEffects.DefaultKillExactly` | src/thread.c:189-204 | the default action kills exactly for numbers below 32 other than 20 without a handler |
| `SchedulerEffects.SignalsWait` | src/thread.c:183-227 | a task that is not switched to keeps its signals and handlers |
| `SchedulerEffects.BlockedSignalRequeued` | src/thread.c:207-213 | while its handler runs a signal goes to the end of the line: none is lost, no handler touched |
| `SchedulerEffects.SignalDelivered` | src/thread.c:214-216 | otherwise the first signal is gone and its handler, no other, is marked as running |
| `SchedulerEffects.SignalDropped` | src/thread.c:184-219 | unknown numbers, SIGCHLD without a handler and signals of kernel processes are dropped |
| `SchedulerEffects.BlockedStaysPending` | src/thread.c:207-213 | over every run that does not kill the process, no instance of a signal is lost while its handler runs, neither pending nor newly sent ones |
| `SchedulerEffects.EnabledExactly` | src/thread.c:228-443 | when the other steps can be taken |
| `SchedulerEffects.CreateEffects` | src/thread.c:228-272 | a new process is a ready child of the running task with a quota of 10, 32 empty handlers and nothing pending, at the end of the queue if there is room |
| `SchedulerEffects.KillEffects` | src/thread.c:325-443 | the victim is a dead zombie without signals, its parent alone gets exactly one SIGCHLD, and only the task to be rescheduled has its quota set to 11 |
| `SchedulerEffects.KillUnqueues` | src/thread.c:342-345 | the victim's first place in the queue closes up |
| `SchedulerEffects.SmallEffects` | src/thread.c:115-227 | a state change, a signal sent and a forced switch change that of one process only |
| `Scheduler.Threads.constructor` | src/thread.c:93-113 | exactly the machine's boot state: idle is running and queued |
| `Scheduler.Threads.Schedule` | src/thread.c:115-227 | the code on the ring performs exactly the machine's tick |
| `Scheduler.Threads.PickNext` | src/thread.c:133-157 | pop, search and fallback to idle choose what the machine chooses |
| `Scheduler.Threads.SelectTask` | src/thread.c:137-152 | the search loop ends and finds the first runnable task |
| `Scheduler.Threads.SwitchContext` | src/thread.c:158-227 | one signal taken and the context switched, as the machine says |
| `Scheduler.Threads.CreateThread` | src/thread.c:228-272 | the machine's creation step |
| `Scheduler.Threads.KillThread` | src/thread.c:325-443 | the machine's kill step |
| `Scheduler.Threads.ClockHandler` | src/thread.c:278-291 | a tick exactly when the scheduler is enabled |
| `Tmpfs.SpliceLaws` | src/fs/tmpfs.c:198-249 | what was written reads back, the rest is unchanged, and writing the old bytes back undoes a write inside the file |
| `Tmpfs.LastWriteWins` | src/fs/tmpfs.c:198-249 | after any history of writes a byte is the one the last write covering it put there |
| `Tmpfs.Available` | src/fs/tmpfs.c:41-51 | bytes to read: as many as asked for or up to the end of the file, none past it |
| `Tmpfs.File.ReadRange` | src/fs/tmpfs.c:41-51 | for every offset: the count returned is the number of bytes there are - all asked for, or up to the end of the file - if and only if the read does not start past the end; past it, it is the distance past the end |
| `Tmpfs.OverlaySplices` | src/fs/tmpfs.c:198-249 | pieces laid over the blocks up to the end of the range are the splice of the flat file |
| `Tmpfs.File.constructor` | src/fs/tmpfs.c:78-103 | an empty file |
| `Tmpfs.File.GetBlockPtr` | src/fs/tmpfs.c:152-163 | the block with that id, none exactly when absent |
| `Tmpfs.File.GetOrCreateBlock` | src/fs/tmpfs.c:164-188 | block ids stay distinct and gap-free from 0; a missing block is appended zeroed |
| `Tmpfs.File.Write` | src/fs/tmpfs.c:198-249 | the flat contents become the splice of the old contents, however the range falls on blocks |
| `Tmpfs.File.WriteBlocks` | src/fs/tmpfs.c:222-236 | the loop over whole blocks lays exactly the bytes up to the last block boundary |
| `Tmpfs.File.Read` | src/fs/tmpfs.c:39-77 | exactly that slice of the flat contents, as many bytes as asked for or up to the end of the file, and no byte of the buffer beyond it |
| `Tmpfs.File.ReadAcross` | src/fs/tmpfs.c:60-76 | the same for a range that crosses blocks |
| `ByteFifo.WindowPush` | src/lib/fifosize.c:67-71 | a byte stored at the rear appends to the queued window, across the wrap |
| `ByteFifo.WindowPop` | src/lib/fifosize.c:79-83 | a byte taken at the front is the oldest and leaves the rest |
| `ByteFifo.Queue.constructor` | src/lib/fifosize.c:5-21 | an empty queue |
| `ByteFifo.Queue.GetSize` | src/lib/fifosize.c:42-44 | the number of bytes queued |
| `ByteFifo.Queue.GetFree` | src/lib/fifosize.c:50-55 | the number of bytes that still fit |
| `ByteFifo.Queue.Enqueue` | src/lib/fifosize.c:57-75 | all the bytes are appended or, with -1, none; -1 exactly for no bytes or too many |
| `ByteFifo.Queue.Dequeue` | src/lib/fifosize.c:77-87 | the oldest bytes in order are handed out and gone, or nothing happens with -1 |
| `SocketMachine.AcceptPairsIff` | src/socket/unix.c:110-146 | accept keeps connected ends pointing at each other if and only if the socket it takes from the queue is not connected |
| `SocketMachine.AcceptStreams` | src/socket/unix.c:110-146 | joining two sockets keeps received-then-queued equal to sent in both directions, also for bytes sent before the connection |
| `SocketMachine.SendStreams` | src/socket/unix.c:173-195 | a send, also a partial one, keeps pairing and streams |
| `SocketMachine.RecvStreams` | src/socket/unix.c:197-215 | a receive keeps pairing and streams |
| `SocketMachine.NoSocketsInv` | src/socket/unix.c:75-78 | the state without sockets meets the invariants |
| `SocketMachine.StepKeepsInv` | src/socket/unix.c:105-215 | every step keeps pairing and streams, accept under that condition |
| `SocketMachine.PairedThroughoutIff` | src/socket/unix.c:110-172 | over every run the ends are paired throughout if and only if no accept took a socket connected meanwhile |
| `SocketMachine.StreamsReliable` | src/socket/unix.c:173-215 | over every such run, whatever the interleaving, what an end received followed by what its peer has queued is what the peer sent |
| `SocketMachine.AskingOnceIsCareful` | src/socket/unix.c:147-172 | the condition is met by every run in which no socket asks while its request is queued, as blocking callers cannot |
| `SocketMachine.DoubleConnectBreaks` | src/socket/unix.c:147-172 | a non-blocking socket that asks twice is accepted twice and the pairing breaks, from any state |
| `SocketEffects.SendTakesPrefix` | src/socket/unix.c:173-195 | a send appends the first bytes of the data in their order, all of them or as many as fill the queue to 500 KB, and nothing else changes |
| `SocketEffects.RecvTakesOldest` | src/socket/unix.c:197-215 | a receive takes the oldest bytes of the peer's queue, as many as asked for or all there are |
| `SocketEffects.ConnectionEffects` | src/socket/unix.c:105-172 | the other operations move no bytes; requests are queued in order and served oldest first; an accepted pair points at each other |
| `SocketEffects.SentIsTaken` | src/socket/unix.c:173-195 | over every run the bytes an end has sent are the accepted prefixes of the data handed to its sends, one after the other |
| `SocketEffects.DeliveredInOrder` | src/socket/unix.c:105-215 | from no sockets on, over every such run, what an end received followed by what is queued for it is the data taken from its peer's callers in their order |
| `UnixSocket.Socket.constructor` | src/socket/unix.c:35-55 | an unconnected socket with an empty queue of its own |
| `UnixSocket.Create` | src/socket/unix.c:35-55 | the machine's Open step |
| `UnixSocket.Listen` | src/socket/unix.c:105-109 | the machine's Listen step |
| `UnixSocket.Connect` | src/socket/unix.c:147-172 | the machine's Connect step exactly when it is enabled, else -1 and no change |
| `UnixSocket.Accept` | src/socket/unix.c:110-146 | the machine's Accept step when a request is queued, else -1 or waiting and no change |
| `UnixSocket.Send` | src/socket/unix.c:173-195 | the machine's Send step: the byte queue grows by the first r bytes of the data, r being all of them or what fills it; or the answer for no data and a full queue |
| `UnixSocket.Recv` | src/socket/unix.c:197-215 | the machine's Recv step with the bytes in the caller's buffer, or the answer for a closed, unconnected or idle socket |
| `Ext2.Le32RoundTrip` | module/ext2/main.c:192-196 | a block number stored least significant byte first reads back |
| `Ext2.TableRoundTrip` | module/ext2/main.c:192-196 | so does a whole indirect block of them |
| `Ext2Layout.Le32Digits` | module/ext2/main.c:192-196 | byte k of a block number is its k-th digit in base 256 |
| `Ext2Layout.DirectBlocks` | module/ext2/main.c:171-187 | blocks 0 to 11 of a file are named by the first 12 words of the inode |
| `Ext2Layout.SingleIndirect` | module/ext2/main.c:189-219 | the next bs/4 by the table word 12 names |
| `Ext2Layout.DoubleIndirect` | module/ext2/main.c:221-252 | the next (bs/4)^2 through two tables from word 13 |
| `Ext2Layout.TripleIndirect` | module/ext2/main.c:254-278 | the next (bs/4)^3 through three tables from word 14 |
| `Ext2Layout.NoFurtherBlocks` | module/ext2/main.c:171-278 | none beyond |
| `Ext2Layout.WalkParts` | module/ext2/main.c:171-278 | the walk: direct words, then one, two and three levels of tables |
| `Ext2Layout.StopsAtZero` | module/ext2/main.c:171-278 | every list of block numbers is left at its first zero |
| `Ext2Layout.TablesInTurn` | module/ext2/main.c:225-277 | tables are walked one after the other |
| `Ext2Layout.HoleShifts` | module/ext2/main.c:171-187 | an input on which the walk is wrong: a hole among the first 12 blocks, from which on the blocks found through the tables are delivered |
| `Ext2Layout.WalkRightIff` | module/ext2/main.c:171-278 | the walk meets the first n blocks as they are if and only if none of them is a hole |
| `Ext2.FlatAt` | module/ext2/main.c:147-285 | byte j of block i of the concatenated blocks |
| `Ext2.LeavesInOrder` | module/ext2/main.c:171-278 | at every depth the walk meets the blocks in logical order up to the first hole, and never more than the pointers can name |
| `Ext2.WalkInOrder` | module/ext2/main.c:171-278 | over direct, single, double and triple parts: without a hole among the first n blocks the walk's first n blocks are the logical ones |
| `Ext2.BlocksEnough` | module/ext2/main.c:171-278 | and there are at least n of them to read |
| `Ext2.BytesInOrder` | module/ext2/main.c:171-278 | hence each byte comes from its logical block and offset, whatever fetches the blocks |
| `Ext2.ReadInOrder` | module/ext2/main.c:147-285 | reading a file without holes up to its size yields exactly its size in bytes, each from its logical block |
| `Ext2.CopyBlock` | module/ext2/main.c:173-187 | one block or what is left to copy of it |
| `Ext2.CopyRun` | module/ext2/main.c:195-218 | a loop over data blocks |
| `Ext2.CopyTables` | module/ext2/main.c:225-252 | a loop over tables of data blocks |
| `Ext2.CopyTablesOfTables` | module/ext2/main.c:257-277 | a loop over tables of tables |
| `Ext2.ReadIndirect` | module/ext2/main.c:189-278 | one indirect part of the inode, with the size checks where the source has them |
| `Ext2.ReadBlocks` | module/ext2/main.c:147-285 | over blocks by number: the buffer gets the first size bytes of the data blocks in walk order, or all there are, and is otherwise unchanged |
| `Ext2Device.PosRightIff` | module/ext2/main.c:22-24 | the 32-bit device position of a block is right if and only if it lies below 2 GB |
| `Ext2Device.BlockAgrees` | module/ext2/main.c:171-278 | below 2 GB the walk finds the blocks that are there, through every level of tables |
| `Ext2Device.LowIsReadRight` | module/ext2/main.c:171-278 | then each byte delivered is the byte at the exact position of the file's block |
| `Ext2Device.DeliveredSame` | module/ext2/main.c:22-24 | the code never looks at or above 2 GB: what it delivers does not depend on what lies there |
| `Ext2Device.NotLowAt` | module/ext2/main.c:171-278 | a path with a block or table at or above 2 GB can be continued there to any content |
| `Ext2Device.AlwaysRightIff` | module/ext2/main.c:147-285 | the first n blocks are delivered as they are, whatever lies above, if and only if every block and table on the way to them lies below 2 GB; otherwise there is a device on which a byte is wrong |
| `Ext2Device.HighBlockReadAsLow` | module/ext2/main.c:22-24 | block 0x400001 of 1024 bytes is read as block 1 |
| `Ext2Device.FileRead` | module/ext2/main.c:147-285 | reading such a file yields exactly as many bytes as asked for, each the file's own |
| `Ext2Device.ReadFile` | module/ext2/main.c:147-285 | the buffer gets the first size bytes of what the walk delivers from the device, or all there are, and is otherwise unchanged |
| `CyclicList.InsertedAt` | src/lib/clist.c:20-29 | the new entry is at its place, those behind it move up by one |
| `Facts.RemovedAt` | src/lib/clist.c:63-73 | those behind a removed entry move down by one |
| `CyclicList.RingInserted` | src/lib/clist.c:20-29 | splicing a node between neighbours yields a ring with it in that place |
| `CyclicList.RingRemoved` | src/lib/clist.c:65-68 | joining the neighbours of a node yields the ring without it |
| `CyclicList.List.constructor` | src/lib/clist.c:140-145 | an empty list |
| `CyclicList.List.InsertAfter` | src/lib/clist.c:6-32 | the entries are the old ones with the new one behind the given one; next and prev stay mutually inverse |
| `CyclicList.List.InsertBefore` | src/lib/clist.c:33-62 | the same in front of the given one; in front of the head means at the end |
| `CyclicList.List.Delete` | src/lib/clist.c:63-73 | exactly that entry is gone; the head moves on when it was the head, to none when it was the last |
| `CyclicList.List.Find` | src/lib/clist.c:74-92 | the first entry the detector takes, or none when it takes none; each entry is visited at most once |
| `CyclicList.List.Size` | src/lib/clist.c:181-191 | the number of entries |
| `LinkedQueue.FirstGone` | include/lib/queue.h:60-81 | taking out the first occurrence joins what lies before and after it |
| `LinkedQueue.Queue.constructor` | include/lib/queue.h:21-26 | an empty queue |
| `LinkedQueue.Queue.Enqueue` | include/lib/queue.h:27-42 | the value is appended; size, head, tail and links agree with the sequence |
| `LinkedQueue.Queue.Dequeue` | include/lib/queue.h:44-58 | the oldest value leaves; nothing happens on an empty queue |
| `LinkedQueue.Queue.Remove` | include/lib/queue.h:60-81 | exactly the first occurrence leaves, from head, middle or tail |
| `Strings.EmitMeans` | src/lib/string.c:159-175 | the digits emitted, turned round, stand for the number, in every base from 2 to 16 |
| `Strings.GlyphIs` | src/lib/string.c:167-173 | digits are shown as 0 to 9 and A to F |
| `Strings.NoLeadingZero` | src/lib/string.c:159-175 | no leading zero except for the number 0 |
| `Strings.TextMeans` | src/lib/string.c:159-194 | the text is the radix mark in reading order, then digits that stand for the number |
| `Strings.TextAmbiguous` | src/lib/string.c:167-173 | from base 18 on different numbers have the same text |
| `Strings.SignedStep` | src/lib/string.c:104-112 | wrapping to 32 bits at every digit is wrapping once at the end |
| `Strings.ReadUndoesText` | src/lib/string.c:104-194 | atoi undoes itoa in base 10 if and only if the number is below 2^31 |
| `Strings.Strlen` | include/typedefs.h:39-47 | the length of the string |
| `Strings.Strcpy` | src/lib/string.c:35-45 | the copy is the same string; for one that is not empty exactly its bytes and terminator are written |
| `Strings.Strinv` | src/lib/string.c:143-158 | a string that is not empty, turned round in its own buffer |
| `Strings.PutDigits` | src/lib/string.c:159-175 | all digits, least significant first |
| `Strings.Itoa` | src/lib/string.c:159-194 | the number's text with its radix mark as a terminated string, and the position behind it |
| `Strings.Atoi` | src/lib/string.c:104-112 | the leading digits as a 32-bit int |

## Left out

- AddressSpaces.Mmu.constructor: the 4 MB entries of slots 0 to 255 and the self slot of the kernel directory are left open.
- AddressSpaces.Mmu.AddPageToPd: a page-table frame is available; the source does not look whether it got one (`UserBreak.LastFrameGoesWild` shows the case for sbrk).
- AddressSpaces.Mmu.GrowPage: frames are available; when they are not is decided in `UserBreak.Process.SbrkPage`.
- AddressSpaces.Mmu.HandleCow: a frame for the copy is available; the source maps frame -1 otherwise.
- AddressSpaces.Mmu.CopyPage: a frame for the copy is available, as for HandleCow.
- AddressSpaces.Mmu.UserStore: a frame is available when the page has to be copied.
- AddressSpaces.Mmu.Duplicate: frames for the child's page tables are available; the source does not look.
- AddressSpaces.Mmu.RemovePage: addresses in the user slots only.
- AddressSpaces.Mmu.GetPhysical: addresses in the user slots only.
- AddressSpaces.Mmu.GetPage: a frame is available; without one the source answers -1 (`FrameAllocator.Allocator.GetPage`), which the callers above do not look at.
- AddressSpaces.Mmu.FreePage: frames that are not in use; that none is freed twice is proved of the callers.
- FrameMarks.Take: a frame is available, as for `AddressSpaces.Mmu.GetPage`.
- FrameMarks.Give: frames that are not in use, as for `AddressSpaces.Mmu.FreePage`.
- Page tables of 32-bit words: the class works on entries taken apart into frame and flags; `PageTables.TableAsWords` ties a table of these to a table of words.
- CowRefinement.KernelStoreRefinesIff: kernel-mode stores are no step of the runs in `CowRefinement.RunRefinesEagerCopy`, which would fail for them.
- FrameAllocator.Allocator.FreePage: pages that are not outstanding or lie beyond the bitmap; the source trusts its callers.
- KernelHeap.Heap.Kmalloc: what the walk does with the user bytes it takes for a header (`Stray`), negative sizes, and sizes within four pages of the 31-bit size field, for which the header arithmetic would wrap.
- KernelHeap.Heap.Kfree: NULL, which kmalloc(0) returns and for which kfree reads a header at 0xFFFFFFFC, and pointers that no kmalloc returned; the source trusts its callers.
- UserBreak.Process.Sbrk: nothing is promised about memory after a page table was put in frame -1 (`Wild`).
- ElfLoader.Loader.LoadFile: header checks beyond the magic number, read errors of the file system, the stack and standard streams of the new process.
- Scheduler.Threads.Schedule: a tick whose search never ends (`SchedulerMachine.SpinsForever`), signals whose default action kills, processes of type thread, priorities other than 1 and wake-ups by sys_kill; the last four queue a task twice or use a ring that was never made.
- Scheduler.Threads.PickNext: a queue on which the search never ends.
- Scheduler.Threads.SelectTask: a queue on which the search never ends.
- Scheduler.Threads.SwitchContext: a pending signal whose default action kills.
- Scheduler.Threads.ClockHandler: an enabled tick that `Schedule` leaves out.
- Scheduler.Threads.KillThread: the panic for process 1, closing of files, freeing of stacks, handing children over and waking of waiting parents beyond the SIGCHLD that is queued.
- Tmpfs.File.Write: writes that start beyond the end of the file, because the blocks between are then missing from the list and no flat file describes the result.
- Tmpfs.File.Read: reads that start beyond the end; the count they return is described by `Tmpfs.File.ReadRange`.
- ByteFifo.Queue.Enqueue: the test that the buffer is mapped, which always holds for a heap block.
- UnixSocket.Accept: the file descriptor opened for the new socket, and running out of kernel memory.
- UnixSocket.Connect: finding the listening socket by its path; it is a parameter.
- UnixSocket.Recv: destroyed peers (a NULL byte queue).
- Ext2Device.ReadFile: offsets other than 0, whose block arithmetic does not match a file.
- Ext2Device.AlwaysRightIff: files with holes, which the walk does not read as they are (`Ext2Layout.WalkRightIff`).
- CyclicList.List.InsertBefore: the source makes the entry and its data slot one allocation here, so a store through the entry's data pointer overwrites its links; the model keeps data apart from the links.
- Strings.Strinv: the empty string, for which strcpy reads on behind the terminator; itoa always emits a digit.
- Strings.Itoa: bases 0 and 1, which do not terminate normally, and bases above 128, whose digits do not fit a signed char.
- unix_bind, unix_destroy and the removal of sockets.
- tmpfs_rm, tmpfs_close and directories.
- alloc_getPages, krealloc and alloc_reserve: the first tracks the last page of a run instead of its start, the second copies the old chunk's size, the third sets bits without accounting.
- mprotect-style remapping of a page that is mapped already and owned.
- x86_64, RISC-V, ARM and headless memory management.
- FAT32, ISO9660, CPIO and partition drivers, vfs paths, strtok.
- Device drivers, ACPI and SMP tables, port I/O, the boot loader and userland: hardware plumbing and thin wrappers.
