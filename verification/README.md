# Kaviz OS: a verified model of the kernel's stateful core

Kaviz OS is a small x86-64 kernel in C. This project models the parts of it that carry state
through loops and branches, and proves what they keep and what they compute. Everything is Dafny 4;
`dafny verify dfyconfig.toml` checks the whole project.

| files | component |
|---|---|
| `PageTree.dfy`, `TablePool.dfy`, `Pigeonhole.dfy`, `Vmm.dfy` | four-level page tables, the 16-page table pool, the frame allocator |
| `Blocks.dfy`, `Headers.dfy`, `HeapPages.dfy`, `Heap.dfy` | the kernel heap: `kmalloc` and `kfree` |
| `VirtualMemory.dfy`, `KernelMemory.dfy` | bytes read and written through the page tables, and the heap in them |
| `ElfFormat.dfy`, `ElfImage.dfy`, `Elf.dfy` | the ELF loader on top of all of these |
| `Scheduler.dfy`, `Timer.dfy` | the round-robin scheduler with sleepers, driven by the timer |
| `FatLayout.dfy`, `FatVolume.dfy`, `FatFile.dfy`, `FatDir.dfy` | FAT32: layout, cluster chains, reading, lookup |
| `Keyboard.dfy`, `Console.dfy` | the keyboard ring under interrupts, the scrolling screen |
| `Types.dfy` | shared types and word sizes |

Code that works in place is a class whose methods update its fields; each method's contract ties the
new state to a function or a relation of the old one, and the results are about those. The main ones:

- **Page tables are a finite map.** `MapPage` updates one key of the translation or, when the pool is
  short of tables, changes none; it fails exactly when the walk lacks more tables than the pool has
  left. `UnmapPage` and `SetPageFlags` succeed exactly on mapped pages and touch one key. Every link to a
  table of the pool is present and writable and nothing else, in every state; so the four entries that
  the processor meets on its way to any heap address allow writing (`HeapWritable`), and none of the
  pages reached through a pool table is a user page (`NoUserThroughPool`).
- **The heap is canonical.** Every `kmalloc` and `kfree` keeps a list of headers in memory that tiles
  the heap and has no two free neighbours. Such a list is determined by the heap's extent and its live
  blocks (`CanonicalList`); the exact round trip, independence of the order of frees and "freeing
  everything gives one block" follow from that. In plain numbers (`AllocationInNumbers`): `kmalloc` takes
  the best fit, or the fewest whole pages behind the heap; a block more than 40 bytes too large is cut to
  the rounded request and its rest becomes a free block, any other is handed out whole.
- **The heap grows to 28 MiB and no further**, although nothing compares against `heap_max`: a longer run of
  mapped heap pages would need 17 different tables out of a pool of 16 (`GrowthBound`). While no other
  table is taken from the pool and frames are left, `kmalloc` returns NULL exactly if nothing fits and
  the heap would exceed 28 MiB; `GrowToLimit` reaches them.
- **A loaded program reads back as its file.** After `elf_load`, every loadable segment read through
  the page tables is its file bytes followed by zeros, and its pages carry the segment's permissions.
  Block headers, program headers and read buffers are bytes behind the heap's pages; program headers
  and buffers are read back from there when they are used. Heap pages, segments and programs loaded
  before have frames of their own (`Memory.Valid`), so no store to one of them changes a byte of
  another. On every path, success or failure, following `next` through the bytes of memory meets
  exactly the heap's list (`ListInMemory`), and the payloads of live blocks and pages loaded earlier read
  as before; so a second program leaves the first in place (`LoadBoth`).
- **A load succeeds exactly when it can.** `elf_load` returns 1 if and only if no call to the file
  system, the frame allocator, `map_page` or `kmalloc` failed on the way and the file is complete: a good
  header, at least one program header, the whole table and the file part of every loadable segment.
- **Sleepers wake in time.** A task that sleeps `k` ticks among `n` tasks is selected after at least
  `max(k,1)` and at most `max(k,1)*n` passes, and within `5*max(k,1)*n` timer ticks even across the
  32-bit wrap of the tick counter, whatever the other tasks do.
- **Reads are slices of the flat file** up to the first cluster that cannot be read, however they are
  split; directory lookup is a linear search with the same limit. Mounting, opening and reading in one go
  gives the bytes of the sectors that the boot sector, the FAT and the directory entry lead to
  (`ReadFile`); each structure on disk is decoded as its declaration lays it out (the round-trip rows).
- **The keyboard** returns a prefix of what it accepted under every interleaving.
- **The screen is a text layout.** It shows the last 25 rows of an unbounded terminal. Where each
  character of a text without backspaces stands is a closed formula of the text: its column is the distance
  from the last newline, return or start, modulo 80, its row the number of rows ended before it; a cell shows
  the last character that stands there, and what was there before if there is none (`Layout`).

Ghost parameters (`ghost i`, `ghost cs`, `ghost p`) name the list index, the cluster chain or the page
that a call is about; they carry no run-time value. The ghost counters `VfsFile.failures` and `Vmm.refusals`
count the calls that failed; `RefusedOnlyEmpty` (part of the invariant) says that a failure of `map_page`
or the frame allocator had its reason, an empty pool or a counter that came round.

## Assumptions

These are `requires` clauses of constructors and methods.

- Page tables handed over by the boot loader form a tree (every table has one parent), use no large
  pages, and have nothing present under PML4 slot 256. The table pool is 4096-aligned (the C array is
  not declared so, but the masks rely on it) and holds no table at the start. Flags are below 4096.
- Virtual addresses are canonical where two of them are told apart.
- The sums that `kmalloc` computes from a size do not wrap a 64-bit word, that is, sizes are at most
  2^64 - 4120 (`RequestIff`); `kfree` gets NULL or a live pointer.
- `elf_load` is entered before the 64-bit frame counter has come round (2^52 - 512 frames). The call on
  which it does come round returns NULL, and every path of the loader then gives up, so the claims hold
  up to the end of that call.
- Page tables lie in frames of their own that neither the heap nor a segment is given.
- CR0.WP is clear, as the boot code leaves it: the loader writes segments (kernel/elf.c:164, 173) through
  pages that it may have mapped without PAGE_WRITABLE (kernel/elf.c:116-119).
- An executable has `e_phentsize` 56, offsets that fit a signed 32-bit word, and loadable segments with
  `p_filesz <= p_memsz` whose page ranges are canonical, do not wrap, are pairwise disjoint and avoid
  the 28 MiB of the heap and the pages of programs loaded before.
- `scheduler_sleep` is not interrupted by the timer between kernel/scheduler.c:102 and 103. A pass at that
  point finds the task asleep with the tick count it had before; `SleepUpperBound` then holds with that
  count, and the task can be woken before the count it asked for is stored.
- FAT: 512-byte sectors, clusters of at most 4096 bytes, chains that end and are long enough
  for the file, position 0 at open. A sector that cannot be read stays so.
- `boot.fat16.root_entries` (kernel/fs/fat.c:140) names no field; the model takes the one that exists,
  `boot.root_entries` (kernel/fs/fat.h:36).

## Model

| member | source | states |
|---|---|---|
| `PageTree.IndexMacros` | kernel/memory.h:66-69 | the four index macros are the four base-512 digits of the 36-bit page number |
| `PageTree.PageOfInjective` | kernel/memory.h:64-70 | page numbers tell canonical addresses apart exactly as their page frames do |
| `PageTree.Leaf` | kernel/memory.c:287-287 | `addr \| flags \| PRESENT` is present, keeps the aligned address and the flags |
| `PageTree.UniquePath` | kernel/memory.c:216-284 | in a tree, two pages whose walks meet in a table agree on every index above it |
| `PageTree.LinkPath` | kernel/memory.c:264-277 | linking a cleared table adds one node to the tree and changes no other walk |
| `PageTree.LinkKeepsLookup` | kernel/memory.c:216-281 | linking tables changes no translation |
| `PageTree.LinkWellFormed` | kernel/memory.c:229-229 | the tables still form a tree with unique parents |
| `PageTree.LinkWrites` | kernel/memory.c:223-229 | linking writes 512 zeros to the new table and its address with bits 0 and 1 to one entry, and nothing else |
| `PageTree.SetEntryLookup` | kernel/memory.c:287-287 | writing a leaf entry changes the translation of that page and of no other |
| `PageTree.SetEntryDescribes` | kernel/memory.c:286-287 | on the finite map a leaf write is an update or a removal of one key |
| `PageTree.DescribesPages` | kernel/memory.c:306-333 | the relation between a tree and a finite map holds of exactly one map, the tree's translation |
| `TablePool.LinkSound` | kernel/memory.c:28-42 | taking the next pool page for a table keeps the tree, the unused tail of the pool, "heap tables come from the pool" and "links to pool tables are present and writable" |
| `TablePool.LinkWritable` | kernel/memory.c:229-229 | a new link leaves every link to a pool table with exactly the flags present and writable |
| `TablePool.LinkObserved` | kernel/memory.c:240-257 | linking adds exactly one named table and leaves the finite map as it is |
| `TablePool.SetEntrySound` | kernel/memory.c:335-336 | a leaf write updates or removes one key, links nothing and keeps the invariant |
| `TablePool.FollowEntry` | kernel/memory.c:307-328 | the present bit of an entry decides whether the walk goes on, and its address where to |
| `TablePool.HeapWalkWritable` | kernel/memory.c:203-293 | for every mapped address under the heap's slot whose leaf is writable, all four entries found with the index macros are present and writable |
| `TablePool.NoUserThroughPool` | kernel/memory.c:229-277 | an address whose walk goes through a pool table is never open to user code, whatever its leaf says |
| `TablePool.GrowthBound` | kernel/memory.c:24-42 | a run of mapped pages from the heap start is at most 28 MiB, because a longer one needs 17 of the 16 pool tables |
| `Vmm.CounterClosed` | kernel/memory.c:152-165 | until the 64-bit counter wraps, the n-th frame is 0x200000 + 4096 n |
| `Vmm.InitialSlot` | kernel/memory.c:175-189 | with PML4 slot 256 absent no table below it is linked |
| `Vmm.Vmm.constructor` | kernel/memory.c:175-189 | the boot state satisfies the invariant, with the initial translation, an unused pool and nothing linked for the heap |
| `Vmm.CounterReturns` | kernel/memory.c:152-165 | the call after the last frame returns zero, which is NULL |
| `Vmm.Vmm.BootstrapAlloc` | kernel/memory.c:28-42 | for every 32-bit size: refused exactly when the sum of use and rounded size exceeds the pool without wrapping; what is handed out holds the size if and only if the sum does not wrap |
| `Vmm.Vmm.AllocPhysicalPage` | kernel/memory.c:152-165 | page-aligned 64-bit address; the next frame in order until the counter wraps, and NULL, counted as a refusal, exactly when it does |
| `Vmm.Vmm.LinkNewTable` | kernel/memory.c:216-232 | a cleared pool table is linked present and writable and nothing else is written, or the pool is used up and nothing changes; every link to a pool table is still exactly present and writable |
| `Vmm.Vmm.NextTable` | kernel/memory.c:240-260 | one level of the walk: follows or links, fails exactly on a missing table with an empty pool |
| `Vmm.Vmm.WalkAndLink` | kernel/memory.c:214-284 | the page table for a page; exact pool use, exact failure condition, only tables of this walk are linked |
| `Vmm.Vmm.MapPage` | kernel/memory.c:203-293 | success updates exactly one key of the translation; failure, after any partial linking, changes none; succeeds iff the pool covers the missing tables; links to pool tables stay exactly present and writable; a failure is counted |
| `Vmm.Vmm.FindLeaf` | kernel/memory.c:306-333 | finds a page table exactly when the page is mapped, and its entry is the map's value |
| `Vmm.Vmm.WriteLeaf` | kernel/memory.c:335-336 | one entry of one table is written; the map is updated or loses one key |
| `Vmm.Vmm.UnmapPage` | kernel/memory.c:296-342 | returns 0 exactly for a mapped page; its entry becomes 0 and the translation loses that key and no other; otherwise no table changes |
| `Vmm.Vmm.SetPageFlags` | kernel/memory.c:345-392 | returns 0 exactly for a mapped page, whose entry keeps its frame; no other key changes |
| `Blocks.PayloadsDisjoint` | kernel/memory.c:469-473 | blocks of a tiled heap do not overlap, headers and payloads included |
| `Blocks.CanonicalList` | kernel/memory.c:595-610 | two fully coalesced lists over the same extent with the same live blocks are equal |
| `Blocks.PlaceKeeps` | kernel/memory.c:563-580 | using or splitting a free block keeps the tiling and full coalescing |
| `Blocks.PlaceLive` | kernel/memory.c:563-580 | the live blocks grow by exactly the block handed out |
| `Blocks.FreedTiles` | kernel/memory.c:592-610 | freeing keeps the tiling |
| `Blocks.FreedCoalesced` | kernel/memory.c:595-610 | freeing a block of a coalesced list gives a coalesced list |
| `Blocks.FreedLive` | kernel/memory.c:592-610 | freeing removes exactly that block from the live blocks |
| `Blocks.PlaceThenFree` | kernel/memory.c:563-610 | placing and freeing restores the identical list, whole block or split |
| `Blocks.FreedAllKeeps` | kernel/memory.c:584-611 | any series of frees keeps tiling and coalescing and leaves exactly the other live blocks |
| `Blocks.FreeOrderIrrelevant` | kernel/memory.c:584-611 | freeing the same blocks in two orders gives the same list |
| `Blocks.FreeEverything` | kernel/memory.c:584-611 | freeing all live blocks in any order leaves one free block spanning the heap |
| `Headers.HeaderOutside` | kernel/memory.c:469-473 | no header of the list lies in a live payload |
| `Headers.StoresOutside` | kernel/memory.c:546-610 | stores to headers of a list miss the payloads of its live blocks and of any list with fewer of them |
| `Headers.ClientWritesKeepList` | kernel/memory.c:404-407 | whatever owners write into live payloads, the list in memory stays the same |
| `Headers.StoredMark` | kernel/memory.c:593-593 | the header store gives the list with the block marked free |
| `Headers.StoredMerge` | kernel/memory.c:597-598 | the header store gives the merged list |
| `Headers.StoredPlace` | kernel/memory.c:564-579 | the header stores of both branches give the list with the block handed out |
| `Headers.StoredAppend` | kernel/memory.c:546-557 | the header stores give the list with a new last block |
| `Headers.PlacedLogged` | kernel/memory.c:564-579 | they go to headers of the new list only, and to every header that is new in it |
| `Headers.PlaceAddrs` | kernel/memory.c:563-580 | placing keeps every header of the list and adds exactly the one behind a split |
| `Headers.FreedAddrs` | kernel/memory.c:592-610 | freeing makes no new header |
| `HeapPages.BackedStep` | kernel/memory.c:489-500 | mapping the next heap page to the next frame keeps the backing frames distinct and gives it a frame not handed out before |
| `HeapPages.ExtendedStep` | kernel/memory.c:532-544 | growth in steps is growth: earlier heap pages and pages elsewhere keep their translation, all new frames are new |
| `HeapPages.BackedLimit` | kernel/memory.c:24-42 | the backed part of the heap is at most 28 MiB |
| `HeapPages.NextPageBacked` | kernel/memory.c:489-500 | a heap page that was mapped is within 28 MiB and on a new frame |
| `HeapPages.MappedLinked` | kernel/memory.c:489-500 | n mapped heap pages have their page tables linked |
| `HeapPages.ExactLinksStep` | kernel/memory.c:489-500 | mapping heap page n takes exactly the pool bytes of the tables that are due |
| `HeapPages.CountedStep` | kernel/memory.c:489-500 | one page: success exactly within 28 MiB and with enough pool, pool use exact, and a failure leaves the heap's tables |
| `HeapPages.CountedMore` | kernel/memory.c:532-544 | the same for one page more |
| `HeapPages.CountedFailure` | kernel/memory.c:532-544 | a failure on the way is a failure for the whole run of pages |
| `HeapPages.AloneOutcome` | kernel/memory.c:526-544 | with the pool to itself the heap grows exactly if it stays within 28 MiB, and still has the pool to itself |
| `HeapPages.AloneFull` | kernel/memory.c:24-42 | a heap of 28 MiB has used the whole pool |
| `HeapPages.FreshSlot` | kernel/memory.c:184-185 | with nothing linked under slot 256 the count starts at zero |
| `Heap.AllocationKeeps` | kernel/memory.c:512-580 | an allocation adds one live block, large enough, and keeps tiling and coalescing, with or without growth |
| `Heap.AllocationRoundTrip` | kernel/memory.c:512-610 | without growth, allocate and free restores the identical list; with growth it gives the coalesced list of the larger heap with the old live blocks |
| `Heap.AllocationInNumbers` | kernel/memory.c:512-580 | the allocation relation is exactly: the best fit, or else the fewest whole pages behind the heap; a block more than 40 bytes over the rounded size is cut to it with a free block over the rest, any other is handed out whole and no block is added; all other blocks stay |
| `Heap.GrowthIsLeast` | kernel/memory.c:528-529 | the pages added are the fewest that hold a 24-byte header and the request |
| `Heap.StepCanonical` | kernel/memory.c:479-611 | a successful kmalloc or a kfree of a live block keeps the list tiled and coalesced |
| `Heap.RunCanonical` | kernel/memory.c:479-611 | in every state of every run of kmalloc and kfree the list tiles the heap and no two neighbours are free |
| `Heap.RunsAgree` | kernel/memory.c:479-611 | two runs that reach the same extent and live blocks reach the same list |
| `Heap.RunCanBeUndone` | kernel/memory.c:584-611 | from every reachable state, freeing the live blocks in any order leaves one block spanning the heap |
| `Heap.RequestIff` | kernel/memory.c:480-529 | in 64-bit words, the rounded size holds the request and the pages added hold it with a header if and only if the request is at most 2^64 - 4120 |
| `Heap.BootHeap` | kernel/memory.c:484-510 | from the boot state initialisation succeeds, takes exactly 4 of the 16 pool tables and leaves the pool to the heap: one free block of 4 MiB less 24 bytes at 0xFFFF800000000000 |
| `Heap.GrowToLimit` | kernel/memory.c:526-561 | one request takes a heap just initialised to exactly 28 MiB and the pool to its end |
| `Heap.KernelHeap.constructor` | kernel/memory.c:475-476 | an uninitialised heap |
| `Heap.KernelHeap.MapHeapPage` | kernel/memory.c:490-499 | maps one new frame present and writable, or leaves the backed range; exact success condition and table count; earlier heap pages and pages elsewhere unchanged |
| `Heap.KernelHeap.MapHeapPages` | kernel/memory.c:532-544 | all pages mapped to distinct new frames and still within 28 MiB, or failure with the old range intact; succeeds exactly if frames, pool and 28 MiB allow |
| `Heap.KernelHeap.InitHeap` | kernel/memory.c:484-510 | one free block over 4 MiB, or an uninitialised heap as before; exact success condition and table count |
| `Heap.KernelHeap.EnsureInitialised` | kernel/memory.c:484-510 | initialises once, storing only the first header |
| `Heap.KernelHeap.FindBestFit` | kernel/memory.c:513-523 | the earliest smallest fitting free block, NULL exactly if none fits; the walk ends |
| `Heap.KernelHeap.LastBlock` | kernel/memory.c:553-556 | the last block; the walk ends |
| `Heap.KernelHeap.MapBehind` | kernel/memory.c:532-544 | the pages behind the heap; alone with the pool and with frames left, exactly if 28 MiB are not exceeded |
| `Heap.KernelHeap.ExtendHeap` | kernel/memory.c:526-561 | a free block over the new pages is appended, or nothing changes; alone with the pool and with frames left, exactly if 28 MiB are not exceeded |
| `Heap.KernelHeap.AppendBlock` | kernel/memory.c:546-560 | the list grows by one block at the old heap end; only headers of the list are stored |
| `Heap.KernelHeap.FindOrExtend` | kernel/memory.c:513-561 | a fitting free block: the best fit or the appended one; NULL leaves all as it was |
| `Heap.KernelHeap.PlaceIn` | kernel/memory.c:563-580 | the list becomes the one with the block used whole or split, which `AllocationInNumbers` spells out in numbers |
| `Heap.KernelHeap.PlaceFound` | kernel/memory.c:563-580 | the allocation in the block that was found or added; the list stays coalesced |
| `Heap.KernelHeap.Allocate` | kernel/memory.c:512-580 | search, growth and placement together, with the header stores they make |
| `Heap.KernelHeap.Kmalloc` | kernel/memory.c:479-581 | a new live block at the pointer less 24, of at least the requested size and less than 44 bytes above it, by best fit or growth; cut from a block more than 40 bytes too large with the rest free behind it, else handed out whole; all other live blocks unchanged; NULL changes no block and means nothing fitted; heap_end stays below heap_max; header stores miss every payload live before or after; alone with the pool and with frames left, NULL exactly if the heap would exceed 28 MiB |
| `Heap.KernelHeap.HeapWritable` | kernel/memory.c:490-544 | in every state, all four entries the processor meets on its way to any heap address are present and writable |
| `Heap.KernelHeap.MarkFree` | kernel/memory.c:593-593 | the list with the block marked |
| `Heap.KernelHeap.MergeWithNext` | kernel/memory.c:596-599 | merges with the next block exactly if it is free |
| `Heap.KernelHeap.FindPrevious` | kernel/memory.c:602-605 | the predecessor, NULL exactly for the first block; the walk ends |
| `Heap.KernelHeap.MergeWithPrevious` | kernel/memory.c:602-610 | merges into the previous block exactly if it is free |
| `Heap.KernelHeap.Absorb` | kernel/memory.c:597-598 | a block takes over the size and link of its successor |
| `Heap.KernelHeap.ReleaseLive` | kernel/memory.c:592-610 | exactly that block leaves the live blocks; the list stays coalesced and only its headers are stored |
| `Heap.KernelHeap.Kfree` | kernel/memory.c:584-611 | NULL does nothing; otherwise exactly that block leaves the live blocks, the heap stays tiled and coalesced, and header stores miss every live payload |
| `VirtualMemory.PhysInjective` | kernel/elf.c:125-125 | different addresses on pages with distinct frames are different bytes of memory |
| `VirtualMemory.PrivateGrows` | kernel/elf.c:104-131 | mapping a new page to the next frame keeps frames distinct |
| `VirtualMemory.WrittenMore` | kernel/elf.c:164-164 | a store through the page tables changes the byte read there and no other on the pages |
| `VirtualMemory.WrittenBeside` | kernel/elf.c:164-164 | what lies beside a write reads as before |
| `KernelMemory.PrivateExtended` | kernel/memory.c:532-544 | a heap that grew has frames of its own, apart from those of every other kept page |
| `KernelMemory.HeaderRoundTrip` | kernel/memory.c:469-473 | the fields of a header are read back from its bytes |
| `KernelMemory.FieldsUnique` | kernel/memory.c:469-473 | the bytes at an address are the fields of one header only |
| `KernelMemory.WalksUnique` | kernel/memory.c:516-523 | following `next` through the bytes to NULL meets one list only |
| `KernelMemory.HeadersMiss` | kernel/memory.c:546-610 | header stores miss kept pages and live payloads |
| `KernelMemory.HeadersKeep` | kernel/memory.c:546-610 | after the header stores of a call, kept pages and live payloads read as before it |
| `KernelMemory.HeadersArrive` | kernel/memory.c:546-610 | after the header stores of a call, every header of the new list is in memory |
| `KernelMemory.StoreOutsideHeap` | kernel/elf.c:161-174 | a store outside the heap changes no byte of the heap and none on other kept pages |
| `KernelMemory.StoreInHeap` | kernel/memory.c:546-610 | a store to any heap address changes no byte on kept pages |
| `KernelMemory.AgreeKeeps` | kernel/elf.c:104-131 | mapping other pages changes nothing that is protected and leaves the headers in memory |
| `KernelMemory.PayloadApart` | kernel/memory.c:469-473 | a live payload is apart from headers, other live payloads and pages outside the heap |
| `KernelMemory.Memory.constructor` | kernel/memory.c:475-476 | whatever memory holds, the invariant holds before the heap is initialised |
| `KernelMemory.Memory.HeaderDecodes` | kernel/memory.c:469-473 | the bytes at a block's address decode to its size, the address of the next block and its free flag |
| `KernelMemory.Memory.ListInMemory` | kernel/memory.c:516-523 | a list is what following `next` through the bytes from the first block meets if and only if it is the heap's list |
| `KernelMemory.Memory.HeapApart` | kernel/memory.c:489-500 | a heap page and a kept page never share a frame |
| `KernelMemory.Memory.ValidMapped` | kernel/elf.c:104-131 | mapping one page outside the heap keeps the memory invariant, with the page among those kept |
| `KernelMemory.Memory.StoreByte` | kernel/elf.c:164-164 | a store goes to the frame that the walk finds |
| `KernelMemory.Memory.LoadByte` | kernel/elf.c:164-164 | a load comes from the frame that the walk finds |
| `KernelMemory.Memory.Copy` | kernel/elf.c:164-164 | `memcpy` byte by byte: read through the page tables, exactly the target range changed, to the bytes at the source |
| `KernelMemory.Memory.Zero` | kernel/elf.c:170-174 | exactly the given range reads as zero |
| `KernelMemory.Memory.Fetch` | kernel/elf.c:91-91 | the bytes that lie there |
| `KernelMemory.Memory.StoreHeaders` | kernel/memory.c:546-610 | the headers stored by the last call are in memory and no other byte changed |
| `KernelMemory.Memory.SettleHeaders` | kernel/memory.c:546-610 | after them the invariant holds for the new list and everything protected reads as before |
| `KernelMemory.Memory.Take` | kernel/elf.c:75-75 | `kmalloc` in memory: a new live block; kept pages and payloads live before read as before; only heap pages change their translation; NULL is counted as a refusal |
| `KernelMemory.Memory.Release` | kernel/elf.c:166-166 | `kfree` in memory: that block is live no more; kept pages and payloads read as before |
| `KernelMemory.Memory.Fill` | kernel/elf.c:82-82 | a store into a block's payload: it reads as the data; headers, other payloads and kept pages as before |
| `KernelMemory.Memory.CopyFromHeap` | kernel/elf.c:164-164 | a payload copied to pages outside the heap: the target reads as the data, the whole heap and other kept pages as before |
| `KernelMemory.Memory.ZeroOutside` | kernel/elf.c:170-174 | zeros on pages outside the heap, the whole heap and other kept pages as before |
| `ElfFormat.SegmentPage` | kernel/elf.c:99-113 | the k-th page of a segment has the k-th page number of its range |
| `ElfFormat.SegmentAddress` | kernel/elf.c:98-101 | every address of a segment lies on one of the pages computed for it |
| `ElfFormat.SegmentPagesNeeded` | kernel/elf.c:98-101 | no page more is mapped: every page computed for a segment holds an address of it |
| `ElfFormat.FileHeaderRoundTrip` | kernel/elf.h:49-64 | for every file header in the layout of elf.h, entry, table offset, entry size and count are read back, and it is accepted exactly with the magic number, class 2 and type 2 |
| `ElfFormat.PhdrRoundTrip` | kernel/elf.h:67-76 | every field of a program header in the layout of elf.h is read back |
| `ElfFormat.TableRoundTrip` | kernel/elf.c:90-91 | a table of program headers is read back entry by entry |
| `ElfFormat.PageFlags` | kernel/elf.c:115-122 | bit 0 is set, bit 1 exactly if the segment is writable, bit 2 exactly from 4 GiB on, and no other |
| `ElfImage.ReadInFile` | kernel/elf.c:153-158 | a complete read at the clamped offset is the segment's part of the file |
| `ElfImage.TableInFile` | kernel/elf.c:82-87 | a complete read of the table gives the program headers of the file |
| `ElfFormat.HeaderSlice` | kernel/elf.c:91-91 | entry i is read from its own 56 bytes |
| `ElfImage.LoadedPageOf` | kernel/elf.c:90-131 | the pages loaded so far are those of the loadable segments so far |
| `ElfImage.AllLoadedStay` | kernel/elf.c:90-175 | segments stay in place, with their permissions, while their pages are kept |
| `ElfImage.AllLoadedMore` | kernel/elf.c:90-175 | loading segment i leaves the segments before it in place |
| `Elf.VfsFile.Read` | kernel/fs/vfs.h:114-114 | may fail or be short, and counts that; otherwise the bytes at the position |
| `Elf.VfsFile.Seek` | kernel/fs/vfs.h:116-116 | may fail, and counts that; otherwise the position, at most the end |
| `Elf.Loader.MapFreshPage` | kernel/elf.c:105-130 | one page gets a frame of its own, apart from the heap's and every kept page's, and exactly the given flags, unless a call was refused; no other page changes |
| `Elf.Loader.MapSegmentPage` | kernel/elf.c:113-130 | page k of the segment is mapped, writable exactly if the segment is and user from 4 GiB on |
| `Elf.Loader.MapSegment` | kernel/elf.c:98-131 | all pages of the segment get frames of their own and the segment's permissions, exactly if no call was refused; nothing outside it changes |
| `Elf.SegmentApart` | kernel/elf.c:164-164 | a segment and a heap buffer do not overlap |
| `Elf.Loader.CopyOut` | kernel/elf.c:164-164 | the bytes in the heap buffer are copied to the segment; live payloads and other pages as before |
| `Elf.Loader.ReadAndCopy` | kernel/elf.c:153-164 | the file part goes through the heap buffer to its address, exactly if it is in the file and the read did not fail; only the buffer and the segment change |
| `Elf.Loader.LoadData` | kernel/elf.c:142-167 | the same with the buffer taken and released: live blocks, their payloads and kept pages as before on every path; success exactly if the part is in the file and no call failed |
| `Elf.Loader.LoadFilePart` | kernel/elf.c:142-167 | the file part, possibly empty, is in place |
| `Elf.Loader.ClearRest` | kernel/elf.c:170-174 | the bytes from filesz to memsz read as zero and the file part as before |
| `Elf.Loader.FillSegment` | kernel/elf.c:141-174 | the segment reads as its image; live payloads and kept pages as before |
| `Elf.Loader.LoadSegment` | kernel/elf.c:98-174 | the segment is in place with its permissions, exactly if its file part is in the file and no call failed; kept pages and live payloads, the program headers among them, read as before on every path |
| `Elf.TableStays` | kernel/elf.c:90-175 | the program headers in their heap block stay as they are |
| `Elf.Loader.FetchHeader` | kernel/elf.c:91-91 | program header i as it lies in the heap |
| `Elf.Loader.LoadNext` | kernel/elf.c:98-175 | one more segment in place and the program headers still in memory, or everything kept as before |
| `Elf.Loader.Turn` | kernel/elf.c:90-175 | one turn of the loop, from the header read from the heap |
| `Elf.Loader.LoadSegments` | kernel/elf.c:90-175 | after the loop every loadable segment is in place, exactly if all file parts are in the file and no call failed; kept pages and live payloads as before |
| `Elf.Loader.ReadTable` | kernel/elf.c:82-87 | the program headers of the file are in their heap block, exactly if the whole table is in the file and the read did not fail |
| `Elf.Loader.LoadFromTable` | kernel/elf.c:82-175 | the headers are those in the file, and their segments are loaded |
| `Elf.Loader.LoadAndRelease` | kernel/elf.c:82-178 | the header block is released on every path and the segments stay in place |
| `Elf.Loader.LoadTable` | kernel/elf.c:74-178 | the same from the allocation on |
| `Elf.Loader.LoadChecked` | kernel/elf.c:59-183 | every path from the header count on closes the file once; succeeds exactly if the file is complete, with at least one program header, and no call failed |
| `Elf.Loader.Load` | kernel/elf.c:11-183 | returns 1 exactly if the file is complete (good header, at least one program header, the whole table and every loadable file part, each below 4 GiB) and no file, frame, mapping or heap call failed; on success every PT_LOAD segment reads as its file bytes then zeros and has its permissions, on frames apart from the heap's and from pages loaded before; on every path live blocks, their payloads and pages loaded before are as they were, no page outside heap and segments changes its translation, and the file is closed as often as opened; the entry point is that of the header, set exactly if the header is good and was read |
| `Elf.LoadedBeside` | kernel/elf.c:11-183 | a program stays loaded while another one is loaded beside it |
| `Elf.Loader.LoadBoth` | kernel/elf.c:11-183 | after two successful loads both programs read as their files |
| `Scheduler.Selection` | kernel/scheduler.c:114-127 | a pass takes at most n steps and ends on a ready task unless no task is ready |
| `Scheduler.PassDeterministic` | kernel/scheduler.c:108-133 | the description of a pass determines its result |
| `Scheduler.PassInOrder` | kernel/scheduler.c:114-127 | a pass counts down the tasks behind the current one in ring order up to the new current one, each once, leaves the others alone, and stops at the first that is then ready or after a full round |
| `Scheduler.SleeperStep` | kernel/scheduler.c:119-127 | a pass selects the sleeper or lowers its budget, and takes off at most one tick |
| `Scheduler.SleeperRun` | kernel/scheduler.c:99-133 | over m passes without selection the budget falls by at least m and the ticks by at most m |
| `Scheduler.SleepUpperBound` | kernel/scheduler.c:99-133 | a task sleeping k ticks among n is selected, ready, within max(k,1)*n passes whatever others do |
| `Scheduler.SleepLowerBound` | kernel/scheduler.c:99-133 | and not in fewer than max(k,1) passes |
| `Scheduler.BoundedBypass` | kernel/scheduler.c:108-133 | a ready task becomes current within n-1 passes whatever others do |
| `Scheduler.ScannedStep` | kernel/scheduler.c:115-127 | one more visit continues the scan or completes the pass |
| `Scheduler.Scheduler.constructor` | kernel/scheduler.c:18-31 | all slots zombies, no task |
| `Scheduler.Scheduler.AddTask` | kernel/scheduler.c:34-86 | the next slot becomes a ready task; a full table is unchanged |
| `Scheduler.Scheduler.Advance` | kernel/scheduler.c:115-127 | one turn of the scan continues it or completes the pass |
| `Scheduler.Scheduler.VisitTask` | kernel/scheduler.c:118-126 | counts down one task in place |
| `Scheduler.Scheduler.Schedule` | kernel/scheduler.c:108-133 | the scan is a pass; nothing happens with fewer than two tasks |
| `Scheduler.Scheduler.Sleep` | kernel/scheduler.c:99-105 | the current task is asleep and a pass follows |
| `Timer.WaitStep` | kernel/timer.c:35-41 | the wait for the next pass falls by one per tick, also across the wrap |
| `Timer.PassWithinFive` | kernel/timer.c:35-41 | any five consecutive ticks contain a pass, even across the 32-bit wrap |
| `Timer.PassesFiveApart` | kernel/timer.c:35-41 | after a pass, and until the counter wraps, a pass runs on every fifth tick and on no other |
| `Timer.PassesAtWrap` | kernel/timer.c:35-41 | at the wrap two passes follow each other on neighbouring ticks, since 2^32 - 1 is a multiple of five |
| `Timer.StepBudget` | kernel/timer.c:35-41 | every tick without selection uses up at least one tick of the sleeper's budget |
| `Timer.SleeperTicks` | kernel/timer.c:35-45 | over a run without selection the budget falls by the number of ticks |
| `Timer.StartBudget` | kernel/timer.c:35-45 | the budget at the start of a sleep of k ticks is at most 5*max(k,1)*n timer ticks |
| `Timer.SleepTickBound` | kernel/timer.c:35-45 | a task sleeping k ticks among n is selected within 5*max(k,1)*n timer ticks |
| `Timer.Timer.Callback` | kernel/timer.c:35-45 | the tick is counted modulo 2^32 and a pass runs on multiples of five |
| `FatLayout.NoWrap` | kernel/fs/fat.c:140-164 | if the metadata fits, the areas follow each other, the cluster size is sectors per cluster times sector size, the FAT size and the number of sectors are the 16-bit fields unless these are 0, and the clusters are as many as end within the volume; FAT12 below 4085 clusters and FAT32 from 65525 on |
| `FatLayout.RootSectorsLeast` | kernel/fs/fat.c:140-142 | the root directory takes the fewest sectors that hold its entries |
| `FatLayout.ClustersInDataArea` | kernel/fs/fat.c:25-30 | every sector of a cluster lies behind reserved area, FATs and root directory and inside the volume |
| `FatLayout.ClustersDisjoint` | kernel/fs/fat.c:25-30 | no sector belongs to two clusters |
| `FatLayout.ClustersCover` | kernel/fs/fat.c:160-163 | every data sector but a tail shorter than a cluster belongs to a cluster |
| `FatLayout.LayoutFitsIff` | kernel/fs/fat.c:154-163 | for every boot sector with clusters, they lie between the metadata and the end of the volume if and only if the metadata fits; if its sum does not wrap, inside the volume if and only if it fits |
| `FatLayout.LayoutOverflows` | kernel/fs/fat.c:154-163 | a boot sector that mounts with more than 4 thousand million clusters, the first of them past the end of its 100 sectors |
| `FatLayout.SearchLimitIff` | kernel/fs/fat.c:91-91 | the 32-bit bound of a directory search admits every cluster if and only if `cluster_count + 2` does not wrap, and none if it does |
| `FatLayout.SearchLimitWraps` | kernel/fs/fat.c:91-91 | a boot sector that mounts as FAT32 and gives the bound 1, below its root cluster |
| `FatVolume.ReadSectors` | kernel/fs/fat.c:35-39 | succeeds exactly if all sectors are readable, and then holds their bytes |
| `FatVolume.ReadCluster` | kernel/fs/fat.c:33-41 | the bytes of the cluster, or failure exactly if a sector is unreadable |
| `FatVolume.BootOf` | kernel/fs/fat.h:29-76 | the boot sector's fields from their offsets, each within its width |
| `FatVolume.BootRoundTrip` | kernel/fs/fat.h:29-75 | every boot sector in the packed layout of fat.h is read back field by field |
| `FatVolume.MountedValid` | kernel/fs/fat.c:154-166 | the cluster size is 512 times the sectors per cluster and the number of clusters a 32-bit word |
| `FatVolume.Mount` | kernel/fs/fat.c:124-206 | the layout of the boot sector on the disk and the FAT's bytes, or failure exactly if the boot sector, the buffer or a FAT sector is missing; with clusters of at most 4096 bytes, a volume that meets what opening and reading ask for |
| `FatVolume.EntryOfFat32` | kernel/fs/fat.c:44-47 | the entry of a FAT of 32-bit little-endian words is the word without its upper four bits |
| `FatVolume.EntryOfFat16` | kernel/fs/fat.c:48-50 | the entry of a FAT of 16-bit little-endian words is the word |
| `FatVolume.SectorRunByte` | kernel/fs/fat.c:35-39 | byte k of a run of sectors is byte k % 512 of its sector k / 512 |
| `FatVolume.ChainAcyclic` | kernel/fs/fat.c:304-312 | a chain that ends visits no cluster twice |
| `FatVolume.ChainSlice` | kernel/fs/fat.c:283-298 | cluster j holds the j-th slice of the chain's bytes |
| `FatFile.ClusterNumberIsQuotient` | kernel/fs/fat.c:289-289 | the cluster number is the quotient and the offset the remainder |
| `FatFile.Advance` | kernel/fs/fat.c:301-305 | the cursor's cluster after reading on |
| `FatFile.SameClusterIff` | kernel/fs/fat.c:327-354 | two positions share a cluster of the volume only if they share a place in the chain |
| `FatFile.CurrentBytes` | kernel/fs/fat.c:283-298 | the file's bytes at a position are those of its cluster at the offset |
| `FatFile.FileByte` | kernel/fs/fat.c:25-41 | byte k of a file is a byte of the sector that its cluster number, its place in the cluster and the start of the data area give |
| `FatFile.NextCluster` | kernel/fs/fat.c:300-312 | where the cursor has to be after reading on, and that the chain ends only with the file |
| `FatFile.ReadToUnique` | kernel/fs/fat.c:268-317 | how far a read gets is determined by position, size and readable clusters |
| `FatFile.ReadToTwice` | kernel/fs/fat.c:268-317 | two reads get as far as one read of both |
| `FatFile.File.MoveOn` | kernel/fs/fat.c:300-312 | the cursor stays on the cluster of the position, stopping only at the end of the file |
| `FatFile.CopyChunk` | kernel/fs/fat.c:284-298 | the bytes of the cluster from the offset on, or failure exactly if it cannot be read |
| `FatFile.File.CopyCurrent` | kernel/fs/fat.c:284-298 | copies the file's bytes at the position |
| `FatFile.File.ReadChunk` | kernel/fs/fat.c:275-313 | one turn of the loop copies a non-empty slice, or none exactly if the cluster cannot be read |
| `FatFile.File.ReadLoop` | kernel/fs/fat.c:274-313 | the buffer holds the slice read so far and its other bytes as before |
| `FatFile.File.Read` | kernel/fs/fat.c:268-317 | returns the next bytes of the flat file, min(want, left) of them or up to the first cluster that cannot be read, leaves the rest of the buffer, and keeps the cursor |
| `FatFile.File.ReadSeries` | kernel/fs/fat.c:268-317 | any series of reads joins to one slice of the file and gets as far as one read, however it is split |
| `FatFile.File.Seek` | kernel/fs/fat.c:327-354 | the 32-bit position clamped to the size; the cursor is right afterwards if and only if the position stayed in its cluster |
| `FatFile.SeekLosesCluster` | kernel/fs/fat.c:327-354 | in every file of more than one cluster, a seek from the start to the second cluster leaves the cursor wrong |
| `FatFile.TwoClusterFile` | kernel/fs/fat.c:44-55 | a concrete file of two clusters on a FAT32 volume whose layout is the one computed from its boot sector |
| `FatFile.SeekExample` | kernel/fs/fat.c:327-354 | after the seek its cursor at byte 512 is on cluster 2, and byte 512 is in cluster 3 |
| `FatDir.ShortName` | kernel/fs/fat.c:64-89 | the upper-cased, truncated, padded 8.3 form, character by character |
| `FatDir.ShortForm` | kernel/fs/fat.c:64-89 | for a name with a dot: the part before the first dot in upper case, cut or padded to 8, and the part behind it, cut or padded to 3 |
| `FatDir.ShortFormNoDot` | kernel/fs/fat.c:64-89 | for a name without one: the name in upper case, cut or padded to 8, and three blanks |
| `FatDir.SameName` | kernel/fs/fat.c:106-106 | compares the eleven name bytes |
| `FatDir.ScanCluster` | kernel/fs/fat.c:96-111 | hit, end mark or neither in one cluster, as a linear search |
| `FatDir.StopsOnce` | kernel/fs/fat.c:97-111 | the linear search stops at one entry only |
| `FatDir.ScanInChain` | kernel/fs/fat.c:91-118 | what one cluster's scan says about the whole directory |
| `FatDir.SearchCluster` | kernel/fs/fat.c:92-111 | one turn of the cluster loop; unreadable exactly if the cluster is |
| `FatDir.NotFoundBehind` | kernel/fs/fat.c:92-94 | nothing is found at or behind a cluster that cannot be read |
| `FatDir.FoundHere` | kernel/fs/fat.c:106-110 | a hit behind clusters that were read is the one entry that is found |
| `FatDir.Visit` | kernel/fs/fat.c:92-111 | the result, if the search ends in this cluster |
| `FatDir.Lookup` | kernel/fs/fat.c:58-121 | finds exactly the first live matching entry before the first end mark and before the first cluster that cannot be read, and fails exactly when there is none or the 32-bit bound on cluster numbers wraps |
| `FatDir.Open` | kernel/fs/fat.c:222-259 | size and first cluster of the entry found; the file is ready for reading from position 0 |
| `FatDir.EntryRoundTrip` | kernel/fs/fat.h:78-91 | name, first cluster (upper and lower half) and size of an entry in the layout of fat.h are read back |
| `FatDir.ReadMounted` | kernel/fs/fat.c:222-317 | opening and reading from the start: succeeds exactly if the name is found, and byte k of the buffer is byte k of the file taken from its sector |
| `FatDir.ReadFile` | kernel/fs/fat.c:124-317 | the same from a disk: mounting, opening and reading succeed exactly if metadata and buffer are there and the name is found, and the bytes are those on the disk at the sectors that the boot sector gives |
| `Keyboard.HandleKeeps` | kernel/drivers/keyboard.c:51-55 | a character is accepted exactly when fewer than 255 are pending, and no unread slot is overwritten |
| `Keyboard.AdvanceKeeps` | kernel/drivers/keyboard.c:34-35 | taking the fetched character keeps the ring in order |
| `Keyboard.StepKeeps` | kernel/drivers/keyboard.c:29-37 | every step of the consumer keeps the queue invariant |
| `Keyboard.AcceptedWereTyped` | kernel/drivers/keyboard.c:40-62 | accepted characters are a subsequence of the typed ones |
| `Keyboard.DigitRow` | kernel/drivers/keyboard.c:17-17 | the keys from 2 on are 1234567890-= and backspace |
| `Keyboard.TopRow` | kernel/drivers/keyboard.c:18-18 | the keys from 15 on are tab, qwertyuiop[] and newline |
| `Keyboard.HomeRow` | kernel/drivers/keyboard.c:19-19 | the keys from 30 on are asdfghjkl;' and a backquote |
| `Keyboard.BottomRow` | kernel/drivers/keyboard.c:20-20 | the keys from 43 on are a backslash and zxcvbnm,./ and those at 55 and 57 are * and space |
| `Keyboard.SilentKeys` | kernel/drivers/keyboard.c:44-49 | a scan code gives no character exactly if it is 0, 1, 29, 42, 54, 56 or at least 58, releases among them |
| `Keyboard.InOrder` | kernel/drivers/keyboard.c:24-62 | under every interleaving the returned characters are a prefix of the accepted ones, and at most 255 are pending |
| `Keyboard.Driver.HasInput` | kernel/drivers/keyboard.c:24-26 | true exactly if an accepted character was not returned |
| `Keyboard.Driver.Handler` | kernel/drivers/keyboard.c:40-62 | the in-place handler is the step of the model |
| `Keyboard.Driver.GetChar` | kernel/drivers/keyboard.c:29-37 | the next accepted character, or 0 exactly if there is none |
| `Keyboard.FourSteps` | kernel/drivers/keyboard.c:29-37 | the four steps of a call take the oldest unread character |
| `Console.PutAll` | kernel/drivers/console.c:76-80 | the unbounded terminal stays well formed: the cursor within its last 25 rows and 80 columns |
| `Console.HistoryKept` | kernel/drivers/console.c:85-102 | rows that scrolled off never change |
| `Console.PlainText` | kernel/drivers/console.c:53-63 | character k of plain text lands in column k % 80, k / 80 rows down |
| `Console.Layout` | kernel/drivers/console.c:34-80 | for every text without backspaces and every start: column and row of the cursor, the number of rows and every cell, from the positions of newlines, returns and full rows in the text |
| `Console.TwoLines` | kernel/drivers/console.c:36-43 | two short lines with a newline between them stand one below the other; with a return, the second stands over the first |
| `Console.BackspaceErases` | kernel/drivers/console.c:45-51 | a backspace undoes a character, leaving a blank |
| `Console.BackspaceLaw` | kernel/drivers/console.c:45-51 | a backspace blanks the cell before the cursor and goes back to it, does nothing in column 0, and changes no other cell |
| `Console.ShowsScroll` | kernel/drivers/console.c:85-102 | shifted cells show the rows with a blank one added |
| `Console.Console.constructor` | kernel/drivers/console.c:10-18 | a blank screen |
| `Console.Console.Clear` | kernel/drivers/console.c:20-30 | a blank screen with the cursor at the top left |
| `Console.Console.Scroll` | kernel/drivers/console.c:85-102 | every row moves up by one and the last is blank |
| `Console.Console.MoveRowUp` | kernel/drivers/console.c:88-92 | one row is copied over the row above it |
| `Console.Console.WrapAndScroll` | kernel/drivers/console.c:59-68 | the two checks bring the cursor back on the screen |
| `Console.Console.Putchar` | kernel/drivers/console.c:34-72 | the screen shows the last 25 rows of the terminal after the character, with row < 25 and column < 80; what the terminal shows is given by `Layout` and `BackspaceLaw` |
| `Console.Console.Write` | kernel/drivers/console.c:76-80 | the same for a whole string up to its zero; without backspaces, cursor and every cell are where the layout of the text puts them |

## Left out

- Vmm.Vmm.AllocPhysicalPage: the counter wraps after 2^52 - 512 frames; from the call after that on frames repeat, so every claim about distinct frames is stated for states up to that call.
- Vmm.Vmm.MapPage: flags of 4096 and above, and large-page entries, are outside the model; so are TLB flushes and CR3.
- Vmm.Vmm.SetPageFlags: flags of 4096 and above.
- Heap.KernelHeap.Kmalloc: sizes above 2^64 - 4120, where a C sum wraps and the rounded size or the pages added no longer hold the request (`Heap.RequestIff`).
- Heap.KernelHeap.Kfree: pointers that are not live; the C code does not detect them.
- KernelMemory.Memory.StoreHeaders: the header stores of a call reach memory when the call ends, in any order, instead of one by one during it.
- Elf.Loader.Load: executables outside the assumptions above (another `e_phentsize`, segments that share pages), and a load entered after the frame counter came round; then the frames of heap and segments can coincide, the program headers can be overwritten while they are in use, and nothing can be promised. Page tables are kept apart from these bytes. The `vfs` layer is by contract; `fat_seek` alone does not meet that contract, as `FatFile.SeekExample` shows.
- Elf.Loader.Turn: the fields of a program header are read once at the start of its turn. The source reads them again later in the turn; the block they are in is kept throughout.
- Elf.VfsFile.Seek: other origins than the start, and negative offsets, which the loader does not use.
- FatFile.File.Seek: what is read after a seek that leaves the cluster is not claimed.
- FatDir.Open: FAT12 and FAT16 opening is a placeholder in the source; the path, flags and attributes copied to the file are not modelled.
- FatVolume.Mount: sector sizes other than 512, and a FAT of 4 GiB or more.
- Scheduler.Scheduler.AddTask: registers and the mapping of stacks, which use addresses inside the heap's range; claims about the heap are for runs without them.
- Keyboard.Driver.Handler: reading the port and the end-of-interrupt signal.
- Console.Console.Putchar: the hardware cursor.
- Boot code, assembly, APIC, PIC, PIT and IDT set-up, ATA polling, the memory map and `init_pmm`.
- `process.c`, `syscall.c`, `user_mode.c` and the stubs of `fat.c` (write, readdir, stat): tables and drivers that would add only easy members.
