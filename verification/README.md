# OS_Mine: a verified model

OS_Mine is a small x86-64 kernel with a user library. This project models its memory manager, its
scheduler and blocking protocol, its FAT32 file layer, the user library's heap, its spin lock and
the start of the other processors, the memory map of its boot loader, and its number printer, and
proves what they keep and compute. `dafny verify dfyconfig.toml` checks everything. Nothing was
executed.

How it is laid out. Each part has a specification on values (functions that make the same decisions
as the C code, with its constants, error answers and 64-bit arithmetic where it matters), lemmas
about that specification, and, where the C code changes things step by step, classes whose methods
have the same loops and updates and leave exactly the specified state.

| files | what they model |
|---|---|
| Sequences, Words, Frames | sequences without repetition, machine words, and the bitmap of 2 MB frames |
| Slabs, SlabBooks, SlabOwnership, SlabSteps, SlabCalls, SlabSafety, SlabBoot, SlabAllocator | kmalloc and kfree: balances, who holds what, whole calls, whole runs, boot, and the running code |
| Paging, PagingSteps, PagingMaps, PagingClear, KernelHalf, PageTables | page tables and address spaces |
| Brk, BrkRuns, Fork, FrameBudget | the heap of a process, runs of sys_brk, what fork does to address spaces, and how many frames suffice |
| Scheduling, RunQueue | one CPU's run queue and its accounting |
| WaitProtocol, DiskQueue | sleep, wakeup and the disk request queue |
| UserHeap, UserBrk, MallocList | malloc and free of the user library, and the brk they rely on |
| FatFiles, FatRoundTrip, FatLibrary, FatDisk | chains, reads and writes, many files, and the table on the disk |
| SpinLock, SmpBoot | every interleaving of the lock and of the hand-off at start |
| MemoryMap | the E820 table |
| Numbers, NumberPrinter | number and skip_atoi |

Where the code does not do what it seems meant to do, the model does what the code does; a lemma
gives an input that shows it, and another says exactly when the code is right:

- free_pages never advances its address: right exactly for one frame (`Frames.ReleaseConsistentIff`).
- alloc_pages reads one word behind the bitmap: `Frames.AllocStaysInside`.
- Init_Mem reserves frames up to the start of the Page array, kernel_slab_init from its end on: `SlabBoot.BootSoundIff`.
- kmalloc does not test the page it got: it faults exactly for want of frames (`SlabCalls.KmallocCorrect`).
- sys_brk below start_brk unmaps the program image: `Brk.SysBrkIff`.
- fork copies at most one heap page but the whole end_brk: `Fork.ForkHeapIff`.
- insert_task_queue drops tasks with small pids: `Scheduling.ScheduleLosesIff`.
- the quantum is renewed only at exactly zero, and with five or more tasks by zero: `Scheduling.RefillIff`, `Scheduling.SliceEndsIff`, `Scheduling.OnceNegativeForEver`.
- AHCI_REQ tests the flag of the request in service, not its own: `WaitProtocol.RequestBlocksIff`, `WaitProtocol.CompleteSafeIff`.
- user malloc answers 24 when it reuses an empty descriptor, writes a header before it asks for room, and does not notice sums beyond 64 bits: `UserHeap.MallocCorrect`.
- FAT32_read and FAT32_write forget the offset too early: `FatFiles.ReadExact`, `FatRoundTrip.StoresIff`, `FatRoundTrip.ReadsBackIff`, `FatRoundTrip.WriteMisplaced`. The search for a free cluster writes instead of reading: `FatRoundTrip.CodedWriteIff` says what a write as coded does at every position of a file. The first write to an empty file fails, and so does a write right behind the last cluster: `FatRoundTrip.FirstWriteFails`, `FatRoundTrip.WriteBehindFails`. Theorems that take the search's disk command as a parameter speak both of the code and of a search that reads; `FatRoundTrip.WriteExact`, `FatFiles.WritesInOrder` and `FatLibrary.RunKept` are about a search that reads, and hold of the code as far as `FatRoundTrip.CodedWriteIff` says that it does the same.
- global_i is not protected by the lock at start: `SmpBoot.IndexRightIff`, `SmpBoot.IndexRaces`.
- in base 2 number overruns its 50 cells: `Numbers.CellsSuffice`, `NumberPrinter.Format`.

## Model

| member | source | states |
|---|---|---|
| Words.BitsUpdate | Kernel/Mem.c:56-57 | setting or clearing bit i % 64 of word i / 64 is setting or clearing bit i of the whole map |
| Frames.FindRunIsFirstFit | Kernel/Mem.c:279-292 | the search result is the least start at or after the given one with all bits of the run clear, and there is no result exactly when no such start exists |
| Frames.MaskedWindow | Kernel/Mem.c:280-282 | the window masked with the low ones is zero exactly when the run starting there is free |
| Frames.FrameAllocator.Window | Kernel/Mem.c:282 | the word spliced from two neighbouring words holds the 64 bits from offset j of word i on |
| Frames.FrameAllocator.RunStartsAt | Kernel/Mem.c:280-282 | the test of the inner loop is true exactly when the run that starts at 64 i + j is free |
| Frames.FrameAllocator.SearchWord | Kernel/Mem.c:281-292 | the loop over the offsets of one word finds the first run that starts there, or shows that none does |
| Frames.FrameAllocator.Search | Kernel/Mem.c:279-293 | the loop over the words, with the loop over offsets inside, computes first fit |
| Frames.AllocCorrect | Kernel/Mem.c:270-296 | alloc_pages refuses exactly sizes outside 1..63; it returns the least free run, sets exactly its bits, keeps Used_Pages equal to the set bits below No_Page, and answers nothing only if no run exists |
| Frames.AllocMarks | Kernel/Mem.c:283-289 | the frames of the run, and no others, get the attributes and one more reference, and Used_Pages grows by their number |
| Frames.AllocOne | Kernel/Mem.c:270-296 | for one frame: the least free frame, or nothing exactly when no frame is free; never a frame beyond No_Page, whatever follows the bitmap |
| Frames.AllocStaysInside | Kernel/Mem.c:279-283 | no state makes alloc_pages leave the bitmap exactly when one frame is asked for, or No_Page is no multiple of 64, or the first bit behind the bitmap is set |
| Frames.LastFreeOverruns | Kernel/Mem.c:282-290 | a state in which a run of two or more frames crosses the end of the Page array |
| Frames.RunStopsAtSetBit | Kernel/Mem.c:279-283 | a set bit behind the last frame keeps every run inside |
| Frames.FrameAllocator.AllocPages | Kernel/Mem.c:270-296 | the method leaves the state and result of the specified allocation, for every request; wild exactly when the run leaves the Page array |
| Frames.FrameAllocator.MarkRun | Kernel/Mem.c:283-289 | exactly the frames of the run get the bit, the attributes and one more reference |
| Frames.ReleaseConsistentIff | Kernel/Mem.c:298-320 | free_pages keeps the count and the references right exactly when it frees one frame that was in use; only the frame of the address becomes free, and no other frame changes |
| Frames.AllocReleaseRoundTrip | Kernel/Mem.c:270-320 | freeing the frame just allocated restores the whole state |
| Frames.FrameAllocator.FreePages | Kernel/Mem.c:298-320 | the method leaves the state and result of the specified release, for every address; lost exactly when the source spins on a misaligned address or reads behind the Page array |
| Slabs.ClassFor | Kernel/Mem.c:156-161 | the class found is the first one whose size is large enough |
| Slabs.SizeFacts | Kernel/Mem.c:104-106 | every class size divides a page, is a multiple of 8, and the inline classes are those up to 512 bytes |
| Slabs.LayoutFacts | Kernel/Mem.c:190-201 | blocks, header and colour map of an inline slab fit its page; headers belong to class 2 and colour maps to classes 0 to 3, so the recursion stays below 512 bytes |
| Slabs.CountIsMost | Kernel/Mem.c:190-201 | a new slab has as many blocks as fit: a large one fills its frame, a small one leaves room for header and map and less than a block more |
| SlabBooks.ScanIsFirst | Kernel/Mem.c:167-173 | the colour scan finds the least clear bit, or nothing exactly if none is clear |
| SlabBooks.ScanFinds | Kernel/Mem.c:167-173 | a slab whose free counter is not zero has a clear colour bit |
| SlabBooks.WalkFinds | Kernel/Mem.c:163-186 | a walk that finds no slab has passed only slabs with no free block |
| SlabBooks.FastFinds | Kernel/Mem.c:163-186 | when total_free is not zero the walk ends at the first slab of the list with a free block, and the scan at its least free block |
| SlabBooks.FlippedOkIff | Kernel/Mem.c:236-240 | a slab's counters and colour map still agree after the toggle exactly when the block was in use |
| SlabBooks.TakeKeepsBooks | Kernel/Mem.c:173-182 | handing out a clear block keeps every per-slab and per-class balance |
| SlabBooks.ToggleKeepsBooksIff | Kernel/Mem.c:236-242 | the toggle of kfree keeps all balances exactly when the block was in use: a second kfree of the same block breaks them |
| SlabBooks.NewMapFacts | Kernel/Mem.c:210-213 | a fresh colour map has its first block taken, the others free, and the padding bits set |
| SlabBooks.NewSlabOk | Kernel/Mem.c:203-213 | a new slab is in balance with exactly block 0 in use |
| SlabBooks.AddSlabKeepsBooks | Kernel/Mem.c:203-219 | linking a balanced slab and adding its counters keeps all balances |
| SlabBooks.DetachKeepsBooks | Kernel/Mem.c:244-256 | unlinking an empty slab that is not the initial one keeps all balances |
| SlabBooks.DetachKeepsOrder | Kernel/Mem.c:247-256 | unlinking a slab leaves the others of its class in the order they were in, and the other classes alone |
| SlabBooks.DetachLeavesHalf | Kernel/Mem.c:244-256 | giving a slab back leaves at least half a slab, and at least one block, free in its class |
| SlabOwnership.BlockAddress | Kernel/Mem.c:182 | the address of block j lies in its frame, is aligned to the class size, and gives frame and index back |
| SlabOwnership.Apart | Kernel/Mem.c:182 | two different multiples of the block size are a block apart |
| SlabOwnership.LiveTake | Kernel/Mem.c:173-182 | handing out a block makes exactly this address live |
| SlabOwnership.LiveToggle | Kernel/Mem.c:233-242 | freeing a block makes exactly this address not live |
| SlabOwnership.LiveAdd | Kernel/Mem.c:188-222 | a new slab makes exactly its first block live, and that was not live before |
| SlabSteps.TakeKeepsInv | Kernel/Mem.c:163-186 | the block handed out was nobody's, and the invariant holds with the caller as its holder |
| SlabSteps.ToggleKeepsInv | Kernel/Mem.c:233-243 | freeing a held block keeps the invariant with nobody holding it |
| SlabSteps.FrameTakenKeepsInv | Kernel/Mem.c:270-296 | a frame from alloc_pages is no slab's, nobody's, not the kernel's, and the slab layer's invariant holds on |
| SlabSteps.FrameGivenKeepsInv | Kernel/Mem.c:298-320 | giving back a held frame keeps the slab layer's invariant |
| SlabSteps.AddInlineKeepsInv | Kernel/Mem.c:188-222 | a frame becomes a slab with its header and map inside, without touching any other block |
| SlabSteps.AddExternalKeepsInv | Kernel/Mem.c:198-222 | two held blocks become the header and the map of a new slab of a large class |
| SlabSteps.DetachKeepsInv | Kernel/Mem.c:244-257 | unlinking an empty slab keeps the invariant; its frame, and for a large class its two blocks, are free to be given back |
| SlabSteps.EmptyHoldsNothing | Kernel/Mem.c:244-257 | a slab with using_count 0 contains no held block, no header and no colour map |
| SlabCalls.FastCorrect | Kernel/Mem.c:163-186 | kmalloc from a class with free blocks hands out a new block of the class and changes no other class and no frame |
| SlabCalls.AllocSmallCorrect | Kernel/Mem.c:187-222 | kmalloc of a class up to 512 bytes faults exactly when the class is dry and no frame is free |
| SlabCalls.AllocLargeCorrect | Kernel/Mem.c:187-222 | growing a large class takes the frames counted by FramesNeeded, faults exactly when fewer are free, and hands out a new block |
| SlabCalls.KmallocCorrect | Kernel/Mem.c:145-226 | kmalloc answers NULL exactly above 1 MB, never spins, faults exactly when fewer frames are free than it needs, and otherwise hands out one block of the first large enough class that nobody had, keeping the invariant; a frame it takes becomes a slab at the end of its list |
| SlabCalls.ThreeFramesSuffice | Kernel/Mem.c:187-193 | with three frames free, kmalloc of a legal size succeeds and takes at most three |
| SlabCalls.FreeSmallCorrect | Kernel/Mem.c:228-259 | kfree of a held block up to 512 bytes succeeds and keeps the invariant |
| SlabCalls.FreeLarge | Kernel/Mem.c:249-257 | giving back a large slab frees its map, its frame and its header, in this order, and nothing a caller holds |
| SlabCalls.KfreeCorrect | Kernel/Mem.c:228-268 | kfree of a held block succeeds and takes exactly this block from the callers. Its slab goes exactly if this was its last used block, it is not the initial one, and its class has one and a half times its blocks free; then its frame is free, and for a large class its header and map are blocks in nobody's hands; else nothing but the block changes. Each slab that goes gives back one frame |
| SlabSafety.LiveBlockPlace | Kernel/Mem.c:182 | a live block lies in its slab's frame, in the space for blocks, aligned to its size |
| SlabSafety.LiveBlocksApart | Kernel/Mem.c:145-268 | two live blocks of any classes and slabs never overlap |
| SlabSafety.HeldClearOfMetadata | Kernel/Mem.c:190-201 | a held block overlaps no slab header and no colour map, inside slabs or elsewhere |
| SlabSafety.OwnMetadataApart | Kernel/Mem.c:190-201 | header and colour map of one slab do not overlap |
| SlabSafety.MetadataApart | Kernel/Mem.c:98-143 | headers and colour maps of two slabs do not overlap, whether they lie below the slabs, inside their slab, or in blocks |
| SlabSafety.ExecSound | Kernel/Mem.c:145-320 | every legal call of the four allocator entry points keeps the invariant and loses no frame; the null page is met only by kmalloc with fewer than three free frames |
| SlabSafety.SoundIsSafe | Kernel/Mem.c:145-268 | the invariant means that held blocks are apart from each other, from all headers and maps and from frames handed out, and that headers and maps are apart from each other |
| SlabSafety.ReachableSafe | Kernel/Mem.c:145-320 | in every state reachable by legal calls all this holds, and every frame is still free, a slab, or in a caller's hands |
| SlabSafety.MasksRecover | Kernel/lib.h:601-606 | the 4 KB mask keeps a table address whole, and the 32 KB mask of any stack address gives the task structure |
| SlabBoot.InitMemConsistent | Kernel/Mem.c:38-58 | after Init_Mem exactly the reserved frames are taken, with their attributes, and the count is right |
| SlabBoot.BootSoundIff | Kernel/Mem.c:98-143 | whatever the first bit behind the bitmap, the state after Init_Mem and kernel_slab_init meets the allocator's invariant, which includes that the sixteen headers and maps are apart, exactly when the Page array ends in the same 2 MB frame range it starts in |
| SlabBoot.MapsFollow | Kernel/Mem.c:106-116 | each initial colour map begins behind the one before, with 80 bytes between from an aligned address on |
| SlabBoot.BootHasFrames | Kernel/Mem.c:98-143 | kernel_slab_init finds the sixteen frames of its initial slabs whenever sixteen are left behind the kernel's own structures, whatever word follows the bitmap |
| SlabBoot.BootUnsound | Kernel/Mem.c:38-143 | a machine whose boot ends without the invariant |
| SlabAllocator.Scan | Kernel/Mem.c:167-173 | the scan that skips full words finds the least clear bit |
| SlabAllocator.FreshMap | Kernel/Mem.c:210-213 | all ones, then the bits of the blocks flipped: the specified map |
| SlabAllocator.FindClass | Kernel/Mem.c:156-161 | the search loop returns the specified class |
| SlabAllocator.Kernel.Walk | Kernel/Mem.c:163-166 | the do-while walk from the initial slab ends at the first slab with a free block |
| SlabAllocator.Kernel.Kmalloc | Kernel/Mem.c:145-226 | the method leaves the state and answer of the specified kmalloc |
| SlabAllocator.Kernel.GrowSmall | Kernel/Mem.c:187-222 | the growth of an inline class as specified |
| SlabAllocator.Kernel.GrowLarge | Kernel/Mem.c:187-222 | the growth of a large class with its two nested kmalloc calls as specified |
| SlabAllocator.Kernel.FindSlab | Kernel/Mem.c:232-262 | the search over all classes and slabs finds the slab of the address's frame, if there is one |
| SlabAllocator.Kernel.Kfree | Kernel/Mem.c:228-268 | for every address, held or not, the method leaves the state and answer of the specified kfree; it crashes exactly where the index lies behind the colour map |
| SlabAllocator.Kernel.GiveBackLarge | Kernel/Mem.c:249-257 | unlinking a large slab with the nested kfree calls and free_pages in the order of the source |
| SlabAllocator.InvSearchable | Kernel/Mem.c:228-268 | the allocator's invariant gives what the running kfree relies on: complete lists, existing frames, and headers and maps outside large slabs |
| Paging.SlotsInjective | Kernel/Mem.c:374-410 | two addresses have the same three table indices exactly when they have the same 48-bit page number |
| Paging.RangeSlotsDiffer | Kernel/Mem.c:373-410 | pages of one range of at most 2^27 pages never share a slot |
| PagingSteps.LeafWalks | Kernel/Mem.c:408-410 | writing a leaf changes what its slot means in this space and in those that share the table, and nothing else anywhere |
| PagingSteps.FlagsKeepWalks | Kernel/Mem.c:390 | or-ing flags into an upper entry changes no translation |
| PagingSteps.NewKeepsWalks | Kernel/Mem.c:376-389 | hanging a fresh empty table below an empty entry changes no translation |
| PagingSteps.FreshTable | Kernel/Mem.c:380-385 | a block from kmalloc is no table yet, and not at address zero |
| PagingSteps.HangTable | Kernel/Mem.c:376-407 | a fresh table below an empty upper entry keeps the tables a tree, changes no translation, and adds one held block |
| PagingMaps.EnsureCorrect | Kernel/Mem.c:374-407 | after one upper level is made sure of, the tables are well formed, no translation changed, and the entry leads to a table |
| PagingMaps.MapPageCorrect | Kernel/Mem.c:373-410 | one round of pagetable_init maps its page and moves nothing else; the entries of the two upper levels on its way gain exactly the attributes of their level, and no other upper entry gains or loses a flag |
| PagingMaps.MapPagesCorrect | Kernel/Mem.c:373-411 | the whole loop maps page k to physical page k for every k, and moves nothing else |
| PagingMaps.MapThenTranslate | Kernel/Mem.c:359-435 | after mapping up to 2^27 aligned pages every address of the range translates to its offset from the physical base, and every level on its way carries its attributes, so that an access the attributes allow is let through; every other address, and other spaces outside shared tables, translate as before, and no other upper entry gains or loses a flag; zero is returned exactly for misaligned addresses |
| PagingClear.ClearStep | Kernel/Mem.c:333-350 | one round of pagetable_clear stops exactly where an upper level is missing; else it unmaps its page in this space and those that share the table, and nothing else |
| PagingClear.ClearCorrect | Kernel/Mem.c:322-357 | pagetable_clear unmaps exactly the pages in front of the first one without tables, moves nothing else, and returns what the last of them was backed by |
| PagingClear.MapThenClear | Kernel/Mem.c:322-416 | pagetable_clear undoes pagetable_init: the range is unmapped, every other translation of every space is as before both, and all are if the range was unmapped before |
| KernelHalf.FillKernelCorrect | Kernel/main.c:145-152 | filling the upper 256 entries leaves them all present, the new ones with the given flags and the others with theirs, without changing a translation |
| KernelHalf.SharingIsKernelHalf | Kernel/Task.c:182-185 | two spaces share the table below an upper entry exactly in the kernel half |
| KernelHalf.InheritCorrect | Kernel/Task.c:176-188 | the copied PML4 has the parent's entries in the kernel half and nothing in the user half, and no other space changes |
| KernelHalf.MappingAndSpaces | Kernel/Task.c:173-189 | after any mapping all spaces agree on kernel addresses, and a user mapping leaves the other spaces alone |
| Brk.RoomForOneMore | Kernel/Task.c:543-547 | a heap of different frames stays in the user half |
| Brk.GrowStep | Kernel/Task.c:543-547 | one turn of growing adds one page on a frame nobody had, with the attributes on every level |
| Brk.HeapAttributes | Kernel/Task.c:529-542 | heap pages are present and writable on every level, and a user's exactly if the task is no kernel thread |
| Brk.GrowCorrect | Kernel/Task.c:543-556 | growing adds pages on new frames in order; if frames run out, end_brk is the end of what was mapped |
| Brk.ClearMapped | Kernel/Mem.c:322-357 | pagetable_clear of a mapped page returns what pagetable_init stored and unmaps that page only |
| Brk.ShrinkStep | Kernel/Task.c:514-520 | one turn of shrinking unmaps the last page and gives back its frame |
| Brk.ShrinkCorrect | Kernel/Task.c:513-528 | shrinking to a limit at or above start_brk unmaps and frees exactly the pages above it |
| Brk.SysBrkCorrect | Kernel/Task.c:502-562 | sys_brk at or above start_brk: the pages of the heap are exactly the mapped ones, each on its own frame and let through by every level; the frames of the process are those of the heap and the others it had; other pages and spaces are untouched |
| Brk.SysBrkIff | Kernel/Task.c:502-562 | sys_brk leaves a well-formed heap exactly for arguments that round to zero or to start_brk and above; a smaller one unmaps the program image |
| BrkRuns.BrksCorrect | Kernel/Task.c:502-562 | after any sequence of sys_brk calls that stay at or above start_brk the heap is exactly the mapped pages, each on its own frame and let through by every level, no frame is lost or shared, and the rest of this space and all others are as before |
| Fork.NewSpaceCorrect | Kernel/Task.c:173-189 | the new address space has an empty user half and the parent's entries in the kernel half |
| Fork.NewSpaceBlocks | Kernel/Task.c:136-176 | the new task takes three blocks nobody had: 32 KB for the task and its stack, one for the mm_struct, 4 KB for the PML4 |
| Fork.BackPageCorrect | Kernel/Task.c:194-214 | backing one user page of the child changes only that page, which every level lets through |
| Fork.ForkCorrect | Kernel/Task.c:160-246 | fork leaves every existing space as it was; the child shares the kernel half and has the image page and at most one heap page, each on a new frame and let through by every level |
| Fork.ForkHeapIff | Kernel/Task.c:241-260 | the child's heap is well formed exactly when it starts empty or the parent's heap has at most one page |
| FrameBudget.EnsureFrames | Kernel/Mem.c:374-407 | one level faults exactly when its entry is empty and fewer frames are free than kmalloc needs for a table, and takes exactly those |
| FrameBudget.MapPageFrames | Kernel/Mem.c:373-410 | one page needs at most six free frames for its tables |
| FrameBudget.PagetableFrames | Kernel/Mem.c:359-416 | pagetable_init of n pages succeeds whenever 6 n frames are free, and takes no more |
| FrameBudget.SysBrkMet | Kernel/Task.c:502-562 | with seven free frames for each page to add, sys_brk answers the request rounded up to pages |
| FrameBudget.ForkSucceeds | Kernel/Task.c:160-246 | with 23 free frames fork meets no null page |
| PageTables.AddressSpaces.EnsureTable | Kernel/Mem.c:374-390 | one level of a round, as specified |
| PageTables.AddressSpaces.MapOne | Kernel/Mem.c:373-410 | one round of pagetable_init, as specified |
| PageTables.AddressSpaces.PagetableInit | Kernel/Mem.c:359-416 | the method leaves the tables and the answer of the specified pagetable_init |
| PageTables.AddressSpaces.VirtualToPhysical | Kernel/Mem.c:418-435 | the method computes the specified translation |
| PageTables.AddressSpaces.PagetableClear | Kernel/Mem.c:322-357 | the method leaves the tables and the answer of the specified pagetable_clear, for any number of pages |
| PageTables.Process.GrowTo | Kernel/Task.c:543-556 | the growing loop, as specified |
| PageTables.Process.ShrinkTo | Kernel/Task.c:513-528 | the shrinking loop, as specified, to any limit, also below start_brk |
| PageTables.Process.Brk | Kernel/Task.c:502-562 | sys_brk, as specified, for every argument: the memory, end_brk and the returned value |
| Scheduling.PlaceFacts | Kernel/lib.h:621-625 | the walk ends behind the tasks with smaller and before those with not smaller vrun_time |
| Scheduling.InsertKeeps | Kernel/lib.h:612-629 | insertion keeps the queue sorted and counted; the task is queued exactly when it is not the idle task and its pid is not below running_task_count |
| Scheduling.DequeueKeeps | Kernel/Task.c:782-794 | the task taken off has the least vrun_time and the rest of the queue stays |
| Scheduling.TickKeeps | Kernel/Time.c:134-155 | a tick keeps the invariant and conserves vrun_time plus CPU_exec_task_jiffies |
| Scheduling.TickCharges | Kernel/Time.c:134-155 | priorities 0 and 1 are charged one and all others two; the task is marked as soon as the quantum is used up; nothing else changes |
| Scheduling.ScheduleKeeps | Kernel/Task.c:795-856 | after schedule the queue is sorted, running_task_count is one more than its length, so the division is by at least one, and no accounting changed |
| Scheduling.ScheduleClears | Kernel/Task.c:800 | schedule clears the mark of the task that called it, and changes no other field of any task |
| Scheduling.ScheduleSwitches | Kernel/Task.c:814-842 | the current task keeps the CPU exactly if it is running and nobody queued has a smaller vrun_time; else the least one gets it, and the switch is counted |
| Scheduling.ScheduleChoosesLeast | Kernel/Task.c:795-856 | the task that runs after schedule has at most the vrun_time of every queued task |
| Scheduling.ScheduleLosesIff | Kernel/lib.h:616 | a runnable task disappears from the CPU exactly when it is the one put back and its pid is below running_task_count |
| Scheduling.LostTask | Kernel/lib.h:616 | three runnable tasks with pids 1, 2, 3 of which one is lost |
| Scheduling.RefillIff | Kernel/Task.c:818-829 | schedule gives a new quantum exactly when the old one is zero and at most four tasks compete, namely 4 over their number, times 3 for a task charged by twos; with five or more the new quantum is zero again |
| Scheduling.CountsAfter | Kernel/Task.c:795-829 | running_task_count after schedule, from the state before it, and that it is at least one |
| Scheduling.SliceEndsIff | Kernel/Task.c:818-829 | the slice that follows a used-up quantum meets zero exactly when at most two tasks compete, or at most four and the running one is charged by ones; otherwise it passes below zero |
| Scheduling.NeverFarAhead | Kernel/Time.c:134-155 | in any run of ticks and schedules the running task is at most 12 ahead of every queued one |
| Scheduling.OnceNegativeForEver | Kernel/Task.c:818 | a quantum below zero is never set again, and every later tick asks for rescheduling |
| Scheduling.SliceOfThreeDies | Kernel/Task.c:818-829 | an instance: with three or four tasks of priority 2 the slice just given ends at -1 |
| RunQueue.IsEmpty | Kernel/lib.h:39-46 | the test on the links of the head is true exactly for a ring of one |
| RunQueue.InsertAfter | Kernel/lib.h:20-26 | the four writes put the new entry behind the given one, in a ring again |
| RunQueue.InsertBefore | Kernel/lib.h:27-33 | the four writes put the new entry before the given one, at the end for the head |
| RunQueue.Delete | Kernel/lib.h:34-38 | the two writes leave the ring without the entry |
| RunQueue.Cpu.constructor | Kernel/Task.c:857-868 | an empty queue behind the sentinel, one running task, a quantum of 4 |
| RunQueue.Cpu.FindPlace | Kernel/lib.h:621-625 | the pointer walk stops at the specified place, at the sentinel at the latest |
| RunQueue.Cpu.InsertTaskQueue | Kernel/lib.h:612-629 | the method leaves the specified queue, count and links |
| RunQueue.Cpu.GetNextTask | Kernel/Task.c:782-794 | the method returns and unlinks the specified task |
| RunQueue.Cpu.Reschedule | Kernel/Task.c:795-856 | the method leaves the state of the specified schedule, which keeps the scheduler's invariant |
| RunQueue.Cpu.OnTick | Kernel/Time.c:134-155 | the method leaves the state of the specified tick |
| WaitProtocol.LeaveKeeps | Kernel/lib.h:672-680 | a task that blocks is in no run queue, the least queued task runs, and nobody else changed |
| WaitProtocol.WakeKeeps | Kernel/lib.h:690-694 | a woken task is running and, exactly when its pid is not below running_task_count, queued; the current task is marked for rescheduling, and no other field of any task changes |
| WaitProtocol.RequestKeeps | Kernel/keyboard.c:486-515 | a request with the flag of the one in service joins behind the earlier ones; a scheduled one blocks its task, a polled one leaves the scheduler alone |
| WaitProtocol.CompleteKeeps | Kernel/keyboard.c:573-594 | a completion ends the oldest outstanding request, and if it was a scheduled one wakes exactly its task and marks the current one for rescheduling; a polled one changes nothing in the scheduler; the next request is posted |
| WaitProtocol.SleepKeeps | Kernel/lib.h:672-680 | sleep puts the task at the end of the wait queue and in no run queue |
| WaitProtocol.WakeupKeeps | Kernel/lib.h:681-696 | wakeup wakes exactly the first waiter and marks the current task for rescheduling |
| WaitProtocol.ForkKeeps | Kernel/Task.c:268-272 | a forked task joins, and the current one is marked for rescheduling, without disturbing anybody who waits |
| WaitProtocol.TimerStepKeeps | Kernel/Time.c:134-155 | ticks and the schedules they cause disturb nobody who waits |
| WaitProtocol.StepCorrect | Kernel/keyboard.c:486-594 | every step keeps the invariant and the order of requests; a blocked task is neither current nor queued and stops being blocked only when its own wait ends |
| WaitProtocol.RunsKeepOrder | Kernel/keyboard.c:486-594 | in every run, of scheduled and polled requests, completions are in posting order, node_count is the queue length, in_using is NULL only when the queue is empty, and no blocked task is in the run queue |
| WaitProtocol.RequestBlocksIff | Kernel/keyboard.c:508-511 | AHCI_REQ blocks the caller exactly when the request in service is a scheduled one; the caller waits as it asked to exactly if its flag is that one's |
| WaitProtocol.CompleteSafeIff | Kernel/keyboard.c:573-594 | a completion leaves the run queue in order exactly if the request was polled, or its task is neither running nor queued, or insert_task_queue drops the task |
| WaitProtocol.MixedFlagsQueueTheCurrentTask | Kernel/keyboard.c:508-511 | with mixed flags a completion queues the task that is running |
| DiskQueue.Waiting.AhciReq | Kernel/keyboard.c:486-515 | the method refuses more than 2048 sectors and else leaves the state of the specified request |
| DiskQueue.Waiting.PostCMD | Kernel/keyboard.c:517-526 | the method takes the head of the queue into service |
| DiskQueue.Waiting.AhciHandler | Kernel/keyboard.c:573-594 | the method leaves the state of the specified completion |
| DiskQueue.Waiting.SleepOn | Kernel/lib.h:672-680 | the method leaves the state of the specified sleep |
| DiskQueue.Waiting.WakeFirst | Kernel/lib.h:681-696 | the method leaves the state of the specified wakeup |
| UserHeap.KernelFacts | Kernel/Task.c:502-562 | what the library gets from brk: between the old end and the request when growing, the rounded request when shrinking |
| UserBrk.BrkAnswersAsExpected | Kernel/Task.c:502-562 | for every machine state and request at or above start_brk, end_brk and the value sys_brk returns are those of the library's model of brk for some number of pages |
| UserHeap.SearchFacts | user/lib_user.c:252-268 | the search finds the first descriptor with more than size + 24 bytes before the next one, or the last |
| UserHeap.FillSound | user/lib_user.c:253-265 | using a gap keeps the list ordered and every held block; the answer is the new block, or 24 if an unused descriptor was taken over |
| UserHeap.NewTailSound | user/lib_user.c:270-276 | the new last header is mapped exactly if it ends at or below end_brk; it keeps the list ordered |
| UserHeap.StretchSound | user/lib_user.c:278-284 | the last block grows as far as brk allows, and a failed brk answers 0 |
| UserHeap.MallocCorrect | user/lib_user.c:235-288 | malloc faults exactly where Faults says; the heap it leaves is sound exactly when the address behind the last possible block is a 64-bit number; then an answer other than 0 and 24 is a new aligned block of the size rounded up to eight |
| UserHeap.EndOfHeap | user/lib_user.c:239-284 | the first call leaves one page mapped, and no call moves end_brk up beyond the page in which the new block ends |
| UserHeap.NewAddress | user/lib_user.c:254-281 | an address malloc hands out was in nobody's hands |
| UserHeap.LiveBlocksApart | user/lib_user.c:235-307 | blocks in the caller's hands overlap neither each other nor any descriptor |
| UserHeap.FreeCorrect | user/lib_user.c:290-307 | free of a held block empties or drops its descriptor and changes no other block; end_brk goes down to the first page boundary above what is left; above brk_ed nothing happens |
| UserHeap.ServeSound | user/lib_user.c:235-307 | every fair call keeps the heap in order |
| UserHeap.CallsSound | user/lib_user.c:235-307 | after any sequence of fair calls the list is ordered and no two held blocks overlap |
| UserHeap.ReusedBlockIsLost | user/lib_user.c:254-265 | four calls after which malloc answers 24 |
| UserHeap.FullPageFaults | user/lib_user.c:270-276 | two calls after which the header is written beyond the heap |
| MallocList.StoredInsert | user/lib_user.c:256-259 | the four link writes put the descriptor into the doubly linked list |
| MallocList.Allocator.Find | user/lib_user.c:250-268 | the pointer loop stops at the specified descriptor |
| MallocList.Allocator.FillGap | user/lib_user.c:254-265 | the writes for a gap leave the specified list, doubly linked |
| MallocList.Allocator.AddTail | user/lib_user.c:270-276 | the writes for a new last descriptor leave the specified list, doubly linked |
| MallocList.Allocator.StretchTail | user/lib_user.c:278-284 | the last block and brk_ed as specified |
| MallocList.Allocator.Malloc | user/lib_user.c:235-288 | malloc, as specified, on a doubly linked list in memory |
| MallocList.Allocator.Free | user/lib_user.c:290-307 | free, as specified, on a doubly linked list in memory |
| FatFiles.ChainDistinct | Kernel/fat32.c:130-134 | a chain that ends at an end mark has no cluster twice |
| FatFiles.FollowChain | Kernel/fat32.c:130-134 | the walk of n links ends at cluster n of the chain, or at an end mark when the chain is shorter |
| FatFiles.ReadsInOrder | Kernel/fat32.c:142-161 | from a cluster's start the loop delivers the chain's bytes in order |
| FatFiles.ReadExact | Kernel/fat32.c:117-168 | what FAT32_read returns for every position and count: right when the position starts a cluster or the bytes lie in one cluster; otherwise bytes from the cluster's start, or a walk off the chain |
| FatFiles.EmptyAndSeek | Kernel/fat32.c:117-125 | reading a file without clusters answers EFAULT and gives nothing; a seek goes exactly to positions up to the size |
| FatFiles.WritesInOrder | Kernel/fat32.c:196-233 | from a cluster's start the loop puts all bytes into the chain, growing it by free clusters, and touches nothing else |
| FatRoundTrip.WriteExact | Kernel/fat32.c:169-245 | FAT32_write at every position inside the chain, with a search that reads: which bytes lie where, size, position, chain, and what stays; it falls short only when no entry is free |
| FatRoundTrip.RoundTrip | Kernel/fat32.c:117-245 | what is written from a cluster's start or inside one cluster is read back after a seek, for every length and either command; when the write falls short is stated for each |
| FatRoundTrip.ReadsBackIff | Kernel/fat32.c:117-245 | whatever the cluster held before, the bytes are read back after a seek exactly if the write starts a cluster or stays in one, for either command |
| FatRoundTrip.StoresIff | Kernel/fat32.c:196-233 | whatever the cluster held before, the bytes lie at their position exactly if the write starts a cluster or stays in one, for either command |
| FatRoundTrip.Crossing | Kernel/fat32.c:202-212 | a write that leaves its first cluster is, byte for byte, an aligned write of the bytes it lays out |
| FatRoundTrip.OthersUntouched | Kernel/fat32.c:216-231 | a file that shares no cluster keeps chain and contents |
| FatRoundTrip.WriteKeepsLibrary | Kernel/fat32.c:216-231 | chains of all files stay disjoint and end-marked, and the other files' contents stay |
| FatRoundTrip.WriteMisplaced | Kernel/fat32.c:202-209 | a write that leaves the cluster it starts in is, for either command, the write of other bytes at the cluster's start; the cluster's last bytes keep their old values |
| FatRoundTrip.WriteBehindFails | Kernel/fat32.c:182-201 | a write just behind the last cluster asks the disk for a cluster that does not exist |
| FatRoundTrip.FirstWriteFails | Kernel/fat32.c:179-192 | the first write to an empty file answers EFAULT and stores nothing; with a search that reads it takes a cluster; as coded it takes none and clears entries 1 to 127 of the table |
| FatRoundTrip.CodedWriteIff | Kernel/fat32.c:612-628 | the write as coded, at every position: it fails exactly right behind the chain, returns its count exactly when the chain is long enough, and is then the same as with a search that reads; otherwise the first 128 entries of the table become zero |
| FatRoundTrip.CodedWipes | Kernel/fat32.c:618-624 | the search as coded clears the first sector of the table and finds nothing |
| FatRoundTrip.CodedFrom | Kernel/fat32.c:196-233 | the loop as coded from any place in a cluster |
| FatRoundTrip.CommandIrrelevant | Kernel/fat32.c:216-226 | without extension the search is not used |
| FatLibrary.DoKept | Kernel/fat32.c:169-267 | a write or a seek on one of many files leaves every file a chain that ends, all chains apart, and the other files' contents |
| FatLibrary.RunKept | Kernel/fat32.c:169-267 | the same after any sequence of writes and seeks, with a search that reads: chains only grow, stay apart and end-marked, and a file that was not written holds what it held |
| FatDisk.PutGet | Kernel/fat32.c:595-611 | a 32-bit number read where it was written |
| FatDisk.EndMarkBytes | Kernel/fat32.c:602-611 | the mark at a chain's end lies on the disk with its lowest byte first |
| FatDisk.Laying | Kernel/fat32.c:60-100 | two tables of equal length with four bytes an entry, then the clusters one after the other |
| FatDisk.FatByte | Kernel/fat32.c:602-611 | every byte of the disk after WRITE_FAT |
| FatDisk.WriteFatView | Kernel/fat32.c:602-611 | WRITE_FAT changes the low 28 bits of one entry in both copies; the top four bits, other entries and all data stay; equal copies stay equal |
| FatDisk.WriteClusterView | Kernel/fat32.c:210 | writing a cluster changes that cluster and neither table |
| FatDisk.WipeView | Kernel/fat32.c:619-620 | the write in the search clears the first sector of the first copy |
| FatDisk.Driver.ReadFat | Kernel/fat32.c:595-601 | Read_FAT returns the 28-bit entry |
| FatDisk.Driver.WriteFatEntry | Kernel/fat32.c:602-611 | WRITE_FAT on the disk's bytes is the specified change of the table |
| FatDisk.Driver.FindCluster | Kernel/fat32.c:612-628 | the nested loops compute the specified search |
| FatDisk.Driver.FollowTo | Kernel/fat32.c:130-134 | the loop that follows the chain, as specified |
| FatDisk.Driver.ReadFile | Kernel/fat32.c:117-168 | FAT32_read on the disk's bytes, as specified |
| FatDisk.Driver.WriteFile | Kernel/fat32.c:169-245 | FAT32_write on the disk's bytes, as specified; equal copies of the table stay equal |
| SpinLock.MutualExclusion | Kernel/lib.h:523-554 | for n CPUs under every interleaving at most one holds the lock, and the word stays between -(n - 1) and 1 |
| SpinLock.FreeLockIsTaken | Kernel/lib.h:523-554 | whenever nobody holds the lock, a waiting CPU gets it within two instructions of its own |
| SpinLock.StepKeeps | Kernel/lib.h:528-554 | every instruction keeps the balance of the word with holders and waiters |
| SmpBoot.HandOff | Kernel/SMP.c:49-133 | in every interleaving each processor reads the stack and TSS pointers written for it, no two share a stack, and the boot processor is not inside the lock while one of them reads |
| SmpBoot.NeverStuck | Kernel/SMP.c:49-133 | until everything is done some processor can go on |
| SmpBoot.IndexRaces | Kernel/SMP.c:50 | global_i is not handed off: runs in which processor 1 reads 1 and 2 |
| SmpBoot.IndexRightIff | Kernel/SMP.c:49-133 | in every interleaving a processor reads its own index exactly if the boot processor has not yet gone on to the next one |
| MemoryMap.JoinTypes | MyPkg/BootX64/BootX64.c:151-165 | one descriptor adds exactly its addresses with its type |
| MemoryMap.SameTypes | MyPkg/BootX64/BootX64.c:107-166 | an address has a type in the table exactly if a mapped descriptor gives it that type |
| MemoryMap.TypesOfKinds | MyPkg/BootX64/BootX64.c:115-150 | which firmware kinds become usable memory and what the others become; unknown ones are skipped |
| MemoryMap.JoinedRuns | MyPkg/BootX64/BootX64.c:107-166 | the entries cut the mapped descriptors into runs of one type without gaps, and no entry could be joined with the next |
| MemoryMap.BytesConserved | MyPkg/BootX64/BootX64.c:151-165 | merging keeps the bytes of each type |
| MemoryMap.EntriesApart | MyPkg/BootX64/BootX64.c:107-166 | entries of descriptors that do not overlap do not overlap |
| MemoryMap.PermutedBytes | MyPkg/BootX64/BootX64.c:169-179 | a rearrangement keeps the bytes of each type |
| MemoryMap.JoinDescriptors | MyPkg/BootX64/BootX64.c:107-166 | the loop fills the table with the specified entries; full exactly when there are more of them than the table has room for |
| MemoryMap.SortEntries | MyPkg/BootX64/BootX64.c:169-179 | the exchange sort leaves a permutation in order of address, and a sorted table alone |
| MemoryMap.GetMemMap | MyPkg/BootX64/BootX64.c:107-179 | the final table, for any descriptors: types of all addresses, bytes per type, in order, and no overlaps if the descriptors do not overlap; each entry covers a whole run of descriptors; and if these come in order, no entry could be joined with the next |
| MemoryMap.InOrder | MyPkg/BootX64/BootX64.c:169-179 | each entry with bytes ends before the next one with bytes begins |
| Numbers.LoopWorth | Kernel/Printk.c:82-90 | the digits of the division loop stand for the value, each below the base |
| Numbers.LoopLength | Kernel/Printk.c:82-90 | a value takes at most n digits exactly if it is below the n-th power of the base |
| Numbers.CellsSuffice | Kernel/Printk.c:7 | from base 3 on at most 41 digits; in base 2 the 50 cells suffice exactly below 2^50 |
| Numbers.NumberLength | Kernel/Printk.c:76-113 | the length is sign, prefix and the most of precision, digits and remaining width, and at least field_width |
| Numbers.NumberMeans | Kernel/Printk.c:51-116 | the text is blanks, sign, prefix, digits, blanks; the digits stand for the magnitude, and with the sign for the number |
| Numbers.SignMeans | Kernel/Printk.c:60-74 | a minus for negative numbers if a sign is asked for, else a plus or a blank as asked for, the plus first |
| Numbers.PrefixMeans | Kernel/Printk.c:99-107 | 0x in base 16 and 0 in base 8 if asked for, else nothing |
| Numbers.TextCase | Kernel/Printk.c:56 | digits above nine are small letters or capitals as asked for |
| Numbers.Padding | Kernel/Printk.c:91-113 | the width goes to blanks in front, to zeros, or to blanks behind, and the digits fill the precision |
| Numbers.BodyValue | Kernel/Printk.c:108-112 | zeros of padding and precision do not change what the digits stand for |
| Numbers.SkipReads | Kernel/Printk.c:42-49 | skip_atoi reads the digits up to the first other character, with the value modulo 2^32 |
| Numbers.SkipInvertsDecimal | Kernel/Printk.c:42-49 | skip_atoi gives back an unpadded decimal number exactly below 2^31, and leaves the rest |
| NumberPrinter.Divide | Kernel/Printk.c:82-90 | the loop leaves the digits in TempStr, and runs over its end exactly when they are more than its cells |
| NumberPrinter.Write | Kernel/Printk.c:97-113 | the loops write the specified text into the buffer and nothing behind it |
| NumberPrinter.Format | Kernel/Printk.c:51-116 | number, as specified, for every value and base; it overruns TempStr exactly in base 2 from 2^50 on |
| NumberPrinter.Skip | Kernel/Printk.c:42-49 | skip_atoi, as specified |

## Left out

- PagingMaps.MapThenTranslate: says nothing after a fault, when kmalloc met the null page; `FrameBudget.EnsureFrames` says when one level faults, `FrameBudget.PagetableFrames` how many frames rule it out.
- Brk.GrowCorrect: likewise; `FrameBudget.SysBrkMet` says how many frames rule a fault out.
- FatRoundTrip.WriteExact: is about a search that reads, which is not the command in the code; `FatRoundTrip.CodedWriteIff` is about that one.
- FatLibrary.RunKept: likewise.
- FatRoundTrip.RoundTrip: needs a position inside the chain, since the code fails behind it, and pos + count below 2^64.
- WaitProtocol.RunsKeepOrder: is about runs in which each request has the flag of the one in service; `WaitProtocol.RequestBlocksIff` and `WaitProtocol.CompleteSafeIff` say what happens otherwise.
- DiskQueue.Waiting.AhciReq: of the busy wait of a polled request only that its caller goes on; request nodes are values, not kmalloc blocks.
- MemoryMap.GetMemMap: descriptors end below 2^64.
- FAT32_lseek from the current position or from the end: only SEEK_SET is modelled.
- PageTables.Process.Brk: starts from a well-formed heap.
- Scheduling.TickKeeps: vrun_time and the quantum are unbounded integers; a wrap after 2^63 ticks is not modelled.
- RunQueue.Cpu.InsertTaskQueue: asks that vrun_time is a long, that is at most that of the sentinel.
- FatDisk.Driver.ReadFat: cluster numbers beyond the table, which only a damaged volume yields, are treated as end marks.
- FatDisk.Driver.WriteFile: the directory record that FAT32_write_dir changes is not modelled, nor are the disk's own errors.
- Slab lists and page tables are sequences and maps in the specification and in the classes; the ring of list links is modelled for the run queue only.
- Page-table entries carry named flags and an address; the PAT bit, the ignored bits and CR3 reloads are not modelled, and the contents of user pages are not copied by the model of fork.
- In Kernel/main.c the new upper tables are cleared through their physical address; the model clears the table.
- do_fork with CLONE_VM, the file table, stacks and registers: no caller passes CLONE_VM, the others are copies without an algorithm.
- do_unfork, do_exit, sys_wait: their table walk mixes loop indices, or they only call what is modelled.
- Port I/O, MSRs, APIC and IOAPIC set-up, ACPI, PCI, NVMe, IDE, HPET set-up, the 8259A and inline assembly: hardware access; switch_to is "current := next".
- vsprintf, color_printk, putchar and the UEFI services: display and foreign calls.
- The soft timer list, the keyboard ring, shell commands, scan-code decoding, kallsyms, Search_Dir and path_walk: separate code that the properties above do not need.
