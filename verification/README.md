# AuriOS: memory stack and console stack, modelled and verified in Dafny

This project models the two stateful stacks of the AuriOS kernel and proves what every call and every run of
calls keeps.

**Memory.** `FrameAllocator.dfy` is the bitmap of physical frames and `BootMemory.dfy` its set-up from the boot
loader's memory map; both are proved against the set of used frames, and `FrameRuns.dfy` proves whole runs over
that set. `Paging.dfy` is 32-bit two-level paging (section 4.3 of the Intel SDM, Volume 3A) over RAM as frames of
1024 words. `Mmu.dfy` is the code that edits the tables through the recursive window, with a TLB that caches the
translation of each access the kernel makes: a store to a table goes through the translation being changed.
`PageRuns.dfy` proves whole runs of growth, faults and stores, `PagingLimits.dfy` where the promises end.
`HeapBlocks.dfy` is the first-fit heap as a list of blocks, `HeapRuns.dfy` its main properties over one call and
over every run. `HeapMemory.dfy` and `Heap.dfy` put the list where the kernel has it: in 16-byte headers inside
the memory handed out. `KernelHeap` has no memory of its own. Each header word is loaded and stored through
`AddressSpace`, that is through TLB, page tables and RAM, and each new page takes a frame from the bitmap.
`HeapClients.dfy` is the heap in use: runs in which clients also store into the blocks they hold. `Kernel.dfy` is
the boot order that establishes the invariants.

**Console.** `Screen.dfy` is the 80x25 grid as a value and `Terminal.dfy` the loops that implement it;
`Ansi.dfy` is the escape-sequence parser in front of it and `ControlSequences.dfy` what sequences do there, for any
number of fields; `Numbers.dfy` and `NumberTexts.dfy` are the number printers and parsers. `History.dfy`, `Words.dfy` (command line to words), `LineEditor.dfy` and `EditorRuns.dfy` (editor
and completion as values), `EditorLaws.dfy` (what keys leave, said without them) and `Display.dfy` (the edited line on the screen) come together in `Shell.dfy`, whose
`LineShell.Valid` says that buffer, history and screen agree. `ConsoleRuns.dfy` is the same shell as a value and the
theorem about its runs: the line stands where the last prompt ends. `Prompts.dfy` is what coloured text, such as the
prompt, leaves on the screen, `Remains.dfy` what is left behind the line. `LineShell.Handle` is proved to be the step
of these runs, and to keep buffer, history and screen in agreement exactly when the key allows it. The runs cover the
kernel's own command list (`LineEditor.CommandListOk`) and its prompt (`Prompts.PromptReads`).

Each class method is proved equal to a function over values, and the properties are lemmas about those functions.
The bodies of some methods start with `hide` statements: they keep definitions away from a proof that does not
need them.

## What the code does not promise

- `init_mem` rounds the end of its reservation down (src/kernel/kernel.c:130, src/mm/pmm.zig:96): the frame with
  the last part of the bitmap stays free unless kernel end plus bitmap size is a multiple of 4096 or the frame was
  never available. Otherwise, and only then, some run of allocations hands it out
  (`BootMemory.KernelHandedOutIff`). `BootMemory.BitmapFrameLeftFree` is an instance where it is the first frame of
  all: `mmu_init` would make it the page directory and clear the bitmap. `Kernel.Boot` therefore requires
  `Kernel.KernelFits`, of which this condition is a part; kernel and bitmap must also end in RAM and in the first 4 MB,
  which alone stay mapped.
- The high words of a memory-map entry are not read: a zone is marked as the map says exactly when base and length fit
  in 32 bits (`BootMemory.ZoneReadIff`). An available zone at 4 GB frees frames from 0 on that no entry need mark
  available.
- An available zone that ends at the top of RAM halts the boot unless the number of pages of RAM is a multiple of
  eight (`BootMemory.TopZoneNeedsWholeBytes`, with instances of both kinds in `BootMemory.OddPageHaltsBoot`).
- Two of the three callers of `pmm_alloc_frame` in mmu.zig do not test its answer. `mmu_init` halts unless two frames
  are free: the answer 0 is cast to a pointer, which the safety-checked build traps (`Mmu.AddressSpace.MmuInit`).
  `mmu_map_page` installs frame 0 as a page table. That does no harm exactly as long as it is none yet
  (`PagingLimits.FrameZeroAsTableIff`, `PagingLimits.SharedFrameZeroLosesMapping`); for heap pages it can happen only
  once, with the last free frame (`PageRuns.TableFrameIsUnused`).
- The page-fault handler has no upper end, as its comment says, although the recursive window lies there: a fault at
  a table's alias makes a fresh frame that table, without clearing it. Everything else translates as before exactly
  when the frame holds no present entry (`Paging.WindowFaultKeepsWalksIff`, with an instance in
  `PagingLimits.WindowFaultMapsForeignPage`). Growth has no upper end either: at 0xFFC00000 it would replace the
  identity map of the first 4 MB (`PagingLimits.GrowthIntoWindowKeepsIdentityIff`).
- What malloc returns has room for the request below heap_end exactly when the size is at most 2^32 - 4112; larger
  sizes wrap (`HeapRuns.PayloadCoversRequestIff`, with instances in `HeapRuns.WrappedRequests`).
- A growth that fails part-way leaves a gap for good: freeing everything restores one block exactly when no growth of
  the run failed so (`HeapRuns.FreeingEverythingRestoresTheHeapIff`, with an instance in
  `HeapRuns.FailedGrowthLeavesAGap`).
- A growth over a page that a page fault mapped before leaks that page's frame: used frames are accounted for exactly
  when no growth of the run does so (`PageRuns.FramesAccountedForIff`).
- `KPANIC` only logs: after a failed `memory_init` the heap has no list (`Heap.KernelHeap.MemoryInit`).
- The history keeps 254 characters of a line, the editor 255 (`History.NavigationReturnsTheLine`).
- Enter on an empty line leaves the navigation where it was: Up then goes on from there instead of showing the newest
  line, with the exact condition in `EditorLaws.UpAfterEnterIff`.
- A control sequence has eight parameters. The digits of a ninth number are written behind those of the first, and an
  `m` sequence then looks at no others (`ControlSequences.CsiParsesBack`, with an instance in
  `ControlSequences.NinthNumberJoinsTheFirst`). The codes 48 and 49 make the background light grey, not black
  (`ControlSequences.Background`).
- Down with nothing newer to show replaces the line by what was put aside last; the line survives exactly when that is
  the same text (`EditorRuns.DownKeepsTheLineIff`, with an instance in `EditorRuns.DownLosesTheLine`).
- Tab with the cursor inside the line drops what stands behind it (`LineEditor.CompletionIgnoresTail`). What the
  completion does not cover of it stays on the screen, so that nothing is left behind the line exactly when that was
  blank (`Remains.CompletionLeavesNothingIff`). If Tab lists the matches instead, the terminal cursor ends up behind the
  line and no longer agrees with the buffer position (`Shell.LineShell.TabKey`, `Shell.LineShell.Handle`).
- Enter with the cursor inside the line leaves the text below the cursor's row on the screen: the newline finds blank
  rows exactly when that text was blank (`Remains.NewLineLeavesNothingIff`). If the command prints nothing, what lies
  beyond the new prompt stays behind it (`Remains.SilentEnterLeavesNothingIff`, with an instance in
  `Remains.EnterLeavesTheTail`).

## Model

| member | source | states |
|---|---|---|
| Frames.FullByte | src/mm/pmm.zig:122-127 | the byte skip is sound: a byte is 0xFF exactly when all its eight frames are used |
| Frames.BitIsBinaryDigit | src/mm/pmm.zig:81-105 | frame 8 k + i is binary digit i of byte k, the lowest digit first |
| Frames.LowestFree | src/mm/pmm.zig:125-141 | the reference allocator: the lowest unused frame, none exactly when all are used |
| Frames.CountAfterTake | src/mm/pmm.zig:125-141 | handing a frame out lowers the number of free frames by one |
| Frames.CountIsZero | src/mm/pmm.zig:125-141 | no frame is left exactly when every frame is used |
| Frames.FrameAllocator.constructor | src/mm/pmm.zig:71-79 | after pmm_init all frames are used and a trailing partial byte of pages is dropped |
| Frames.FrameAllocator.MarkRegionFree | src/mm/pmm.zig:81-92 | removes exactly the frames [base/4096, (base+size)/4096) from the used set; traps exactly on 32-bit overflow or a frame beyond the bitmap |
| Frames.FrameAllocator.MarkRegionUsed | src/mm/pmm.zig:94-105 | adds exactly that range, with the same trap condition |
| Frames.FrameAllocator.LowestZero | src/mm/pmm.zig:128-137 | finds the lowest clear bit of a byte that is not full; the 3-bit counter never passes 7 |
| Frames.FrameAllocator.AllocFrame | src/mm/pmm.zig:125-141 | adds exactly the lowest unused frame and gives its address, below 2^32; 0 and no change when there is none |
| Frames.FrameAllocator.FreeFrame | src/mm/pmm.zig:143-145 | takes exactly the frame an address lies in out of the used set |
| FrameRuns.ReservedNeverHandedOut | src/mm/pmm.zig:125-145 | over every run that never frees a reserved frame, reserved frames stay used and are never handed out |
| FrameRuns.TakenFramesDistinct | src/mm/pmm.zig:125-141 | without frees no frame is handed out twice, each was unused before, in ascending order |
| FrameRuns.ReleasedFrameComesBack | src/mm/pmm.zig:125-145 | after freeing a frame the next allocation gives it, unless a lower one is free |
| FrameRuns.AllocFreeAlloc | src/mm/pmm.zig:125-145 | allocate, free, allocate gives the same frame |
| FrameRuns.EveryFreeFrameIsReached | src/mm/pmm.zig:125-141 | whatever frame is free, enough allocations hand it out |
| BootMemory.InitMem | src/kernel/kernel.c:104-139 | computes the greatest of the zone ends modulo 2^32, or 0; completes exactly when every marking is in bounds; then used are all frames but the available ones, plus the three reservations |
| BootMemory.TopOfRam | src/kernel/kernel.c:108-117 | the greatest of base plus length modulo 2^32 over all entries, 0 for none |
| BootMemory.ZoneAtTheTop | src/kernel/kernel.c:110-114 | a zone that ends at 4 GB does not count for the top of RAM |
| BootMemory.FirmwareZoneIgnored | src/kernel/kernel.c:110-114 | an instance: with 512 MB and the firmware zone below 4 GB the top of RAM is 0x1FFE0000 |
| BootMemory.AvailableIsTheUnion | src/kernel/kernel.c:122-127 | the freed frames are the rounded regions of the available entries and nothing else |
| BootMemory.ZoneReadIff | src/kernel/kernel.c:110-126 | the low words of a zone name the zone's frames exactly when base and length fit in 32 bits |
| BootMemory.FreeAfterBoot | src/kernel/kernel.c:122-133 | after boot a frame is free exactly when it is available and not reserved |
| BootMemory.ReservationsAreTheReservedFrames | src/kernel/kernel.c:129-133 | the reservations are frame 0, frames 0x80 to 0x8F, and those from 1 MB up to floor((kernel_end + bitmap_size) / 4096) |
| BootMemory.ReservedAcrossRuns | src/kernel/kernel.c:129-133 | no later run that never frees a reserved frame gets one of them, so the answer 0 always means exhaustion |
| BootMemory.AlignedMapBoots | src/kernel/kernel.c:106-133 | a map with RAM a multiple of 32 KiB, available zones below 4 GB and room for the kernel boots without a trap |
| BootMemory.TopZoneNeedsWholeBytes | src/mm/pmm.zig:72-90 | the available zone at the top of RAM stays in the bitmap exactly when the page count is a multiple of eight |
| BootMemory.OddPageHaltsBoot | src/mm/pmm.zig:72-90 | an instance: 16 MiB boot, one page more does not |
| BootMemory.KernelFramesUsedIff | src/kernel/kernel.c:129-130 | every frame of kernel and bitmap is used after boot exactly when the last one is full or was never available |
| BootMemory.KernelHandedOutIff | src/kernel/kernel.c:129-130 | some run of allocations from boot hands out a frame of kernel or bitmap exactly when that condition fails |
| BootMemory.BitmapFrameLeftFree | src/kernel/kernel.c:129-130 | an instance where the frame that holds the bitmap is left free and is the first to be handed out |
| Paging.DecodeEncode | src/mm/mmu.zig:22-48 | a packed entry word gives back its fields |
| Paging.EncodedWord | src/mm/mmu.zig:22-48 | the packed word in numbers: 4096 times the frame, plus 1, 2 and 4 for present, writable and user, all other bits clear |
| Paging.WalkOfWords | src/mm/mmu.zig:22-48 | what the processor finds for a page, read off the directory word and the table word |
| Paging.MapPageWords | src/mm/mmu.zig:125-144 | RAM after mmu_map_page word by word: the entry, with a new table the directory word and 1023 zeroes, and no other word |
| Paging.NewTable | src/mm/mmu.zig:125-137 | a table in a frame that is no table yet keeps the tables in order whatever it holds, and changes no walk but those of its own pages and of its alias, which gives the table |
| Paging.EmptyTable | src/mm/mmu.zig:136 | a cleared table changes no page at all |
| Paging.NewLeaf | src/mm/mmu.zig:139-144 | writing a page-table entry changes the walk of that page alone, to that entry |
| Paging.MapPageExact | src/mm/mmu.zig:116-147 | the mapped page translates to the frame with the requested rights (user access also needs the directory slot's), every other page below the window and the self-map as before, a new table appears at its alias |
| Paging.RecursiveWalk | src/mm/mmu.zig:121-123 | page k of the recursive window is the table of directory slot k, the last one the directory |
| Paging.HeapPageMapped | src/mm/mmu.zig:116-147 | mapping a heap page to a fresh frame keeps heap, table and directory frames pairwise disjoint and marked used |
| Paging.StoreKeepsOwnership | src/mm/mmu.zig:116-147 | a store to heap memory changes neither ownership nor rights |
| Paging.HeapWordsDistinct | src/mm/mmu.zig:116-147 | two heap addresses never share a word of RAM |
| Paging.ViewAfterMap | src/mm/mmu.zig:116-147 | a new page joins heap memory, all words of other pages stay |
| Paging.ViewAfterStore | src/mm/mmu.zig:116-147 | heap memory seen through the tables is flat: a store changes one word of it |
| Paging.WindowMappingKeepsTablesIff | src/mm/mmu.zig:121-144 | a mapping inside the recursive window writes a directory slot; the exact condition for the tables to stay in order |
| Paging.WindowMappingWalks | src/mm/mmu.zig:121-144 | the frame mapped there becomes the slot's page table as it is; all other pages translate as before |
| Paging.WindowFaultKeepsWalksIff | src/mm/mmu.zig:238-246 | a fault in the window keeps every translation below it exactly when the frame holds no present entry |
| Mmu.AddressSpace.MmuInit | src/mm/mmu.zig:55-87 | mmu_init and the CR3 load: it completes exactly when two frames are free and takes the two lowest; table and directory hold exactly the words 4096 k + 3; the first 4 MB map to themselves, the last slot maps the directory, nothing else is mapped |
| Mmu.AddressSpace.BuildTables | src/mm/mmu.zig:59-86 | the two tables built with paging off give that translation |
| Mmu.AddressSpace.LowPagesSinceStart | src/mm/mmu.zig:64-87 | every state since mmu_init is the outcome of a run of PageRuns events, hence all pages below the heap, the identity map among them, translate as mmu_init left them |
| Mmu.AddressSpace.FramesSinceStart | src/mm/mmu.zig:116-147 | frames that were used and neither table nor heap memory when mmu_init was done are so in every later state |
| Mmu.AddressSpace.FillSlot | src/mm/mmu.zig:121-135 | the directory slot is written through the recursive page; the TLB stays coherent and holds no page of the slot |
| Mmu.AddressSpace.ClearTable | src/mm/mmu.zig:136 | the new table is cleared through its alias, the TLB stays coherent |
| Mmu.AddressSpace.InstallTable | src/mm/mmu.zig:125-137 | takes the lowest unused frame, or frame 0 if there is none, installs it as a cleared table, keeps tables and TLB in order |
| Mmu.AddressSpace.WriteLeaf | src/mm/mmu.zig:139-146 | writes the page-table entry through the alias; with the page dropped from the TLB all cached translations agree |
| Mmu.AddressSpace.MapPageAt | src/mm/mmu.zig:116-147 | RAM afterwards is the two-level update of MapPage, word by word what Paging.WordsMapped says; used frames grow by the table's, if one was needed; the TLB stays coherent |
| Mmu.AddressSpace.MapWindowPage | src/mm/mmu.zig:116-147 | a mapping at the alias of an empty directory slot writes the directory; tables and TLB stay in order |
| Mmu.AddressSpace.MapNewHeapPage | src/mm/mmu.zig:238-246 | allocates and maps one kernel heap page as PageRuns.MapNew says, with frame 0 as the table if it took the last frame; fails exactly when no frame is left, and then changes nothing |
| Mmu.AddressSpace.Load | src/mm/mmu.zig:116-147 | a load from heap memory reads the word heap memory holds at that address |
| Mmu.AddressSpace.Store | src/mm/mmu.zig:116-147 | a store to heap memory changes that word of heap memory, one word of RAM and no translation |
| Mmu.AddressSpace.HandlePageFault | src/mm/mmu.zig:229-266 | a missing page from 0xD0000000 up to the window is mapped as PageRuns.MapNew says while frames last, one inside the window becomes a table; otherwise nothing changes and the kernel halts |
| PageRuns.TableFrameIsUnused | src/mm/mmu.zig:125-126 | the frame taken for a page table of the heap is no table and no heap memory yet, and it is frame 0 exactly when the page took the last frame |
| PageRuns.MapNewKeepsInv | src/mm/mmu.zig:238-246 | a new page takes a frame nobody had and keeps the invariant and every other page's frame |
| PageRuns.WindowFaultKeepsInv | src/mm/mmu.zig:238-246 | a fault at the alias of an empty slot, on a frame without entries, keeps the invariant and every translation below the window |
| PageRuns.StepKeepsInv | src/lib/memory.c:24-34 | growth, faults and stores each keep the invariant, everything below the heap, and the frames kept apart |
| PageRuns.EveryRunKeepsFramesApart | src/lib/memory.c:24-34 | in every interleaving of growth, faults and stores the heap's pages are present, kernel-only, writable, on distinct frames disjoint from all tables, all marked used; the identity map survives; used frames that are neither, such as those of kernel and bitmap, never become either |
| PageRuns.MappingPagesIsARun | src/lib/memory.c:24-34 | the memory behind mapping any number of pages, cut short where the frames end, is that behind a run of growth events, so the theorem about runs covers it |
| PageRuns.MapNewLeaks | src/mm/mmu.zig:139-146 | mapping a page leaks exactly the frame that was behind it |
| PageRuns.FramesAccountedForIff | src/lib/memory.c:24-34 | after any run the used frames are the reserved ones, the tables and the frames behind heap pages exactly when no growth reached a page a fault had mapped |
| PagingLimits.StaleIff | src/mm/mmu.zig:135-146 | without invalidation the TLB stays coherent exactly when the mapped page was not cached with another translation; dropping that page always suffices |
| PagingLimits.WindowFaultMapsForeignPage | src/mm/mmu.zig:238-246 | an instance: a fault at 0xFFC01000 makes the page at 0x400000 appear |
| PagingLimits.GrowthIntoWindowKeepsIdentityIff | src/lib/memory.c:25-32 | growth to 0xFFC00000 replaces the identity map of the first 4 MB; the exact condition for it to survive |
| PagingLimits.LastPageDestroysSelfMap | src/mm/mmu.zig:76-144 | the last page is always present, so no fault maps it; mapping it to another frame destroys the self-map |
| PagingLimits.FrameZeroAsTableIff | src/mm/mmu.zig:125-133 | frame 0 as a page table keeps the tables in order exactly when it is no table yet |
| PagingLimits.SharedFrameZeroLosesMapping | src/mm/mmu.zig:125-133 | frame 0 used as the table of two slots loses the first mapping |
| HeapBlocks.GrowthSufficesIff | src/lib/memory.c:19-133 | growth covers an 8-aligned request exactly when its rounding does not wrap, and is tight to a page |
| HeapBlocks.AlignmentSufficesIff | src/lib/memory.c:19-180 | rounding to 8 covers the request exactly when it does not wrap |
| HeapBlocks.FirstFit | src/lib/memory.c:182-191 | the lowest free block that is large enough, none if there is none |
| HeapBlocks.TakeKeepsLayout | src/lib/memory.c:156-188 | splitting and taking keep order, alignment and total space |
| HeapBlocks.TakeKeepsCoalesced | src/lib/memory.c:156-188 | splitting and taking leave no two adjacent free blocks |
| HeapBlocks.TakeAddsOne | src/lib/memory.c:156-188 | exactly one block more is in use, at that address, at least as large as asked and at most 24 bytes larger |
| HeapBlocks.ReleaseKeepsLayout | src/lib/memory.c:203-227 | free keeps order and total space and ends exactly that block's use |
| HeapBlocks.ReleaseKeepsCoalesced | src/lib/memory.c:210-226 | after free no two adjacent blocks are both free |
| HeapRuns.BlocksDisjoint | src/lib/memory.c:8-13 | no address belongs to two blocks, header or payload |
| HeapRuns.MallocMeetsItsContract | src/lib/memory.c:176-200 | malloc is first-fit and tight, returns NULL exactly for size 0 or a failed growth, adds one block in use and keeps the heap good |
| HeapRuns.PayloadCoversRequestIff | src/lib/memory.c:19-200 | what malloc returns has room for the request below heap_end exactly for sizes up to 2^32 - 4112 |
| HeapRuns.WrappedRequests | src/lib/memory.c:19-200 | instances: malloc(0xFFFFFFFF) and malloc(0xFFFFFFF0) |
| HeapRuns.FirstCalls | src/lib/memory.c:156-227 | a run in numbers: the addresses malloc gives and the block list after each of six calls |
| HeapRuns.FreeMeetsItsContract | src/lib/memory.c:203-227 | free of a null or live pointer keeps the heap good and removes one block from those in use |
| HeapRuns.FreeUndoesMalloc | src/lib/memory.c:156-227 | freeing what malloc returned restores the block list exactly, unless the heap had to grow |
| HeapRuns.RunsStayGood | src/lib/memory.c:131-227 | every run keeps ordered, aligned, disjoint blocks, maximal coalescing, and blocks plus gaps summing to the heap's extent, failed growths included |
| HeapRuns.FullHeapHasNoGaps | src/lib/memory.c:24-34 | ordered blocks that sum to the whole extent are adjacent throughout |
| HeapRuns.AllFreeIsOneBlock | src/lib/memory.c:203-227 | with everything free the list is one block over the whole heap exactly when nothing was lost |
| HeapRuns.StepLoses | src/lib/memory.c:24-34 | a call loses exactly the pages of a growth that fails part-way |
| HeapRuns.LostIff | src/lib/memory.c:24-34 | a run loses nothing exactly when no growth of it fails part-way |
| HeapRuns.FreeingEverythingRestoresTheHeapIff | src/lib/memory.c:131-227 | any run from memory_init that frees everything ends in one free block exactly when no growth of it failed part-way |
| HeapRuns.FailedGrowthLeavesAGap | src/lib/memory.c:24-34 | an instance: an eighteen-page growth that fails after one page loses that page |
| HeapMemory.SplitWritten | src/lib/memory.c:156-173 | the writes of split_block turn headers of the list into headers of the split list and change no payload in use |
| HeapMemory.MergeWritten | src/lib/memory.c:210-226 | the writes of a merge turn headers of the list into headers of the merged list and change no payload in use |
| HeapMemory.GrowWritten | src/lib/memory.c:140-151 | the writes of heap_grow append the block to the linked list and change no payload in use |
| HeapMemory.FlagWritten | src/lib/memory.c:187-208 | writing a free flag changes that block's flag alone |
| HeapMemory.TwoHeaders | src/lib/memory.c:8-13 | size, flag, next and prev of two neighbouring headers, address by address |
| HeapClients.StoreKeepsHeap | src/lib/memory.c:54-60 | a store into a payload in use leaves every header and every other payload alone |
| HeapClients.TransitionKeepsOk | src/lib/memory.c:131-227 | malloc, free, client stores and page faults each keep the list in memory linked, ordered and coalesced |
| HeapClients.TracesStayOk | src/lib/memory.c:131-227 | and so does every run of them |
| HeapClients.ClientsReadWhatTheyStored | src/lib/memory.c:131-227 | over every such run each word of a block in use holds what was last stored there |
| Heap.GrantedAllIff | src/lib/memory.c:24-34 | all pages are mapped exactly when there are frames for them and for the tables their directory slots lack, less a table for the last page alone, which may be frame 0 |
| Heap.GrantedAtLeastIff | src/lib/memory.c:24-34 | a growth maps at least n of its pages exactly when there are the frames that n pages and their tables need |
| Heap.KernelHeap.HeapMapPages | src/lib/memory.c:24-34 | maps as many pages as the frames allow, leaving frames and tables as PageRuns.MapPages says, and moves heap_end behind them, also on failure; words below stay |
| Heap.KernelHeap.MemoryInit | src/lib/memory.c:36-51 | with enough frames the heap is one free block over 16 pages, its header the words 65520, 1, 0, 0; otherwise there is no list |
| Heap.KernelHeap.HeapGrow | src/lib/memory.c:131-154 | appends a free block of the rounded size in memory, or NULL exactly when a page could not be mapped; only the frames of the mapped pages are taken |
| Heap.KernelHeap.SplitBlock | src/lib/memory.c:156-173 | the headers in memory become those of the split list |
| Heap.KernelHeap.Search | src/lib/memory.c:182-191 | the walk over the links in memory finds the first fit |
| Heap.KernelHeap.Malloc | src/lib/memory.c:176-200 | on virtual memory malloc does exactly what the block list says, headers stay well linked, no byte of a payload in use changes, the identity map stays, frames are taken as PageRuns.MapPages says and only when nothing fits; NULL exactly for size 0 or when nothing fits and the free frames are too few |
| Heap.KernelHeap.MallocGrowing | src/lib/memory.c:193-199 | malloc without a fit: grown and taken, or failed with heap_end moved and the list as before |
| Heap.KernelHeap.Free | src/lib/memory.c:203-227 | on virtual memory free does exactly what the block list says, no byte of another payload in use changes, the identity map stays |
| Heap.KernelHeap.MergeForward | src/lib/memory.c:210-217 | merges with the next block exactly when both are free and adjacent |
| Heap.KernelHeap.MergeBackward | src/lib/memory.c:219-226 | merges with the previous block exactly when both are free and adjacent |
| Heap.KernelHeap.PageFault | src/mm/mmu.zig:238-246 | a page fault at any address between heap calls maps that page alone and leaves the heap's state, payloads and the identity map as they are; inside the recursive window exactly if the frame taken holds no entry |
| Heap.KernelHeap.Store | src/lib/memory.c:54-60 | a client's store to its memory, through TLB and page tables, is the store of HeapClients |
| Heap.KernelHeap.PagesBehindTheHeap | src/lib/memory.c:24-34 | at any time all pages below heap_end are present, kernel-only, writable, on distinct used frames that hold no table |
| Kernel.InitialHeapFrames | src/lib/memory.c:36-42 | the initial heap comes up exactly with 17 free frames |
| Kernel.Boot | src/kernel/kernel.c:162-183 | init_mem, mmu_init and memory_init establish all invariants on the RAM the map describes; the heap is ready exactly when init_mem completes with 19 free frames; the first 4 MB map to themselves and no frame of kernel or bitmap is a table or heap memory, now or later |
| Screen.PutRawCells | src/kernel/terminal.c:95-116 | a character goes to the cursor's cell in the current colour, all other cells keep theirs, with a scroll by one row at the end of the last |
| Screen.WindowAdvance | src/kernel/terminal.c:76-85 | moving at most one row on, with scrolling at the bottom, the grid stays the last 25 rows of the sheet |
| Screen.PutOnWindow | src/kernel/terminal.c:95-116 | a character on the window of a sheet gives the window of the sheet with that character |
| Screen.ScreenShowsLastRows | src/kernel/terminal.c:76-146 | any stream of raw characters from a cleared screen leaves the last 25 rows of the text wrapped at 80 columns, the cursor at the matching place |
| Screen.PartialClears | src/kernel/terminal.c:148-159 | the partial clears keep the other side of the cursor and together are a full clear |
| Screen.BackspaceCells | src/kernel/terminal.c:170-180 | one cell back unless at the first, that cell blank in the current colour, every other cell as it was |
| Screen.MoveCursorIsNearest | src/kernel/terminal.c:186-193 | the cursor ends at the place of the screen nearest to the one asked for |
| Screen.PutShows | src/kernel/terminal.c:95-116 | a character written behind a shown line extends it, moved up a row on a scroll |
| Screen.WriteShows | src/kernel/terminal.c:95-116 | a line written behind shown text is shown across wraps and scrolls |
| Screen.WriteKeeps | src/kernel/terminal.c:95-116 | writing without newline keeps all cells in front of the cursor, moved up a row per scroll, and what is blank behind the cells written |
| Terminal.TextTerminal.Scroll | src/kernel/terminal.c:76-85 | the rows move up by one, the last becomes blank |
| Terminal.TextTerminal.PutCharRaw | src/kernel/terminal.c:95-116 | the cell loop implements PutRaw, every index in bounds |
| Terminal.TextTerminal.ClearScreen | src/kernel/terminal.c:137-146 | all cells blank in the current colour, cursor home |
| Terminal.TextTerminal.ClearUntilCursor | src/kernel/terminal.c:148-152 | blanks exactly the cells in front of the cursor |
| Terminal.TextTerminal.ClearAfterCursor | src/kernel/terminal.c:154-159 | blanks exactly the cells from the cursor on |
| Terminal.TextTerminal.SetCursorTo | src/kernel/terminal.c:161-168 | the cursor within the screen |
| Terminal.TextTerminal.BackspaceChar | src/kernel/terminal.c:170-180 | one cell back across rows, not beyond the first, that cell blank |
| Terminal.TextTerminal.MoveCursorBy | src/kernel/terminal.c:186-193 | the cursor moved in reading order, within the screen |
| Ansi.ToVga | src/kernel/ainsi.zig:27-32 | foreground in the low, background in the high half of the colour byte |
| Ansi.AnsiConsole.ProcessChar | src/kernel/ainsi.zig:64-120 | one character of the parser's state machine, over parser, colours and screen |
| Ansi.AnsiConsole.SelectGraphics | src/kernel/ainsi.zig:105-112 | the codes entered are drained from left to right, then the terminal's colour set |
| Ansi.FeedPlain | src/kernel/ainsi.zig:66-70 | text without escape characters reaches the screen as it is |
| ControlSequences.FeedDigits | src/kernel/ainsi.zig:80-85 | digits accumulate behind those already there, cut to 65535 |
| ControlSequences.CsiParsesBack | src/kernel/ainsi.zig:64-104 | any number of fields, empty ones among them, leave in each of the eight parameters the number its fields spell one behind the other, the screen untouched |
| ControlSequences.UnknownSequenceIgnored | src/kernel/ainsi.zig:114-116 | a sequence with any other final byte than J, H and m changes nothing |
| ControlSequences.EscapeAborts | src/kernel/ainsi.zig:72-78 | ESC and any character but [ change nothing |
| ControlSequences.EraseParses | src/kernel/ainsi.zig:86-94 | every cell after a J sequence: from the cursor on, up to the cursor, or all blank with the cursor home |
| ControlSequences.SelectGraphicsParses | src/kernel/ainsi.zig:27-147 | an m sequence sets the colour to the last foreground and the last background among its numbers, by the VGA table, keeps a half that none names, and changes nothing else |
| ControlSequences.ColoursStayTheSame | src/kernel/ainsi.zig:64-120 | over every text the terminal's colour is the one the parser has collected |
| ControlSequences.RedText | src/kernel/ainsi.zig:105-112 | an instance: ESC [ 1 ; 31 m makes the foreground 4 and keeps the background |
| ControlSequences.NinthNumberJoinsTheFirst | src/kernel/ainsi.zig:80-113 | an instance of a sequence with more numbers than parameters: its colours are lost |
| ControlSequences.CursorPositionParses | src/kernel/ainsi.zig:95-100 | an H sequence puts the cursor into the row and column its first two numbers say, counted from 1 and cut to 25 and 80, absent ones 1 |
| ControlSequences.SetCursorAnsi | src/kernel/kernel.c:18-27 | printing the sequence moves the cursor to that row and column and changes nothing else |
| Numbers.Itoa | src/lib/integer.c:34-69 | fills at most 12 bytes with the decimal text, terminated |
| Numbers.ReverseInPlace | src/lib/integer.c:60-67 | the buffer's string is reversed in place |
| Numbers.Atoi | src/lib/integer.c:5-31 | blanks, a sign, then the value of the digits |
| Numbers.AtoiUndoesItoa | src/lib/integer.c:5-69 | atoi of itoa is the identity for every int above the least |
| Numbers.PrintHex | src/kernel/terminal.c:118-129 | the eight-digit hexadecimal text |
| Numbers.Htoi | src/lib/integer.c:71-102 | blanks, a prefix, then hexadecimal digits in 32-bit arithmetic |
| NumberTexts.AtoiReads | src/lib/integer.c:5-31 | for every text: white space, a sign or none and digits up to the first other character give the number, negative behind a minus |
| NumberTexts.HtoiReads | src/lib/integer.c:71-102 | for every text: blanks, a prefix or none and digits in either case up to the first other character give the number modulo 2^32 |
| NumberTexts.HexDigitsSpell | src/kernel/terminal.c:118-129 | terminal_print_hex spells the number in upper-case digits |
| NumberTexts.HtoiUndoesPrintHex | src/lib/integer.c:71-102 | htoi reads back what terminal_print_hex writes, for every 32-bit value |
| CStrings.StrLen | src/lib/string.c:4-9 | the index of the first NUL |
| CStrings.StrLCpy | src/lib/string.c:122-132 | at most size - 1 characters, always terminated |
| CStrings.StrNCmp | src/lib/string.c:22-32 | 0 exactly when the first n characters agree, otherwise the difference of the first that do not |
| History.Ring.PushCommand | src/kernel/history.c:28-35 | the ring stands for all non-empty pushes cut to 254 characters: count, head and every slot agree with the list |
| History.Ring.PrevCommand | src/kernel/history.c:37-44 | Up moves the cursor back, at most to the oldest kept, and puts the line aside first |
| History.Ring.NextCommand | src/kernel/history.c:46-50 | Down moves the cursor forward, at most to the line put aside |
| History.Ring.GetCurrentCommand | src/kernel/history.c:52-54 | the cursor-th most recent command, or the line put aside |
| History.NavigationReturnsTheLine | src/kernel/history.c:37-54 | any number of Ups and as many Downs give the line cut to 254 characters, hence the line itself exactly when it is no longer |
| Words.StrTrim | src/lib/string.c:134-153 | blanks and tabs at both ends are trimmed in place |
| Words.TrimKeepsWords | src/lib/string.c:134-153 | in a line without tabs trimming loses no word |
| Words.TrimIs | src/lib/string.c:134-153 | blanks and tabs at both ends go, however many, and nothing else |
| Words.ShellParse | src/kernel/shell.c:36-63 | the arguments are the first sixteen space-free words in order, each terminated in the buffer, with NULL behind them in bounds |
| Words.WordsOfJoined | src/kernel/shell.c:45-59 | words joined by single spaces are read back |
| Words.WordByWord | src/kernel/shell.c:45-59 | in any line, blanks add no word and the characters up to the next blank are one |
| Words.ArgsAreSixteen | src/kernel/shell.c:45-59 | the arguments are all words, or the first sixteen |
| Words.ReparsingGivesTheSameWords | src/kernel/shell.c:36-63 | parsing the words found, joined by single spaces, gives the same words |
| LineEditor.EraseUndoesInsert | src/kernel/shell.c:222-250 | typing and erasing leaves the line as it was |
| LineEditor.CommonPrefix | src/kernel/shell.c:134-139 | the longest common start of two strings |
| LineEditor.LcpIsCommon | src/kernel/shell.c:154-164 | all matches start with the computed prefix |
| LineEditor.LcpIsGreatest | src/kernel/shell.c:154-164 | no longer text is a prefix of all matches |
| LineEditor.SameMatches | src/kernel/shell.c:154-176 | a text up to the common prefix has the same matches |
| LineEditor.CompletionAppends | src/kernel/shell.c:141-208 | Tab at the end of the line appends: the only match and a space, or up to the longest common prefix, which keeps the set of matches |
| LineEditor.OutputIsWritten | src/kernel/shell.c:189-208 | unless it lists, Tab prints exactly what takes the place of the line from the cursor on |
| LineEditor.CompletionIgnoresTail | src/kernel/shell.c:189-200 | when Tab inserts, what stood behind the cursor plays no part and is lost |
| LineEditor.CommandListOk | src/kernel/shell.c:26-28 | the kernel's own command list is one the completion and the runs are about |
| LineEditor.TabInMidLineDropsTheTail | src/kernel/shell.c:26-200 | an instance of that loss with the kernel's own commands |
| EditorRuns.AfterKeys | src/kernel/shell.c:189-279 | after every run of keys the line has at most 255 plain characters with the cursor among them, and stored lines at most 254 |
| EditorRuns.EnteredIsStored | src/kernel/shell.c:75-76 | after every run the history holds exactly the non-empty lines entered, cut to 254 characters |
| EditorRuns.HistoryHoldsWhatWasEntered | src/kernel/history.c:17-54 | and navigation position k shows the k-th most recent of them |
| EditorRuns.DownKeepsTheLineIff | src/kernel/shell.c:254-267 | Down with nothing newer keeps the line exactly when it is what was put aside last |
| EditorRuns.KeyRedraws | src/kernel/shell.c:222-279 | each key that edits the line where it stands leaves the new line on the screen, the cells in front of it as they were, nothing behind it if nothing was |
| EditorLaws.KeyOnLine | src/kernel/shell.c:210-279 | every editing key on a line split at the cursor: what is typed joins the text in front, Backspace takes the last of it, the arrows move one character across |
| EditorLaws.TypingInserts | src/kernel/shell.c:236-250 | after any run of keys, typing a text puts it at the cursor |
| EditorLaws.EnterOnLog | src/kernel/history.c:28-35 | Enter on a line that is not empty starts navigation afresh with nothing put aside; on an empty line it leaves the history as it is |
| EditorLaws.UpsShow | src/kernel/shell.c:254-267 | after any run, n Ups show the line entered that many lines ago, at most sixteen, cut to 254 characters, with the cursor at its end, and put the line left aside |
| EditorLaws.DownsShow | src/kernel/shell.c:254-267 | after any run, n Downs show the line entered that many lines later, and behind the newest what was put aside |
| EditorLaws.UpShowsTheLineEntered | src/kernel/shell.c:216-267 | Up after Enter on a line that is not empty shows that line |
| EditorLaws.DownsUndoUps | src/kernel/shell.c:254-267 | as many Downs as Ups bring the line back, whole exactly when it has at most 254 characters |
| EditorLaws.UpAfterEnterIff | src/kernel/history.c:28-44 | Up after Enter goes to the newest line exactly when the line was not empty, navigation was at its start, or there is only one |
| EditorLaws.MatchesAre | src/kernel/shell.c:154-164 | the matches are the commands of the list that start with the text |
| EditorLaws.ListingOutput | src/kernel/shell.c:178-187 | a listing Tab prints a row that reads as the first 32 matches in order, then prompt and line |
| EditorLaws.TabDoesNothing | src/kernel/shell.c:141-176 | with a space in front of the cursor or no match Tab changes and prints nothing |
| ConsoleRuns.StrokeKeepsOk | src/kernel/shell.c:210-279 | every key, Enter, Ctrl-L and Tab among them, keeps the line within bounds and the parser in normal state |
| ConsoleRuns.ListingShows | src/kernel/shell.c:178-187 | a listing Tab leaves the line where its new prompt ends, with nothing behind it if nothing stood behind that prompt |
| ConsoleRuns.StrokeShows | src/kernel/shell.c:210-279 | after every key the line stands where the last prompt ended, moved up by the rows scrolled since, and the cells in front of it are as the prompt left them |
| ConsoleRuns.ScreenAlwaysShowsTheLine | src/kernel/shell.c:141-279 | over every run of keys, new prompts, outputs, clears and listings included, the screen shows the abstract editor's line from the end of the last prompt on, moved up by the rows scrolled since, with the terminal cursor at its cursor and everything in front as that prompt left it |
| Remains.NewLineLeavesNothingIff | src/kernel/shell.c:216-221 | from a blank rest of the screen the newline of Enter finds blank rows exactly when the text below the cursor's row is blank |
| Remains.SilentEnterLeavesNothingIff | src/kernel/shell.c:216-221 | Enter without output leaves nothing behind the new prompt exactly when the line's text beyond that prompt's end was blank |
| Remains.EnterLeavesTheTail | src/kernel/shell.c:216-221 | an instance: twenty characters of the old line behind the new prompt, with an empty line in the buffer |
| Remains.CompletionLeavesNothingIff | src/kernel/shell.c:189-208 | a completing Tab leaves nothing behind the line exactly when what the completion does not cover of the line was blank |
| Remains.TidyLeavesNothing | src/kernel/shell.c:141-279 | a key without such remains, whose output and prompt leave nothing themselves, keeps the screen behind the line blank |
| Remains.ScreenShowsNothingElse | src/kernel/shell.c:141-279 | over every run of such keys the screen shows the line behind the last prompt and nothing else behind that prompt |
| Prompts.ColouredReads | src/kernel/ainsi.zig:64-120 | text in any colours leaves its characters as plain text does, on every console, and ends with the parser in normal state |
| Prompts.ReadableText | src/kernel/ainsi.zig:64-120 | such text leaves nothing behind the cursor where nothing stood |
| Prompts.PromptReads | src/commands/setprompt.c:8-38 | whatever the two names, the prompt reads [user@os ~]$ and has these properties |
| Prompts.PromptText | src/commands/setprompt.c:8-38 | the prompt character for character, colour sequences included |
| Display.InsertDisplayed | src/kernel/shell.c:236-250 | redrawing after a typed key shows the new line with the cursor behind the character, across wraps and scrolls; cells in front of the line stay, cells behind it stay blank |
| Display.EraseDisplayed | src/kernel/shell.c:222-233 | redrawing after Backspace shows the shorter line, cursor one back, without scrolling; cells in front stay, the line's last cell becomes blank |
| Display.ReplaceDisplayed | src/kernel/shell.c:254-267 | erasing the old line and writing another shows the other and leaves nothing of the old one; cells in front stay |
| Display.OverwriteDisplayed | src/kernel/shell.c:189-208 | a completion written over the line from the cursor on is shown; what it does not cover of the old line stays behind it, and nothing else |
| Shell.LineShell.TypeKey | src/kernel/shell.c:236-251 | a plain key inserts at the cursor unless 255 characters are there; buffer and screen agree, the rest of the screen is kept |
| Shell.LineShell.BackspaceKey | src/kernel/shell.c:222-233 | Backspace erases in front of the cursor; buffer and screen agree, the rest of the screen is kept |
| Shell.LineShell.LeftKey | src/kernel/shell.c:269-273 | the cursor one back in buffer and on screen, not beyond the start |
| Shell.LineShell.RightKey | src/kernel/shell.c:275-279 | the cursor one forward in buffer and on screen, not beyond the end |
| Shell.LineShell.HistoryKey | src/kernel/shell.c:254-267 | Up and Down show the ring's line in buffer and on screen, cursor at its end, the rest of the screen kept |
| Shell.LineShell.EnterKey | src/kernel/shell.c:216-221 | the line goes to the history and is cut into its words; printed are a newline, the output and the prompt, in that order; an empty line follows |
| Shell.LineShell.Execute | src/kernel/shell.c:75-80 | the line is pushed before it is cut into words; an empty line runs nothing |
| Shell.LineShell.ClearKey | src/kernel/shell.c:211-215 | Ctrl-L leaves a cleared screen with the prompt and an empty line behind it |
| Shell.LineShell.TabKey | src/kernel/shell.c:141-208 | Tab completes the line as Complete says and prints exactly CompletionOutput; the screen shows the result, unless it lists with the cursor inside the line |
| Shell.LineShell.InsertCompletion | src/kernel/shell.c:189-208 | the rest of the command up to len, and a space if asked for, goes to buffer and screen |
| Shell.LineShell.ListMatches | src/kernel/shell.c:178-184 | prints a new row and the matches, two blanks behind each |
| Shell.LineShell.Handle | src/kernel/shell.c:210-279 | every key does to buffer, history, prompt, parser and screen what ConsoleRuns.After says; buffer and screen agree afterwards exactly when the key was no Tab that lists with the cursor inside the line |
| Shell.LineShell.FindMatches | src/kernel/shell.c:154-164 | the matches in list order, at most 32 kept, and the longest common prefix of all of them |
| Shell.CommandRecognition | src/kernel/shell.c:134-139 | the loop computes the longest common start |

## Left out

- Words instead of bytes: heap memory and RAM are 32-bit words. Every allocator write is an aligned word and every payload a whole number of words, so keeping words is keeping bytes.
- RAM is a field holding frames of words; the bitmap is an array of its own and not part of that RAM. The kernel keeps it behind its image. Under `Kernel.KernelFits` the two do not meet: `Kernel.Boot` ensures that those frames are mapped to themselves and are no table and no heap memory in any later state, so that no write modelled here reaches them.
- The TLB caches translations only for accesses the kernel makes, and drops none but by invlpg. Speculative caching between the write of a directory slot and the clearing of its table, and paging-structure caches, are not modelled.
- The boot loader's map is a sequence of entries with their low words, as the source reads it: stepping by the entries' size field and the case without the memory-map flag are left out.
- Accessed and dirty bits: the processor's own writes to table entries are not modelled; no code here reads them.
- Mmu.AddressSpace.MapPageAt: requires an address below 0xFFC00000 and, when a table is needed, a free frame or frame 0 not yet a table, because the source tests neither; MapWindowPage covers the aliases of empty slots, and PagingLimits says what happens beyond.
- Mmu.AddressSpace.MapWindowPage: requires the alias of an empty directory slot; the page fault handler reaches no other, since a page that is present does not fault.
- Kernel.Boot: requires Kernel.KernelFits, that is RAM for kernel and bitmap within the first 4 MB and a last frame that is full or was never available; without it the kernel's own bitmap may be overwritten or unmapped, and nothing would hold.
- Heap.KernelHeap.Malloc: requires a size up to 2^32 - 4112 and room below 0xFFC00000 for the pages the frames allow; larger sizes wrap as HeapRuns.PayloadCoversRequestIff says, growth beyond is PagingLimits.GrowthIntoWindowKeepsIdentityIff. Calls before memory_init succeeded would follow a NULL list head.
- HeapRuns.MallocMeetsItsContract: requires that room too, as do HeapRuns.RunsStayGood and Heap.KernelHeap.HeapMapPages, HeapGrow and MallocGrowing.
- Heap.KernelHeap.Free: requires NULL or a live pointer, as C does; double frees and foreign pointers are not modelled.
- Numbers.Atoi: over the mathematical integers; C's signed overflow is undefined and does not arise on what itoa prints.
- History.Ring.PushCommand: entries are string values, cut as CStrings.StrLCpy is proved to cut; their 256-byte arrays and what stays behind a NUL are not modelled.
- Shell.LineShell.EnterKey: the command's output and the new prompt are parameters, any texts that leave the parser in normal state (`clear` prints what erases the display); the command bodies and their dispatch are left out, as is the search for placeholders in the prompt template, of which Prompts.Template is the result.
- Remains.TidyLeavesNothing: one direction only where an output or a prompt of several rows follows the newline, since what they print may cover remains or erase them; Remains.SilentEnterLeavesNothingIff and Remains.CompletionLeavesNothingIff are the exact conditions for the other keys.
- The hardware cursor registers, colours of single cells in the editor's screen claim, CR0 and CR2 access, the halt loops and logging: no state of these stacks.
- Drivers (serial, keyboard scancodes, PIC, PIT), GDT and IDT set-up, framebuffer, logo, test-mode echo, mmap and peek/poke output, and the remaining string and memory helpers: device plumbing, user interface or easy members.
- Interrupts: each key, fault and allocator call is one step.
