/** The boot order of kernel_main: init_mem, mmu_init, memory_init. */
module Kernel {

  import opened Machine
  import opened Frames
  import BootMemory
  import Paging
  import PageRuns
  import Mmu
  import HeapBlocks
  import Heap

  /** The initial heap lies in one slot, whose table takes one frame more. */
  lemma InitialHeapFrames(free: nat, slots: set<int>)
    requires Paging.HEAP_PAGE / 1024 !in slots
    ensures Heap.PagesGranted(free, slots, Paging.HEAP_PAGE, HeapBlocks.INITIAL_PAGES) == HeapBlocks.INITIAL_PAGES
            <==> free >= HeapBlocks.INITIAL_PAGES + 1
  {
    var page, pages := Paging.HEAP_PAGE, HeapBlocks.INITIAL_PAGES;
    Heap.GrantedAllIff(free, slots, page, pages);
    assert Heap.SlotsWithoutTable(slots, page, pages) == {page / 1024};
  }

  /** Kernel image and bitmap end in RAM, in the 4 MB that stay mapped to themselves, with a frame or in one that was
      never available. */
  predicate KernelFits(mmap: seq<BootMemory.MapEntry>, max: int, kernelEnd: int) {
    && kernelEnd + max / 0x8000 <= 8 * (max / 0x8000) * PAGE_SIZE
    && kernelEnd + max / 0x8000 <= 0x400000
    && BootMemory.BitmapKept(mmap, max, kernelEnd)
  }

  /** Boot, over the RAM the memory map describes. Without KernelFits the frame that holds the end of the bitmap may
      become the page directory, which is cleared, and nothing could be promised. The heap comes up exactly when
      there are 19 free frames: directory, first table, heap table, 16 pages; otherwise ok is false, whether init_mem
      or mmu_init halts or memory_init leaves no list. The bitmap is mapped to itself and no frame of the kernel or the
      bitmap is a page table or heap memory, now and in every state to come (AddressSpace.LowPagesSinceStart, FramesSinceStart). */
  method Boot(mmap: seq<BootMemory.MapEntry>, kernelEnd: int, ram: Paging.Ram)
      returns (heap: Heap.KernelHeap, max: int, ok: bool)
    requires BootMemory.EntriesAreWords(mmap) && BootMemory.KERNEL_BASE <= kernelEnd < WORD_LIMIT
    requires Paging.RamShape(ram)
    requires forall m :: BootMemory.IsMaxRam(mmap, m) ==> 8 * (m / 0x8000) <= |ram| && KernelFits(mmap, m, kernelEnd)
    ensures BootMemory.IsMaxRam(mmap, max)
    ensures ok <==> && BootMemory.BootCompletes(mmap, max, kernelEnd)
                    && CountFree(BootMemory.UsedAfterBoot(mmap, max, kernelEnd), 8 * (max / 0x8000)) >= 19
    ensures ok ==>
              && heap.Valid() && heap.State() == HeapBlocks.InitialHeap()
              && BootMemory.ReservedFrames(kernelEnd, max / 0x8000) <= heap.space.pmm.Used()
              && PageRuns.KeptApart(heap.space.start, BootMemory.KernelFrames(kernelEnd, max / 0x8000))
              && PageRuns.KeptApart(heap.space.Mem(), BootMemory.KernelFrames(kernelEnd, max / 0x8000))
              && forall p :: 0 <= p < 1024 ==>
                   Paging.Walk(heap.space.ram, heap.space.dir, p) == Some(Paging.Translation(p, true, false))
  {
    hide Mmu.AddressSpace.Valid;
    hide Mmu.AddressSpace.Slots;
    hide BootMemory.UsedAfterBoot, BootMemory.BootCompletes, Heap.PagesGranted, PageRuns.KeptApart, Paging.Walk;
    hide BootMemory.KernelFrames, BootMemory.ReservedFrames, BootMemory.BitmapKept;
    var pmm, top, completed := BootMemory.InitMem(mmap, kernelEnd);
    max := top;
    ok := false;
    var space := new Mmu.AddressSpace(pmm, ram);
    heap := new Heap.KernelHeap(space);
    if !completed {
      return;
    }
    BootMemory.ReservedAfterBoot(mmap, max, kernelEnd);
    BootMemory.KernelFramesUsedIff(mmap, max, kernelEnd);
    ghost var used := pmm.Used();
    var initialised := space.MmuInit();
    if !initialised {
      return;
    }
    ZeroIsNoKernelFrame(kernelEnd, max / 0x8000);
    KernelApart(space.Mem(), used, BootMemory.KernelFrames(kernelEnd, max / 0x8000));
    InitialHeapFrames(space.pmm.Free(), space.Slots());
    ok := heap.MemoryInit();
    space.LowPagesSinceStart();
    space.FramesSinceStart(BootMemory.KernelFrames(kernelEnd, max / 0x8000));
  }

  lemma ZeroIsNoKernelFrame(kernelEnd: int, bitmapSize: int)
    ensures 0 !in BootMemory.KernelFrames(kernelEnd, bitmapSize)
  {
  }

  lemma KernelApart(s: PageRuns.MemState, used: set<int>, kernel: set<int>)
    requires PageRuns.KeptApart(s, used - {0}) && kernel <= used && 0 !in kernel
    ensures PageRuns.KeptApart(s, kernel)
  {
  }
}
