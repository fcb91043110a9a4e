/** src/lib/memory.c: the kernel heap over virtual memory. Every header word is read and written
    through the page tables; every new page takes a frame from the allocator. */
module Heap {

  import opened Machine
  import Frames
  import Paging
  import PageRuns
  import Mmu
  import opened HeapBlocks
  import opened HeapMemory
  import opened HeapRuns
  import HeapClients

  // ---- How far the frames reach ---------------------------------------------------------------

  /** How many of pages consecutive pages from page on can be mapped with free frames left, slots
      being the directory slots that have a table already: each page takes a frame, the first page
      of a slot without a table one more, unless that was the last one. */
  function PagesGranted(free: nat, slots: set<int>, page: int, pages: nat): (g: nat)
    ensures g <= pages
    decreases pages
  {
    if pages == 0 || free == 0 then 0
    else 1 + PagesGranted(free - (if page / 1024 in slots then 1 else Min(2, free)), slots + {page / 1024}, page + 1, pages - 1)
  }

  lemma GrantedNone(free: nat, slots: set<int>, page: int)
    ensures PagesGranted(free, slots, page, 0) == 0
  {
  }

  /** One iteration of heap_map_pages. */
  lemma GrantedStep(free: nat, slots: set<int>, page: int, pages: nat)
    requires pages > 0
    ensures PagesGranted(free, slots, page, pages) ==
            if free == 0 then 0
            else 1 + PagesGranted(free - (if page / 1024 in slots then 1 else Min(2, free)), slots + {page / 1024}, page + 1, pages - 1)
  {
  }

  /** The directory slots of pages consecutive pages from page on that have no table. */
  ghost function SlotsWithoutTable(slots: set<int>, page: int, pages: nat): set<int> {
    set s | page / 1024 <= s <= (page + pages - 1) / 1024 && pages > 0 && s !in slots
  }

  lemma SlotsOfRest(slots: set<int>, page: int, pages: nat)
    requires pages > 0
    ensures var rest := |SlotsWithoutTable(slots + {page / 1024}, page + 1, pages - 1)|;
            |SlotsWithoutTable(slots, page, pages)| == rest + if page / 1024 in slots then 0 else 1
  {
    var rest, all := SlotsWithoutTable(slots + {page / 1024}, page + 1, pages - 1), SlotsWithoutTable(slots, page, pages);
    assert page / 1024 <= (page + 1) / 1024 <= page / 1024 + 1;
    assert page / 1024 <= (page + pages - 1) / 1024;
    forall s
      ensures s in rest <==> s in all - {page / 1024}
    {
      if pages == 1 {
        assert s in all ==> s == page / 1024;
      }
    }
    assert rest == all - {page / 1024};
    assert page / 1024 in all <==> page / 1024 !in slots;
  }

  /** The last of the pages is the first of a directory slot without a table. */
  predicate LastOpensSlot(slots: set<int>, page: int, pages: nat) {
    pages > 0 && (page + pages - 1) / 1024 !in slots && (pages == 1 || (page + pages - 1) % 1024 == 0)
  }

  /** The frames that mapping all pages takes: one each, and one for each table their directory slots lack, but
      none for a table of the last page alone, which may be frame 0. */
  ghost function FramesNeeded(slots: set<int>, page: int, pages: nat): (n: nat)
    ensures pages > 0 ==> n > 0
  {
    assert LastOpensSlot(slots, page, pages) ==> (page + pages - 1) / 1024 in SlotsWithoutTable(slots, page, pages);
    pages + |SlotsWithoutTable(slots, page, pages)| - if LastOpensSlot(slots, page, pages) then 1 else 0
  }

  lemma FramesNeededStep(slots: set<int>, page: int, pages: nat)
    requires pages > 0
    ensures FramesNeeded(slots, page, pages)
            == if pages == 1 then 1
               else FramesNeeded(slots + {page / 1024}, page + 1, pages - 1) + if page / 1024 in slots then 1 else 2
  {
    SlotsOfRest(slots, page, pages);
    if pages == 1 {
      assert SlotsWithoutTable(slots + {page / 1024}, page + 1, 0) == {};
    } else {
      assert LastOpensSlot(slots, page, pages) == LastOpensSlot(slots + {page / 1024}, page + 1, pages - 1);
    }
  }

  /** Frame exhaustion in closed form: all pages are mapped exactly when there are that many frames. */
  lemma {:induction false} GrantedAllIff(free: nat, slots: set<int>, page: int, pages: nat)
    ensures PagesGranted(free, slots, page, pages) == pages <==> free >= FramesNeeded(slots, page, pages)
    decreases pages
  {
    if pages == 0 {
      assert SlotsWithoutTable(slots, page, pages) == {};
    } else {
      FramesNeededStep(slots, page, pages);
      hide FramesNeeded;
      if free > 0 {
        GrantedAllIff(free - (if page / 1024 in slots then 1 else Min(2, free)), slots + {page / 1024}, page + 1, pages - 1);
      }
    }
  }

  lemma {:induction false} GrantedPrefix(free: nat, slots: set<int>, page: int, pages: nat, n: nat)
    requires n <= pages
    ensures PagesGranted(free, slots, page, n) == Min(n, PagesGranted(free, slots, page, pages))
    decreases pages
  {
    if n > 0 && free > 0 {
      GrantedPrefix(free - (if page / 1024 in slots then 1 else Min(2, free)), slots + {page / 1024}, page + 1, pages - 1, n - 1);
    }
  }

  /** How far a growth gets: at least n pages exactly when there are the frames that n pages need. */
  lemma GrantedAtLeastIff(free: nat, slots: set<int>, page: int, pages: nat, n: nat)
    requires n <= pages
    ensures PagesGranted(free, slots, page, pages) >= n <==> free >= FramesNeeded(slots, page, n)
  {
    GrantedPrefix(free, slots, page, pages, n);
    GrantedAllIff(free, slots, page, n);
  }

  // ---- Lists after a split ------------------------------------------------------------------------

  /** What split_block makes of the list. */
  function SplitList(bs: seq<Block>, i: nat, size: int): seq<Block>
    requires i < |bs|
  {
    if bs[i].size - size < HEADER_SIZE + 16 then bs
    else Replace(bs, i, i + 1, [bs[i].(size := size), Rest(bs[i], size)])
  }

  lemma TakeIsSplitAndMark(bs: seq<Block>, i: nat, size: int)
    requires i < |bs|
    ensures i < |SplitList(bs, i, size)| && SplitList(bs, i, size)[i].addr == bs[i].addr
    ensures Take(bs, i, size) == SplitList(bs, i, size)[i := SplitList(bs, i, size)[i].(free := false)]
  {
    hide Replace;
    ReplaceAt(bs, i, i + 1, Cut(bs[i], size));
    if bs[i].size - size >= HEADER_SIZE + 16 {
      ReplaceAt(bs, i, i + 1, [bs[i].(size := size), Rest(bs[i], size)]);
    }
    var s := SplitList(bs, i, size);
    assert Take(bs, i, size) == s[i := s[i].(free := false)];
  }

  lemma SplitKeepsOrder(bs: seq<Block>, end: int, i: nat, size: int)
    requires Ordered(bs, end) && i < |bs| && 8 <= size <= bs[i].size && size % 8 == 0
    ensures Ordered(SplitList(bs, i, size), end)
  {
    if bs[i].size - size >= HEADER_SIZE + 16 {
      SplitExtent(bs, end, i, size);
      ReplaceOrdered(bs, end, i, i + 1, [bs[i].(size := size), Rest(bs[i], size)]);
    }
  }

  lemma SplitExtent(bs: seq<Block>, end: int, i: nat, size: int)
    requires Ordered(bs, end) && i < |bs| && 8 <= size && size % 8 == 0 && bs[i].size - size >= HEADER_SIZE + 16
    ensures SameExtent(bs, i, i + 1, [bs[i].(size := size), Rest(bs[i], size)])
  {
    assert BlockOk(bs[i]);
    hide Ordered;
    Aligned8Sum(bs[i].size, size);
    Aligned8Sum(bs[i].size - size, HEADER_SIZE);
    Aligned8Sum(bs[i].addr, HEADER_SIZE);
    Aligned8Sum(bs[i].addr + HEADER_SIZE, size);
  }

  /** A block free after the split was free before or is the rest, so no payload in use is touched later. */
  lemma LiveKeptThroughSplit(m0: Memory, m1: Memory, m2: Memory, bs: seq<Block>, i: nat, size: int)
    requires i < |bs| && bs[i].free
    requires LiveKept(m0, m1, bs) && LiveKept(m1, m2, SplitList(bs, i, size))
    ensures LiveKept(m0, m2, bs)
  {
    if bs[i].size - size >= HEADER_SIZE + 16 {
      ReplaceAt(bs, i, i + 1, [bs[i].(size := size), Rest(bs[i], size)]);
    }
    var s := SplitList(bs, i, size);
    forall k | 0 <= k < |bs| && !bs[k].free
      ensures PayloadKept(m0, m2, bs[k])
    {
      assert s[if k < i then k else k + |s| - |bs|] == bs[k];
      assert PayloadKept(m0, m1, bs[k]) && PayloadKept(m1, m2, bs[k]);
    }
  }

  lemma LiveKeptTransitive(m0: Memory, m1: Memory, m2: Memory, bs: seq<Block>)
    requires LiveKept(m0, m1, bs) && LiveKept(m1, m2, bs)
    ensures LiveKept(m0, m2, bs)
  {
    forall k | 0 <= k < |bs| && !bs[k].free
      ensures PayloadKept(m0, m2, bs[k])
    {
      assert PayloadKept(m0, m1, bs[k]) && PayloadKept(m1, m2, bs[k]);
    }
  }

  class KernelHeap {
    const space: Mmu.AddressSpace
    /** heap_end: everything from HEAP_START up to it is mapped. */
    var heapEnd: int
    /** head: the first block's address, NULL before memory_init. */
    var head: int
    /** The block list that memory holds, and the bytes mapped by failed growths. */
    ghost var blocks: seq<Block>
    ghost var lost: int

    ghost function State(): HeapState
      reads this
    {
      HeapState(blocks, heapEnd, lost)
    }

    /** What the runs of HeapClients are about. */
    ghost function Client(): HeapClients.ClientState
      reads this, space`words, space`log
    {
      HeapClients.ClientState(State(), space.words)
    }

    /** The list is in memory and in order. */
    ghost predicate Linked()
      reads this, space, space.pmm.bitmap
    {
      && space.Valid()
      && space.endPage == heapEnd / PAGE_SIZE
      && head == HEAP_START
      && Ordered(blocks, heapEnd)
      && Represents(space.words, blocks)
      && Mapped(space.words, heapEnd)
      && heapEnd <= HEAP_LIMIT
    }

    ghost predicate Valid()
      reads this, space, space.pmm.bitmap
    {
      Linked() && Good(State())
    }

    /** How many pages of a growth for need bytes the frames allow. */
    ghost function Grants(need: int): nat
      reads this`heapEnd, space`ram, space`dir, space.pmm.bitmap
      requires 0 <= need
    {
      PagesGranted(space.pmm.Free(), space.Slots(), heapEnd / PAGE_SIZE, GrowBytes(need) / PAGE_SIZE)
    }

    /** The frames a growth for need bytes takes. */
    ghost function FramesFor(need: int): nat
      reads this`heapEnd, space`ram, space`dir
      requires 0 <= need
    {
      FramesNeeded(space.Slots(), heapEnd / PAGE_SIZE, GrowBytes(need) / PAGE_SIZE)
    }

    constructor (space: Mmu.AddressSpace)
      ensures this.space == space && heapEnd == 0 && head == 0
    {
      this.space := space;
      heapEnd, head := 0, 0;
      blocks, lost := [], 0;
    }

    /** heap_map_pages. A failure leaves heap_end behind the pages already mapped. */
    method HeapMapPages(pages: nat) returns (ok: bool)
      requires space.Valid() && space.endPage == heapEnd / PAGE_SIZE
      requires HEAP_START <= heapEnd && heapEnd % PAGE_SIZE == 0
      requires heapEnd + PagesGranted(space.pmm.Free(), space.Slots(), heapEnd / PAGE_SIZE, pages) * PAGE_SIZE <= HEAP_LIMIT
      modifies this`heapEnd, space`ram, space`tlb, space`words, space`endPage, space`log, space.pmm.bitmap
      ensures space.Valid() && space.endPage == heapEnd / PAGE_SIZE && old(space.pmm.Used()) <= space.pmm.Used()
      ensures var g := PagesGranted(old(space.pmm.Free()), old(space.Slots()), old(heapEnd) / PAGE_SIZE, pages);
              heapEnd == old(heapEnd) + g * PAGE_SIZE && (ok <==> g == pages)
      ensures space.Mem() == PageRuns.MapPages(old(space.Mem()), pages)
      ensures SameBelow(old(space.words), space.words, old(heapEnd))
      ensures Mapped(old(space.words), old(heapEnd)) ==> Mapped(space.words, heapEnd)
    {
      hide Mmu.AddressSpace.Valid;
      hide Mmu.AddressSpace.Slots;
      hide Paging.SetWord, Paging.IsHeapWord, Paging.FrameOf;
      hide Frames.FrameAllocator.Used;
      hide Frames.FrameAllocator.Free;
      hide SameBelow, Mapped, Mmu.PageAdded, PagesGranted;
      hide PageRuns.MapPages, PageRuns.CanMap, PageRuns.MapNew;
      ghost var mem := space.Mem();
      SameBelowReflexive(space.words, heapEnd);
      ghost var page := heapEnd / PAGE_SIZE;
      ghost var g := PagesGranted(space.pmm.Free(), space.Slots(), page, pages);
      var i := 0;
      while i < pages
        invariant 0 <= i <= pages
        invariant space.Valid() && space.endPage == page + i && old(space.pmm.Used()) <= space.pmm.Used()
        invariant heapEnd == old(heapEnd) + i * PAGE_SIZE
        invariant PageRuns.MapPages(mem, pages) == PageRuns.MapPages(space.Mem(), pages - i)
        invariant g == i + PagesGranted(space.pmm.Free(), space.Slots(), page + i, pages - i)
        invariant SameBelow(old(space.words), space.words, old(heapEnd))
        invariant Mapped(old(space.words), old(heapEnd)) ==> Mapped(space.words, heapEnd)
      {
        assert heapEnd / PAGE_SIZE == page + i;
        GrantedStep(space.pmm.Free(), space.Slots(), page + i, pages - i);
        ghost var before := space.words;
        PageRuns.MapPagesStep(space.Mem(), pages - i);
        var mapped := space.MapNewHeapPage(heapEnd, true);
        if !mapped {
          return false;
        }
        PageAddedBehind(old(space.words), before, space.words, old(heapEnd), heapEnd);
        heapEnd := heapEnd + PAGE_SIZE;
        i := i + 1;
      }
      GrantedNone(space.pmm.Free(), space.Slots(), page + i);
      PageRuns.MapPagesStep(space.Mem(), 0);
      return true;
    }

    /** memory_init. A failure is only logged: head stays NULL and the heap is not usable. */
    method MemoryInit() returns (ok: bool)
      requires space.Valid() && head == 0 && space.endPage == HEAP_START / PAGE_SIZE
      modifies this, space`ram, space`tlb, space`words, space`endPage, space`log, space.pmm.bitmap
      ensures space.Valid() && old(space.pmm.Used()) <= space.pmm.Used()
      ensures ok <==> PagesGranted(old(space.pmm.Free()), old(space.Slots()), HEAP_START / PAGE_SIZE, INITIAL_PAGES)
                      == INITIAL_PAGES
      ensures ok ==> Valid() && State() == InitialHeap()
      ensures ok ==> FirstHeader(space.words)
      ensures !ok ==> head == 0
      ensures space.pmm.Used() == PageRuns.MapPages(old(space.Mem()), INITIAL_PAGES).used
    {
      hide Mmu.AddressSpace.Valid;
      hide Mmu.AddressSpace.Slots;
      hide Paging.SetWord, Paging.IsHeapWord, Paging.FrameOf;
      hide Frames.FrameAllocator.Used;
      hide Frames.FrameAllocator.Free;
      hide SameBelow, Mapped, PagesGranted, Good, Ordered, NewHeader, PageRuns.MapPages, FirstHeader;
      heapEnd := HEAP_START;
      NothingMapped(space.words, heapEnd);
      ok := HeapMapPages(INITIAL_PAGES);
      if !ok {
        return;
      }
      head := HEAP_START;
      InitialLayout();
      HeaderRoom(space.words, heapEnd, head);
      ghost var mem := space.words;
      WriteHeader(Block(head, heapEnd - HEAP_START - HEADER_SIZE, true), 0, 0);
      blocks, lost := InitialHeap().blocks, 0;
      InitialMemory(mem, heapEnd);
    }

    /** heap_grow: the new block is free and last in the list; NULL when a page could not be mapped. */
    method HeapGrow(needed: int) returns (block: int)
      requires Linked() && heapEnd % PAGE_SIZE == 0
      requires HEADER_SIZE < needed && AlignUp(needed, PAGE_SIZE) >= needed
      requires needed % 8 == 0
      requires heapEnd + PagesGranted(space.pmm.Free(), space.Slots(), heapEnd / PAGE_SIZE, AlignUp(needed, PAGE_SIZE) / PAGE_SIZE)
                         * PAGE_SIZE <= HEAP_LIMIT
      modifies this`heapEnd, this`blocks, space`ram, space`tlb, space`words, space`endPage, space`log, space.pmm.bitmap
      ensures Linked() && old(space.pmm.Used()) <= space.pmm.Used()
      ensures space.pmm.Used() ==
              PageRuns.MapPages(old(space.Mem()), AlignUp(needed, PAGE_SIZE) / PAGE_SIZE).used
      ensures var bytes := AlignUp(needed, PAGE_SIZE);
              var g := PagesGranted(old(space.pmm.Free()), old(space.Slots()), old(heapEnd) / PAGE_SIZE, bytes / PAGE_SIZE);
              && heapEnd == old(heapEnd) + g * PAGE_SIZE
              && (block == 0 <==> g < bytes / PAGE_SIZE)
              && (block == 0 ==> blocks == old(blocks))
              && (block != 0 ==> block == old(heapEnd) && blocks == Grown(old(State()), bytes))
      ensures LiveKept(old(space.words), space.words, old(blocks))
    {
      hide Mmu.AddressSpace.Valid;
      hide Mmu.AddressSpace.Slots;
      hide Paging.SetWord, Paging.IsHeapWord, Paging.FrameOf;
      hide Frames.FrameAllocator.Used;
      hide Frames.FrameAllocator.Free;
      hide Ordered, Represents, Mapped, LiveKept, NewHeader, PagesGranted, Bytes, AlignUp;
      hide PageRuns.MapPages;
      var bytes := AlignUp(needed, PAGE_SIZE);
      AlignedUp(needed);
      PagesAreAligned(heapEnd);
      PagesAreAligned(bytes);
      Aligned8Sum(bytes, HEADER_SIZE);
      var pages := bytes / PAGE_SIZE;
      var oldEnd := heapEnd;
      EndBehindStart(blocks, heapEnd);
      var ok := HeapMapPages(pages);
      ghost var mem1 := space.words;
      RepresentsBelow(old(space.words), mem1, blocks, oldEnd);
      OrderedHigher(blocks, oldEnd, heapEnd);
      if !ok {
        return 0;
      }
      block := oldEnd;
      AppendBlock(oldEnd);
      LiveKeptTransitive(old(space.words), mem1, space.words, old(blocks));
    }

    /** The rest of heap_grow: the new block's header, linked in behind the last one. */
    method AppendBlock(oldEnd: int)
      requires space.Valid() && head == HEAP_START && space.endPage == heapEnd / PAGE_SIZE
      requires Ordered(blocks, oldEnd) && Represents(space.words, blocks) && Mapped(space.words, heapEnd)
      requires BlockOk(Block(oldEnd, heapEnd - oldEnd - HEADER_SIZE, true)) && heapEnd <= HEAP_LIMIT
      modifies this`blocks, space`ram, space`tlb, space`words, space`log
      ensures Linked() && blocks == old(blocks) + [Block(oldEnd, heapEnd - oldEnd - HEADER_SIZE, true)]
      ensures LiveKept(old(space.words), space.words, old(blocks))
    {
      hide Mmu.AddressSpace.Valid;
      hide Mmu.AddressSpace.Slots;
      hide Paging.SetWord, Paging.IsHeapWord, Paging.FrameOf;
      hide Frames.FrameAllocator.Used;
      hide Frames.FrameAllocator.Free;
      hide Ordered, Represents, Mapped, LiveKept, NewHeader;
      ghost var mem1 := space.words;
      var b := Block(oldEnd, heapEnd - oldEnd - HEADER_SIZE, true);
      EndBehindStart(blocks, oldEnd);
      HeaderRoom(mem1, heapEnd, oldEnd);
      WriteHeader(b, 0, 0);
      ghost var mem2 := space.words;
      NewHeaderKeeps(mem1, blocks, oldEnd, b);
      var tail := FindTail();
      HeaderInMemory(mem2, blocks, oldEnd, |blocks| - 1);
      space.Store(tail + NEXT, oldEnd);
      space.Store(oldEnd + PREV, tail);
      LiveKeptReflexive(mem1, blocks);
      GrowDone(mem1, mem1, mem2, space.words, blocks, oldEnd, b);
      blocks := blocks + [b];
    }

    /** heap_grow's walk to the last block. */
    method FindTail() returns (tail: int)
      requires space.Valid() && head == HEAP_START && |blocks| > 0 && blocks[0].addr == HEAP_START
      requires Represents(space.words, blocks)
      requires forall i :: 0 <= i < |blocks| ==> BlockOk(blocks[i])
      modifies space`tlb
      ensures space.Valid() && tail == blocks[|blocks| - 1].addr
    {
      hide Mmu.AddressSpace.Valid;
      hide Mmu.AddressSpace.Slots;
      hide Paging.SetWord, Paging.IsHeapWord, Paging.FrameOf;
      hide Frames.FrameAllocator.Used;
      hide Frames.FrameAllocator.Free;
      tail := head;
      ghost var i := 0;
      assert HeaderAt(space.words, blocks, 0);
      var next := space.Load(tail + NEXT);
      while next != 0
        invariant space.Valid()
        invariant 0 <= i < |blocks| && tail == blocks[i].addr && next == AddrOf(blocks, i + 1)
        decreases |blocks| - i
      {
        tail := next;
        i := i + 1;
        assert HeaderAt(space.words, blocks, i);
        next := space.Load(tail + NEXT);
      }
      assert i + 1 < |blocks| ==> BlockOk(blocks[i + 1]);
    }

    /** The four assignments that fill in a header. */
    method WriteHeader(b: Block, next: int, prev: int)
      requires space.Valid()
      requires b.addr + SIZE in space.words && b.addr + FREE in space.words
      requires b.addr + NEXT in space.words && b.addr + PREV in space.words
      requires 0 <= b.size < WORD_LIMIT && 0 <= next < WORD_LIMIT && 0 <= prev < WORD_LIMIT
      modifies space`ram, space`tlb, space`words, space`log
      ensures space.Valid() && space.words == NewHeader(old(space.words), b, next, prev)
    {
      hide Mmu.AddressSpace.Valid;
      hide Mmu.AddressSpace.Slots;
      hide Paging.SetWord, Paging.IsHeapWord, Paging.FrameOf;
      hide Frames.FrameAllocator.Used;
      hide Frames.FrameAllocator.Free;
      space.Store(b.addr + SIZE, b.size);
      space.Store(b.addr + FREE, Flag(b.free));
      space.Store(b.addr + NEXT, next);
      space.Store(b.addr + PREV, prev);
    }

    /** split_block on the free block i. */
    method SplitBlock(block: int, size: int, ghost i: nat)
      requires Linked() && i < |blocks| && block == blocks[i].addr && blocks[i].free
      requires 8 <= size <= blocks[i].size && size % 8 == 0
      modifies this`blocks, space`ram, space`tlb, space`words, space`log
      ensures Linked() && blocks == SplitList(old(blocks), i, size)
      ensures LiveKept(old(space.words), space.words, old(blocks))
    {
      hide Mmu.AddressSpace.Valid;
      hide Mmu.AddressSpace.Slots;
      hide Paging.SetWord, Paging.IsHeapWord, Paging.FrameOf;
      hide Frames.FrameAllocator.Used;
      hide Frames.FrameAllocator.Free;
      hide Ordered, Represents, Mapped, LiveKept, Replace, SplitList, SplitWrites, NewHeader, BackLink;
      ghost var mem, b := space.words, blocks[i];
      HeaderInMemory(mem, blocks, heapEnd, i);
      SplitDone(mem, blocks, heapEnd, i, size);
      var blockSize := space.Load(block + SIZE);
      var remaining := blockSize - size;
      if remaining < HEADER_SIZE + 16 {
        return;
      }
      RestInMemory(mem, heapEnd, b, size);
      var next := space.Load(block + NEXT);
      CutRest(Block(block, blockSize, true), size, next);
      blocks := SplitList(blocks, i, size);
    }

    /** The writes of split_block. */
    method CutRest(b: Block, size: int, next: int)
      requires space.Valid() && 8 <= size <= b.size - HEADER_SIZE - 16 && HEAP_START <= b.addr && b.End() < WORD_LIMIT
      requires b.addr + SIZE in space.words && b.addr + NEXT in space.words
      requires var n := Rest(b, size).addr;
               n + SIZE in space.words && n + FREE in space.words && n + NEXT in space.words && n + PREV in space.words
      requires 0 <= next < WORD_LIMIT && (next != 0 ==> next + PREV in space.words)
      modifies space`ram, space`tlb, space`words, space`log
      ensures space.Valid() && space.words == SplitWrites(old(space.words), b, size, next)
    {
      hide Mmu.AddressSpace.Valid, SplitWrites, NewHeader, BackLink;
      var newBlock := b.addr + HEADER_SIZE + size;
      ghost var mem := space.words;
      WriteHeader(Block(newBlock, b.size - size - HEADER_SIZE, true), next, b.addr);
      ghost var mem1 := space.words;
      NewHeaderKeys(mem, Rest(b, size), next, b.addr);
      LinkBack(next, newBlock);
      ghost var mem2 := space.words;
      space.Store(b.addr + NEXT, newBlock);
      space.Store(b.addr + SIZE, size);
      SplitChain(mem, mem1, mem2, space.words, b, size, next);
    }

    /** `if (next) next->prev = prev`. */
    method LinkBack(next: int, prev: int)
      requires space.Valid()
      requires next != 0 ==> next + PREV in space.words
      requires 0 <= prev < WORD_LIMIT
      modifies space`ram, space`tlb, space`words, space`log
      ensures space.Valid() && space.words == BackLink(old(space.words), next, prev)
      ensures old(space.words).Keys <= space.words.Keys
    {
      hide Mmu.AddressSpace.Valid;
      if next != 0 {
        space.Store(next + PREV, prev);
      }
    }

    /** Splits free block i, marks it used and gives its payload. */
    method TakeBlock(block: int, size: int, ghost i: nat) returns (ptr: int)
      requires Linked() && i < |blocks| && block == blocks[i].addr && blocks[i].free
      requires 8 <= size <= blocks[i].size && size % 8 == 0
      modifies this`blocks, space`ram, space`tlb, space`words, space`log
      ensures Linked() && blocks == Take(old(blocks), i, size)
      ensures ptr == old(blocks[i].Payload())
      ensures LiveKept(old(space.words), space.words, old(blocks))
    {
      hide Mmu.AddressSpace.Valid;
      hide Mmu.AddressSpace.Slots;
      hide Paging.SetWord, Paging.IsHeapWord, Paging.FrameOf;
      hide Frames.FrameAllocator.Used;
      hide Frames.FrameAllocator.Free;
      hide Ordered, Represents, Mapped, LiveKept, Replace, SplitList, Take;
      TakeIsSplitAndMark(blocks, i, size);
      TakeKeepsLayout(blocks, heapEnd, i, size);
      SplitBlock(block, size, i);
      ghost var mem := space.words;
      HeaderInMemory(mem, blocks, heapEnd, i);
      FlagWritten(mem, blocks, heapEnd, i, false);
      space.Store(block + FREE, 0);
      LiveKeptThroughSplit(old(space.words), mem, space.words, old(blocks), i, size);
      MappedGrows(mem, space.words, heapEnd);
      blocks := blocks[i := blocks[i].(free := false)];
      ptr := block + HEADER_SIZE;
    }

    /** malloc; granted is how many pages of a growth the frames allow. No byte of a block in use changes, and no frame
        is taken but for pages of a growth. */
    method Malloc(size: int) returns (ptr: int, ghost granted: nat)
      requires Valid()
      requires 0 <= size <= MAX_REQUEST && RoomToGrow(State(), size, Grants(AlignUp(size, 8)))
      modifies this, space`ram, space`tlb, space`words, space`endPage, space`log, space.pmm.bitmap
      ensures Valid() && old(space.pmm.Used()) <= space.pmm.Used()
      ensures granted == old(Grants(AlignUp(size, 8)))
      ensures space.pmm.Used() ==
              if size == 0 || FirstFit(old(blocks), AlignUp(size, 8)) < |old(blocks)| then old(space.pmm.Used())
              else PageRuns.MapPages(old(space.Mem()), GrowBytes(AlignUp(size, 8)) / PAGE_SIZE).used
      ensures MallocResult(State(), ptr) == HeapBlocks.Malloc(old(State()), size, granted)
      ensures LiveKept(old(space.words), space.words, old(blocks))
      ensures ptr == 0 <==> size == 0 || (FirstFit(old(blocks), AlignUp(size, 8)) == |old(blocks)|
                                          && old(space.pmm.Free()) < old(FramesFor(AlignUp(size, 8))))
      ensures HeapClients.Transition(old(Client()), HeapClients.HeapCall(Alloc(size, granted)), Client())
      ensures Paging.SameLowPages(old(space.ram), space.ram, space.dir)
    {
      hide Mmu.AddressSpace.Valid;
      hide Mmu.AddressSpace.Slots;
      hide Paging.SetWord, Paging.IsHeapWord, Paging.FrameOf;
      hide Frames.FrameAllocator.Used;
      hide Frames.FrameAllocator.Free;
      hide Ordered, Represents, Mapped, LiveKept, PagesGranted, Take, Bytes, Coalesced, PageRuns.MapPages;
      hide Paging.SameLowPages;
      space.LowPagesSinceStart();
      var need := AlignUp(size, 8);
      granted := Grants(need);
      GrantedAllIff(space.pmm.Free(), space.Slots(), heapEnd / PAGE_SIZE, GrowBytes(need) / PAGE_SIZE);
      MallocMeetsItsContract(State(), size, granted);
      LiveKeptReflexive(space.words, blocks);
      ghost var before := Client();
      if size == 0 {
        HeapClients.CallDone(before, Alloc(size, granted), Client());
        LowPagesSince(space.start.ram, space.ram, space.ram, space.dir);
        return 0, granted;
      }
      RequestRounded(size);
      var block, i := Search(need);
      if block != 0 {
        ptr := TakeBlock(block, need, i);
      } else {
        ptr := MallocGrowing(need, granted);
      }
      HeapClients.CallDone(before, Alloc(size, granted), Client());
      space.LowPagesSinceStart();
      LowPagesSince(space.start.ram, old(space.ram), space.ram, space.dir);
    }

    /** malloc when no free block is large enough. */
    method MallocGrowing(need: int, ghost granted: nat) returns (ptr: int)
      requires Linked() && heapEnd % PAGE_SIZE == 0
      requires 8 <= need <= MAX_REQUEST && need % 8 == 0
      requires granted == Grants(need) && heapEnd + granted * PAGE_SIZE <= HEAP_LIMIT
      modifies this, space`ram, space`tlb, space`words, space`endPage, space`log, space.pmm.bitmap
      ensures Linked() && old(space.pmm.Used()) <= space.pmm.Used()
      ensures granted < GrowBytes(need) / PAGE_SIZE ==>
                && ptr == 0 && blocks == old(blocks)
                && heapEnd == old(heapEnd) + granted * PAGE_SIZE && lost == old(lost) + granted * PAGE_SIZE
      ensures granted == GrowBytes(need) / PAGE_SIZE ==>
                && ptr == old(heapEnd) + HEADER_SIZE && lost == old(lost)
                && heapEnd == old(heapEnd) + GrowBytes(need)
                && blocks == Take(Grown(old(State()), GrowBytes(need)), |old(blocks)|, need)
      ensures space.pmm.Used() ==
              PageRuns.MapPages(old(space.Mem()), GrowBytes(need) / PAGE_SIZE).used
      ensures LiveKept(old(space.words), space.words, old(blocks))
    {
      hide Mmu.AddressSpace.Valid;
      hide Mmu.AddressSpace.Slots;
      hide Paging.SetWord, Paging.IsHeapWord, Paging.FrameOf;
      hide Frames.FrameAllocator.Used;
      hide Frames.FrameAllocator.Free;
      hide Ordered, Represents, Mapped, LiveKept, PagesGranted, Take, Bytes, Coalesced;
      hide AlignUp, GrowBytes, Grown, Good, PageRuns.MapPages;
      GrowRequest(need);
      Aligned8Sum(need, HEADER_SIZE);
      ghost var words0, blocks0 := space.words, blocks;
      var block := HeapGrow(need + HEADER_SIZE);
      if block == 0 {
        lost := lost + (heapEnd - old(heapEnd));
        return 0;
      }
      ghost var words1, blocks1 := space.words, blocks;
      GrownLast(old(State()), GrowBytes(need));
      ptr := TakeBlock(block, need, |blocks| - 1);
      LiveKeptOfPrefix(words1, space.words, blocks0, blocks1);
      LiveKeptTransitive(words0, words1, space.words, blocks0);
    }

    /** A page fault between two heap calls; present is the processor's P bit, so a clear bit means the page
        is not mapped. The heap's own pages are, hence the fault changes nothing of the heap. Only inside the recursive
        window may it do harm, if the frame it takes for a table holds present entries. */
    method PageFault(present: bool, faultAddr: int) returns (handled: bool, ghost clean: bool)
      requires Valid() && 0 <= faultAddr < WORD_LIMIT
      requires !present ==> Paging.Walk(space.ram, space.dir, faultAddr / PAGE_SIZE).None?
      modifies space`ram, space`tlb, space`words, space`endPage, space`log, space.pmm.bitmap
      ensures handled <==> !present && faultAddr >= HEAP_START && old(space.pmm.Free()) > 0
      ensures clean <==> handled && faultAddr >= RECURSIVE_TABLES ==>
                Paging.HoldsNoEntry(old(space.ram), Frames.FrameOrZero(old(space.pmm.Used()), space.pmm.Capacity()))
      ensures State() == old(State())
      ensures clean ==>
                && Valid() && LiveKept(old(space.words), space.words, blocks)
                && HeapClients.Transition(old(Client()), HeapClients.Fault, Client())
                && Paging.SameLowPages(old(space.ram), space.ram, space.dir)
      ensures handled && faultAddr < RECURSIVE_TABLES ==> space.Mem() == PageRuns.MapFault(old(space.Mem()), faultAddr / PAGE_SIZE)
      ensures !handled ==> space.Mem() == old(space.Mem())
    {
      hide Mmu.AddressSpace.Valid;
      hide Mmu.AddressSpace.Slots;
      hide Paging.SetWord, Paging.IsHeapWord, Paging.FrameOf, Paging.Walk, Paging.SameLowPages;
      hide Frames.FrameAllocator.Used;
      hide Frames.FrameAllocator.Free;
      hide Ordered, Represents, LiveKept, Bytes, Coalesced, PageRuns.MapNew, PageRuns.CanMap, Paging.MapInWindow;
      ghost var mem, page := space.words, faultAddr / PAGE_SIZE;
      space.LowPagesSinceStart();
      if !present {
        space.MissingPage(page);
      }
      clean := !present && faultAddr >= HEAP_START && space.pmm.Free() > 0 && faultAddr >= RECURSIVE_TABLES ==>
        Paging.HoldsNoEntry(space.ram, Frames.FrameOrZero(space.pmm.Used(), space.pmm.Capacity()));
      handled := space.HandlePageFault(present, faultAddr);
      if clean {
        space.LowPagesSinceStart();
        LowPagesSince(space.start.ram, old(space.ram), space.ram, space.dir);
        if handled && faultAddr < RECURSIVE_TABLES {
          FaultBeyondEnd(mem, space.words, page, heapEnd);
        } else {
          SameBelowReflexive(mem, heapEnd);
        }
        RepresentsBelow(mem, space.words, blocks, heapEnd);
      }
    }

    /** A client's store to memory malloc gave it. */
    method Store(a: int, word: int)
      requires Valid() && HeapClients.Writable(blocks, a) && 0 <= word < WORD_LIMIT
      modifies space`ram, space`tlb, space`words, space`log
      ensures Valid() && State() == old(State())
      ensures HeapClients.Transition(old(Client()), HeapClients.Store(a, word), Client())
    {
      hide Mmu.AddressSpace.Valid;
      hide Mmu.AddressSpace.Slots;
      hide Paging.SetWord, Paging.IsHeapWord, Paging.FrameOf;
      hide Frames.FrameAllocator.Used;
      hide Frames.FrameAllocator.Free;
      hide Ordered, Represents, Mapped, Bytes, Coalesced;
      ghost var b :| b in Live(blocks) && HeapClients.InPayload(b, a);
      HeapClients.StoreKeepsHeap(space.words, blocks, heapEnd, b, a, word);
      space.Store(a, word);
    }

    /** A client's load. */
    method Load(a: int) returns (word: int)
      requires Valid() && HeapClients.Writable(blocks, a)
      modifies space`tlb
      ensures Valid() && a in space.words && word == space.words[a]
    {
      hide Mmu.AddressSpace.Valid;
      hide Ordered, Represents, Mapped, Bytes, Coalesced;
      ghost var b :| b in Live(blocks) && HeapClients.InPayload(b, a);
      HeapClients.StoreKeepsHeap(space.words, blocks, heapEnd, b, a, 0);
      word := space.Load(a);
    }

    /** The pages behind the heap, as PagesOwned says. */
    lemma PagesBehindTheHeap()
      requires Valid()
      ensures PagesOwned(space.ram, space.dir, space.pmm.Used(), heapEnd / PAGE_SIZE)
    {
      hide Ordered, Represents, Bytes, Coalesced, PagesOwned;
      hide Frames.FrameAllocator.Used;
      MappedPagesOwned(space.words, space.ram, space.dir, space.pmm.Used(), heapEnd);
    }

    /** malloc's walk: the first free block of at least need bytes, NULL if there is none. */
    method Search(need: int) returns (block: int, ghost i: nat)
      requires Linked()
      modifies space`tlb
      ensures Linked() && i == FirstFit(blocks, need)
      ensures block == AddrOf(blocks, i)
      ensures block == 0 <==> i == |blocks|
    {
      hide Mmu.AddressSpace.Valid;
      hide Mmu.AddressSpace.Slots;
      hide Paging.SetWord, Paging.IsHeapWord, Paging.FrameOf;
      hide Frames.FrameAllocator.Used;
      hide Frames.FrameAllocator.Free;
      hide Ordered, Represents, Mapped;
      block := head;
      i := 0;
      EndBehindStart(blocks, heapEnd);
      while block != 0
        invariant space.Valid()
        invariant 0 <= i <= |blocks| && block == AddrOf(blocks, i)
        invariant forall k :: 0 <= k < i ==> !(blocks[k].free && blocks[k].size >= need)
        decreases |blocks| - i
      {
        HeaderInMemory(space.words, blocks, heapEnd, i);
        var free := space.Load(block + FREE);
        var blockSize := space.Load(block + SIZE);
        if free != 0 && blockSize >= need {
          FirstFitIs(blocks, need, i);
          return;
        }
        block := space.Load(block + NEXT);
        i := i + 1;
      }
      FirstFitIs(blocks, need, i);
    }

    /** free of a null or live pointer. No byte of another block in use changes. */
    method Free(ptr: int)
      requires Valid() && (ptr == 0 || IsLive(blocks, ptr))
      modifies this`blocks, space`ram, space`tlb, space`words, space`log
      ensures Valid() && State() == HeapBlocks.Free(old(State()), ptr)
      ensures forall b :: b in Live(blocks) ==> b in Live(old(blocks)) && PayloadKept(old(space.words), space.words, b)
      ensures HeapClients.Transition(old(Client()), HeapClients.HeapCall(Dealloc(ptr)), Client())
      ensures Paging.SameLowPages(old(space.ram), space.ram, space.dir)
    {
      hide Mmu.AddressSpace.Valid;
      hide Mmu.AddressSpace.Slots;
      hide Paging.SetWord, Paging.IsHeapWord, Paging.FrameOf;
      hide Frames.FrameAllocator.Used;
      hide Frames.FrameAllocator.Free;
      hide Ordered, Represents, Mapped, Bytes, Coalesced, MergeIf, LiveKept;
      hide Paging.SameLowPages;
      space.LowPagesSinceStart();
      FreeMeetsItsContract(State(), ptr);
      if ptr == 0 {
        LiveKeptReflexive(space.words, blocks);
        LiveBlocksKept(space.words, space.words, space.words, space.words, blocks, blocks, blocks, blocks);
        LowPagesSince(space.start.ram, space.ram, space.ram, space.dir);
        return;
      }
      ghost var i: int := IndexFrom(blocks, ptr, 0);
      var block := ptr - HEADER_SIZE;
      ghost var words0, blocks0 := space.words, blocks;
      HeaderInMemory(words0, blocks, heapEnd, i);
      FlagWritten(words0, blocks, heapEnd, i, true);
      FreedKeepsLayout(blocks, heapEnd, i);
      space.Store(block + FREE, 1);
      MappedGrows(words0, space.words, heapEnd);
      blocks := Freed(blocks, i);
      ghost var words1, blocks1 := space.words, blocks;
      MergeIfKeepsLayout(blocks1, heapEnd, i);
      MergeForward(block, i);
      ghost var words2, blocks2 := space.words, blocks;
      MergeIfKeepsLayout(blocks2, heapEnd, i - 1);
      MergeBackward(block, i);
      LiveBlocksKept(words0, words1, words2, space.words, blocks0, blocks1, blocks2, blocks);
      space.LowPagesSinceStart();
      LowPagesSince(space.start.ram, old(space.ram), space.ram, space.dir);
    }

    /** free's first test: the block with its successor. */
    method MergeForward(block: int, ghost i: nat)
      requires Linked() && i < |blocks| && block == blocks[i].addr && blocks[i].free
      modifies this`blocks, space`ram, space`tlb, space`words, space`log
      ensures Linked() && blocks == MergeIf(old(blocks), i)
      ensures LiveKept(old(space.words), space.words, old(blocks))
      ensures i < |blocks| && blocks[i].addr == block && blocks[i].free
    {
      hide Mmu.AddressSpace.Valid;
      hide Mmu.AddressSpace.Slots;
      hide Paging.SetWord, Paging.IsHeapWord, Paging.FrameOf;
      hide Frames.FrameAllocator.Used;
      hide Frames.FrameAllocator.Free;
      hide Ordered, Represents, Mapped, Merge, LiveKept;
      HeaderInMemory(space.words, blocks, heapEnd, i);
      LiveKeptReflexive(space.words, blocks);
      var next := space.Load(block + NEXT);
      if next != 0 {
        HeaderInMemory(space.words, blocks, heapEnd, i + 1);
        var nextFree := space.Load(next + FREE);
        if nextFree != 0 {
          var size := space.Load(block + SIZE);
          if block + HEADER_SIZE + size == next {
            MergePair(block, next, i);
          }
        }
      }
    }

    /** free's second test: the block with its predecessor. */
    method MergeBackward(block: int, ghost i: nat)
      requires Linked() && i < |blocks| && block == blocks[i].addr && blocks[i].free
      modifies this`blocks, space`ram, space`tlb, space`words, space`log
      ensures Linked() && blocks == MergeIf(old(blocks), i - 1)
      ensures LiveKept(old(space.words), space.words, old(blocks))
    {
      hide Mmu.AddressSpace.Valid;
      hide Mmu.AddressSpace.Slots;
      hide Paging.SetWord, Paging.IsHeapWord, Paging.FrameOf;
      hide Frames.FrameAllocator.Used;
      hide Frames.FrameAllocator.Free;
      hide Ordered, Represents, Mapped, Merge, LiveKept;
      HeaderInMemory(space.words, blocks, heapEnd, i);
      LiveKeptReflexive(space.words, blocks);
      EndBehindStart(blocks, heapEnd);
      var prev := space.Load(block + PREV);
      if prev != 0 {
        HeaderInMemory(space.words, blocks, heapEnd, i - 1);
        var prevFree := space.Load(prev + FREE);
        if prevFree != 0 {
          var size := space.Load(prev + SIZE);
          if prev + HEADER_SIZE + size == block {
            MergePair(prev, block, i - 1);
          }
        }
      }
    }

    /** The writes of a merge: the second block's header becomes payload of the first. */
    method MergePair(first: int, second: int, ghost i: nat)
      requires Linked() && Mergeable(blocks, i) && first == blocks[i].addr && second == blocks[i + 1].addr
      modifies this`blocks, space`ram, space`tlb, space`words, space`log
      ensures Linked() && blocks == Merge(old(blocks), i)
      ensures LiveKept(old(space.words), space.words, old(blocks))
      ensures i < |blocks| && blocks[i].addr == first && blocks[i].free
    {
      hide Mmu.AddressSpace.Valid;
      hide Mmu.AddressSpace.Slots;
      hide Paging.SetWord, Paging.IsHeapWord, Paging.FrameOf;
      hide Frames.FrameAllocator.Used;
      hide Frames.FrameAllocator.Free;
      hide Ordered, Represents, Mapped, Merge, LiveKept, BackLink;
      ghost var mem := space.words;
      HeaderInMemory(mem, blocks, heapEnd, i);
      HeaderInMemory(mem, blocks, heapEnd, i + 1);
      MergeDone(mem, blocks, heapEnd, i);
      var firstSize := space.Load(first + SIZE);
      var secondSize := space.Load(second + SIZE);
      var next := space.Load(second + NEXT);
      space.Store(first + SIZE, firstSize + HEADER_SIZE + secondSize);
      space.Store(first + NEXT, next);
      LinkBack(next, first);
      blocks := Merge(blocks, i);
    }
  }

  lemma LowPagesSince(start: Paging.Ram, ram: Paging.Ram, r: Paging.Ram, dir: int)
    requires Paging.SameLowPages(start, ram, dir) && Paging.SameLowPages(start, r, dir)
    ensures Paging.SameLowPages(ram, r, dir)
  {
  }

  // ---- Steps of the proofs above ------------------------------------------------------------------

  lemma InitialLayout()
    ensures Ordered(InitialHeap().blocks, InitialHeap().end) && Good(InitialHeap())
  {
    BytesOne(InitialHeap().blocks[0]);
  }

  lemma SameBelowReflexive(mem: Memory, end: int)
    ensures SameBelow(mem, mem, end)
  {
  }

  /** The page of a word that can be read is mapped. */
  lemma WordsAreMapped(words: Memory, ram: Paging.Ram, dir: int, a: int)
    requires Paging.IsView(words, ram, dir) && a % PAGE_SIZE == 0
    ensures a in words <==> Paging.IsHeapPage(ram, dir, a / PAGE_SIZE)
  {
    PagesAreAligned(a);
    assert Paging.IsHeapWord(ram, dir, a) <==> Paging.IsHeapPage(ram, dir, a / PAGE_SIZE) by {
      assert a == 8 * (a / 8) == 4 * (2 * (a / 8));
    }
  }

  /** Each page from HEAP_START up to endPage is present, kernel-only and writable, on a frame of its own
      that is marked used and holds no page table. */
  ghost predicate PagesOwned(ram: Paging.Ram, dir: int, used: set<int>, endPage: int) {
    && (forall p :: HEAP_START / PAGE_SIZE <= p < endPage ==>
          && Paging.IsHeapPage(ram, dir, p)
          && var f := Paging.FrameOf(ram, dir, p);
             && Paging.Walk(ram, dir, p) == Some(Paging.Translation(f, true, false))
             && f in used && !Paging.IsTableFrame(ram, dir, f))
    && (forall p, q :: Paging.IsHeapPage(ram, dir, p) && Paging.IsHeapPage(ram, dir, q) && p != q
          ==> Paging.FrameOf(ram, dir, p) != Paging.FrameOf(ram, dir, q))
  }

  lemma MappedPagesOwned(words: Memory, ram: Paging.Ram, dir: int, used: set<int>, end: int)
    requires Paging.IsView(words, ram, dir) && Paging.FramesOwned(ram, dir, used)
    requires Mapped(words, end) && end % PAGE_SIZE == 0
    ensures PagesOwned(ram, dir, used, end / PAGE_SIZE)
  {
    forall p | HEAP_START / PAGE_SIZE <= p < end / PAGE_SIZE
      ensures Paging.IsHeapPage(ram, dir, p)
    {
      assert p * PAGE_SIZE % 4 == 0 by {
        assert p * PAGE_SIZE == 4 * (1024 * p);
      }
      WordsAreMapped(words, ram, dir, p * PAGE_SIZE);
    }
  }

  lemma FaultBeyondEnd(mem: Memory, mem': Memory, page: int, end: int)
    requires Mapped(mem, end) && end % PAGE_SIZE == 0 && HEAP_START / PAGE_SIZE <= page
    requires Mmu.PageAdded(mem, mem', page) && page * PAGE_SIZE !in mem
    ensures Mapped(mem', end) && SameBelow(mem, mem', end)
  {
    PagesAdded(0, page);
    PagesAreAligned(page * PAGE_SIZE);
    assert page * PAGE_SIZE % 4 == 0 by {
      assert page * PAGE_SIZE == 4 * (1024 * page);
    }
    assert page * PAGE_SIZE >= end;
    forall a | HEAP_START <= a < end && a in mem
      ensures a in mem' && mem'[a] == mem[a]
    {
      assert a / PAGE_SIZE != page;
    }
  }

  lemma PageAddedBehind(m0: Memory, m1: Memory, m2: Memory, low: int, end: int)
    requires HEAP_START <= low <= end && end % PAGE_SIZE == 0
    requires SameBelow(m0, m1, low) && Mmu.PageAdded(m1, m2, end / PAGE_SIZE)
    ensures SameBelow(m0, m2, low)
    ensures Mapped(m1, end) ==> Mapped(m2, end + PAGE_SIZE)
  {
    forall a | HEAP_START <= a < low && a in m0
      ensures a in m2 && m2[a] == m0[a]
    {
      assert a / PAGE_SIZE != end / PAGE_SIZE;
    }
    if Mapped(m1, end) {
      forall a | HEAP_START <= a < end + PAGE_SIZE && a % 4 == 0
        ensures a in m2
      {
        assert a < end || a / PAGE_SIZE == end / PAGE_SIZE;
      }
    }
  }

  lemma NothingMapped(mem: Memory, end: int)
    requires end == HEAP_START
    ensures Mapped(mem, end)
  {
  }

  /** The first header as memory_init writes it: all but 16 bytes of 64 KB, free, no neighbours. */
  predicate FirstHeader(mem: Memory) {
    && 0xD0000000 in mem && mem[0xD0000000] == 65520 && 0xD0000004 in mem && mem[0xD0000004] == 1
    && 0xD0000008 in mem && mem[0xD0000008] == 0 && 0xD000000C in mem && mem[0xD000000C] == 0
  }

  lemma InitialMemory(mem: Memory, end: int)
    requires Mapped(mem, end)
    ensures var mem' := NewHeader(mem, InitialHeap().blocks[0], 0, 0);
            Represents(mem', InitialHeap().blocks) && Mapped(mem', end) && FirstHeader(mem')
  {
    assert HeaderAt(NewHeader(mem, InitialHeap().blocks[0], 0, 0), InitialHeap().blocks, 0);
  }

  lemma OrderedHigher(bs: seq<Block>, end: int, end': int)
    requires Ordered(bs, end) && end <= end'
    ensures Ordered(bs, end')
  {
  }

  lemma NewHeaderKeeps(mem: Memory, bs: seq<Block>, end: int, b: Block)
    requires Ordered(bs, end) && Represents(mem, bs) && b.addr == end
    ensures var mem' := NewHeader(mem, b, 0, 0);
            Represents(mem', bs) && mem.Keys <= mem'.Keys && b.addr + PREV in mem'
  {
    RepresentsBelow(mem, NewHeader(mem, b, 0, 0), bs, end);
  }

  /** heap_grow as a whole, from the memory before the new pages (mem0) on. */
  lemma GrowDone(mem0: Memory, mem1: Memory, mem2: Memory, mem3: Memory, bs: seq<Block>, end: int, b: Block)
    requires Ordered(bs, end) && Represents(mem1, bs) && Mapped(mem1, b.End()) && LiveKept(mem0, mem1, bs)
    requires b.addr == end && BlockOk(b)
    requires mem2 == NewHeader(mem1, b, 0, 0)
    requires mem3 == mem2[bs[|bs| - 1].addr + NEXT := b.addr][b.addr + PREV := bs[|bs| - 1].addr]
    ensures Ordered(bs + [b], b.End()) && Represents(mem3, bs + [b]) && Mapped(mem3, b.End()) && LiveKept(mem0, mem3, bs)
  {
    GrowWritten(mem1, bs, end, b);
    assert mem3 == GrowWrites(mem1, b, bs[|bs| - 1].addr);
    LiveKeptTransitive(mem0, mem1, mem3, bs);
    GrownOrdered(bs, end, b);
    MappedGrows(mem1, mem3, b.End());
  }

  lemma MappedGrows(mem: Memory, mem': Memory, end: int)
    requires Mapped(mem, end) && mem.Keys <= mem'.Keys
    ensures Mapped(mem', end)
  {
  }

  /** A header's words are in memory, and a next link that is not NULL leads to another header. */
  lemma HeaderInMemory(mem: Memory, bs: seq<Block>, end: int, i: nat)
    requires Ordered(bs, end) && Represents(mem, bs) && i < |bs|
    ensures HeaderIs(mem, bs[i], AddrOf(bs, i + 1), AddrOf(bs, i - 1))
    ensures BlockOk(bs[i]) && bs[i].End() <= end && 0 <= AddrOf(bs, i + 1) <= end && 0 <= AddrOf(bs, i - 1) <= end
    ensures AddrOf(bs, i + 1) != 0 ==> AddrOf(bs, i + 1) + PREV in mem
  {
    assert HeaderAt(mem, bs, i);
    if i + 1 < |bs| {
      assert HeaderAt(mem, bs, i + 1);
    }
  }

  lemma RestInMemory(mem: Memory, end: int, b: Block, size: int)
    requires Mapped(mem, end) && BlockOk(b) && b.End() <= end
    requires 8 <= size && size % 8 == 0 && b.size - size >= HEADER_SIZE + 16
    ensures var n := Rest(b, size).addr;
            n + SIZE in mem && n + FREE in mem && n + NEXT in mem && n + PREV in mem
  {
    Aligned8Sum(b.addr, HEADER_SIZE);
    Aligned8Sum(b.addr + HEADER_SIZE, size);
    hide Mapped;
    HeaderRoom(mem, end, Rest(b, size).addr);
  }

  /** There is room for a header at an aligned address 16 bytes below the end of the mapped part. */
  lemma HeaderRoom(mem: Memory, end: int, n: int)
    requires Mapped(mem, end) && HEAP_START <= n && n + HEADER_SIZE <= end && n % 8 == 0
    ensures n + SIZE in mem && n + FREE in mem && n + NEXT in mem && n + PREV in mem
  {
    assert (n + 4) % 4 == 0 && (n + 8) % 4 == 0 && (n + 12) % 4 == 0;
  }

  lemma NewHeaderKeys(mem: Memory, b: Block, next: int, prev: int)
    ensures mem.Keys <= NewHeader(mem, b, next, prev).Keys
  {
  }

  lemma SplitChain(mem: Memory, mem1: Memory, mem2: Memory, mem3: Memory, b: Block, size: int, next: int)
    requires mem1 == NewHeader(mem, Rest(b, size), next, b.addr)
    requires mem2 == BackLink(mem1, next, Rest(b, size).addr)
    requires mem3 == mem2[b.addr + NEXT := Rest(b, size).addr][b.addr + SIZE := size]
    ensures mem3 == SplitWrites(mem, b, size, next)
  {
  }

  /** split_block as a whole. */
  lemma SplitDone(mem: Memory, bs: seq<Block>, end: int, i: nat, size: int)
    requires Ordered(bs, end) && Represents(mem, bs) && Mapped(mem, end) && i < |bs| && bs[i].free
    requires 8 <= size <= bs[i].size && size % 8 == 0
    ensures Ordered(SplitList(bs, i, size), end)
    ensures bs[i].size - size < HEADER_SIZE + 16 ==> SplitList(bs, i, size) == bs
    ensures var mem' := if bs[i].size - size < HEADER_SIZE + 16 then mem
                        else SplitWrites(mem, bs[i], size, AddrOf(bs, i + 1));
            Represents(mem', SplitList(bs, i, size)) && Mapped(mem', end) && LiveKept(mem, mem', bs)
  {
    SplitKeepsOrder(bs, end, i, size);
    if bs[i].size - size >= HEADER_SIZE + 16 {
      SplitWritten(mem, bs, end, i, size);
      MappedGrows(mem, SplitWrites(mem, bs[i], size, AddrOf(bs, i + 1)), end);
    }
  }

  lemma LiveKeptReflexive(mem: Memory, bs: seq<Block>)
    ensures LiveKept(mem, mem, bs)
  {
  }

  lemma FirstFitIs(bs: seq<Block>, size: int, i: nat)
    requires i <= |bs|
    requires forall k :: 0 <= k < i ==> !(bs[k].free && bs[k].size >= size)
    requires i < |bs| ==> bs[i].free && bs[i].size >= size
    ensures FirstFit(bs, size) == i
  {
  }

  lemma AlignedUp(needed: int)
    ensures AlignUp(needed, PAGE_SIZE) % PAGE_SIZE == 0
  {
  }

  lemma RequestRounded(size: int)
    requires 0 < size <= MAX_REQUEST
    ensures var need := AlignUp(size, 8); 8 <= need <= MAX_REQUEST && need % 8 == 0
  {
    AlignmentSufficesIff(size);
  }

  lemma GrowRequest(need: int)
    requires 8 <= need <= MAX_REQUEST && need % 8 == 0
    ensures GrowBytes(need) == AlignUp(need + HEADER_SIZE, PAGE_SIZE) >= need + HEADER_SIZE
    ensures GrowBytes(need) % PAGE_SIZE == 0
  {
    hide AlignUp;
    GrowthSufficesIff(need);
    assert Wrap32(need + HEADER_SIZE) == need + HEADER_SIZE;
  }

  lemma GrownLast(h: HeapState, bytes: int)
    ensures var g := Grown(h, bytes);
            |g| == |h.blocks| + 1 && h.blocks <= g && g[|g| - 1] == Block(h.end, bytes - HEADER_SIZE, true)
  {
  }

  lemma LiveKeptOfPrefix(mem: Memory, mem': Memory, bs: seq<Block>, longer: seq<Block>)
    requires bs <= longer && LiveKept(mem, mem', longer)
    ensures LiveKept(mem, mem', bs)
  {
    assert forall k :: 0 <= k < |bs| ==> bs[k] == longer[k];
  }

  /** Blocks still in use at the end of free were in use at each step of it. */
  lemma LiveBlocksKept(m0: Memory, m1: Memory, m2: Memory, m3: Memory,
                       bs0: seq<Block>, bs1: seq<Block>, bs2: seq<Block>, bs3: seq<Block>)
    requires LiveKept(m0, m1, bs0) && LiveKept(m1, m2, bs1) && LiveKept(m2, m3, bs2)
    requires Live(bs1) <= Live(bs0) && Live(bs2) == Live(bs1) && Live(bs3) == Live(bs2)
    ensures forall b :: b in Live(bs3) ==> b in Live(bs0) && PayloadKept(m0, m3, b)
  {
    forall b | b in Live(bs3)
      ensures b in Live(bs0) && PayloadKept(m0, m3, b)
    {
      assert b in Live(bs0) && b in Live(bs1) && b in Live(bs2);
      assert PayloadKept(m0, m1, b) && PayloadKept(m1, m2, b) && PayloadKept(m2, m3, b);
    }
  }

  /** A merge as a whole. */
  lemma MergeDone(mem: Memory, bs: seq<Block>, end: int, i: nat)
    requires Ordered(bs, end) && Represents(mem, bs) && Mapped(mem, end) && Mergeable(bs, i)
    ensures Ordered(Merge(bs, i), end)
    ensures var mem' := MergeWrites(mem, bs[i], bs[i + 1], AddrOf(bs, i + 2));
            Represents(mem', Merge(bs, i)) && Mapped(mem', end) && LiveKept(mem, mem', bs)
    ensures i < |Merge(bs, i)| && Merge(bs, i)[i] == Joined(bs[i], bs[i + 1])
    ensures 0 <= bs[i].size + HEADER_SIZE + bs[i + 1].size <= end
  {
    MergeKeepsLayout(bs, end, i);
    MergeWritten(mem, bs, end, i);
    MergeLinks(bs, i, i);
    MappedGrows(mem, MergeWrites(mem, bs[i], bs[i + 1], AddrOf(bs, i + 2)), end);
    assert BlockOk(bs[i]) && BlockOk(bs[i + 1]) && bs[i + 1].End() <= end;
  }
}
