/** The main properties of the kernel heap over its block list: what one call promises, what free
    undoes, and what every run of calls keeps. */
module HeapRuns {

  import opened Machine
  import opened HeapBlocks

  /** The pages a growth for a request of size bytes really maps, granted being how many the frames allow,
      stay below the recursive page-table window. */
  predicate RoomToGrow(h: HeapState, size: int, granted: nat) {
    || size == 0
    || FirstFit(h.blocks, AlignUp(size, 8)) < |h.blocks|
    || h.end + Min(granted, GrowBytes(AlignUp(size, 8)) / PAGE_SIZE) * PAGE_SIZE <= HEAP_LIMIT
  }

  /** No growth of h for a request of size bytes fails. */
  predicate Granted(h: HeapState, size: int, granted: nat) {
    FirstFit(h.blocks, AlignUp(size, 8)) < |h.blocks| || granted >= GrowBytes(AlignUp(size, 8)) / PAGE_SIZE
  }

  // ---- One call ---------------------------------------------------------------------------

  /** Two blocks never share an address, payload or header. */
  lemma BlocksDisjoint(h: HeapState, a: Block, b: Block, x: int)
    requires Good(h) && a in h.blocks && b in h.blocks && a != b
    ensures !(a.addr <= x < a.End() && b.addr <= x < b.End())
    ensures HEAP_START <= a.addr && a.End() <= h.end
  {
    var i :| 0 <= i < |h.blocks| && h.blocks[i] == a;
    var j :| 0 <= j < |h.blocks| && h.blocks[j] == b;
    assert i < j ==> a.End() <= b.addr;
    assert j < i ==> b.End() <= a.addr;
  }

  lemma IndexOf(bs: seq<Block>, end: int, i: nat)
    requires Ordered(bs, end) && i < |bs|
    ensures IndexFrom(bs, bs[i].Payload(), 0) == i
  {
    assert forall k :: 0 <= k < |bs| && k != i ==> bs[k].Payload() != bs[i].Payload();
  }

  lemma PageBlockOk(end: int, bytes: int)
    requires HEAP_START <= end && end % PAGE_SIZE == 0 && 0 < bytes && bytes % PAGE_SIZE == 0
    ensures BlockOk(Block(end, bytes - HEADER_SIZE, true)) && end % 8 == 0
  {
    PagesAreAligned(end);
    PagesAreAligned(bytes);
  }

  lemma GrownLayout(h: HeapState, bytes: int)
    requires Good(h) && bytes % PAGE_SIZE == 0 && 0 < bytes
    ensures Ordered(Grown(h, bytes), h.end + bytes)
    ensures Bytes(Grown(h, bytes)) == Bytes(h.blocks) + bytes
  {
    hide Ordered, Bytes, Coalesced, BlockOk;
    var b := Block(h.end, bytes - HEADER_SIZE, true);
    EndBehindStart(h.blocks, h.end);
    PageBlockOk(h.end, bytes);
    GrownOrdered(h.blocks, h.end, b);
    BytesAppend(h.blocks, [b]);
    BytesOne(b);
  }

  /** Before the new block is taken, only the old last block can adjoin it. */
  lemma GrownPairs(bs: seq<Block>, b: Block)
    requires Coalesced(bs)
    ensures forall k :: Mergeable(bs + [b], k) ==> k == |bs| - 1
  {
    assert forall k :: Mergeable(bs + [b], k) && k != |bs| - 1 ==> Mergeable(bs, k);
  }

  /** bs' has one more block in use than bs: at addr, of at least need bytes and at most 24 more. */
  ghost predicate OneMoreInUse(bs: seq<Block>, bs': seq<Block>, addr: int, need: int) {
    exists b: Block :: b.addr == addr && need <= b.size <= need + 24 && b !in Live(bs) && Live(bs') == Live(bs) + {b}
  }

  lemma TakenIsGood(bs: seq<Block>, end: int, i: nat, size: int)
    requires Ordered(bs, end) && i < |bs| && bs[i].free
    requires 8 <= size <= bs[i].size && size % 8 == 0
    requires forall k :: Mergeable(bs, k) ==> k == i - 1
    ensures var t := Take(bs, i, size);
            && Ordered(t, end) && Bytes(t) == Bytes(bs) && Coalesced(t)
            && IsLive(t, bs[i].Payload())
            && OneMoreInUse(bs, t, bs[i].addr, size)
            && bs[i].Payload() % 8 == 0 && bs[i].Payload() > 0
  {
    hide Bytes, Mergeable, Coalesced, Take;
    TakeIsMarked(bs, i, size);
    assert BlockOk(bs[i]);
    Aligned8Sum(bs[i].addr, HEADER_SIZE);
    TakeKeepsLayout(bs, end, i, size);
    TakeKeepsCoalesced(bs, end, i, size);
    TakeAddsOne(bs, end, i, size);
    IndexOf(Take(bs, i, size), end, i);
  }

  lemma GrownTakenIsGood(h: HeapState, size: int)
    requires Good(h) && 8 <= size <= MAX_REQUEST && size % 8 == 0
    ensures var bytes := GrowBytes(size);
            var t := Take(Grown(h, bytes), |h.blocks|, size);
            && bytes % PAGE_SIZE == 0
            && Ordered(t, h.end + bytes) && Bytes(t) == Bytes(h.blocks) + bytes && Coalesced(t)
            && IsLive(t, h.end + HEADER_SIZE)
            && OneMoreInUse(h.blocks, t, h.end, size)
            && h.end > 0 && h.end % 8 == 0
  {
    hide Ordered, Bytes, Coalesced, Take, IsLive, AlignUp, GrowBytes;
    EndBehindStart(h.blocks, h.end);
    GrowthSufficesIff(size);
    var bytes := GrowBytes(size);
    GrownLayout(h, bytes);
    GrownPairs(h.blocks, Block(h.end, bytes - HEADER_SIZE, true));
    TakenIsGood(Grown(h, bytes), h.end + bytes, |h.blocks|, size);
    assert Live(Grown(h, bytes)) == Live(h.blocks);
  }

  /** malloc keeps the heap good. It fails only for size 0 or when a needed growth fails; otherwise
      exactly one block joins those in use, at least the request and at most 24 bytes over the
      8-aligned request: the lowest sufficient free block, or a new one at heap_end if there is none. */
  lemma MallocMeetsItsContract(h: HeapState, size: int, granted: nat)
    requires Good(h) && 0 <= size <= MAX_REQUEST && RoomToGrow(h, size, granted)
    ensures var r := Malloc(h, size, granted);
            var need := AlignUp(size, 8);
            var i := FirstFit(h.blocks, need);
            && Good(r.heap)
            && (r.ptr == 0 <==> size == 0 || !Granted(h, size, granted))
            && (r.ptr == 0 ==> r.heap.blocks == h.blocks)
            && (r.ptr != 0 ==>
                  && r.heap.lost == h.lost && r.ptr % 8 == 0 && size <= need < size + 8
                  && IsLive(r.heap.blocks, r.ptr)
                  && r.ptr == (if i < |h.blocks| then h.blocks[i].addr else h.end) + HEADER_SIZE
                  && OneMoreInUse(h.blocks, r.heap.blocks, r.ptr - HEADER_SIZE, need))
  {
    hide Good, IsLive, OneMoreInUse, Live, MallocAligned;
    if size != 0 {
      AlignmentSufficesIff(size);
      var need := AlignUp(size, 8);
      if FirstFit(h.blocks, need) < |h.blocks| {
        FitCase(h, need, granted);
      } else if Granted(h, size, granted) {
        GrowCase(h, need, granted);
      } else {
        FailCase(h, need, granted);
      }
    }
  }

  lemma FitCase(h: HeapState, need: int, granted: nat)
    requires Good(h) && 8 <= need && need % 8 == 0
    requires FirstFit(h.blocks, need) < |h.blocks|
    ensures var r := MallocAligned(h, need, granted);
            && Good(r.heap) && r.heap.lost == h.lost && r.ptr % 8 == 0 && r.ptr > 0
            && r.ptr == h.blocks[FirstFit(h.blocks, need)].addr + HEADER_SIZE
            && IsLive(r.heap.blocks, r.ptr)
            && OneMoreInUse(h.blocks, r.heap.blocks, r.ptr - HEADER_SIZE, need)
  {
    hide Ordered, Bytes, Take, IsLive, OneMoreInUse, Live;
    TakenIsGood(h.blocks, h.end, FirstFit(h.blocks, need), need);
  }

  lemma GrowCase(h: HeapState, need: int, granted: nat)
    requires Good(h) && 8 <= need <= MAX_REQUEST && need % 8 == 0
    requires FirstFit(h.blocks, need) == |h.blocks|
    requires granted >= GrowBytes(need) / PAGE_SIZE && h.end + GrowBytes(need) <= HEAP_LIMIT
    ensures var r := MallocAligned(h, need, granted);
            && Good(r.heap) && r.heap.lost == h.lost && r.ptr % 8 == 0 && r.ptr > 0
            && r.ptr == h.end + HEADER_SIZE
            && IsLive(r.heap.blocks, r.ptr)
            && OneMoreInUse(h.blocks, r.heap.blocks, r.ptr - HEADER_SIZE, need)
  {
    hide Good, Ordered, Bytes, Take, IsLive, OneMoreInUse, Live, AlignUp, MallocAligned;
    var g := HeapState(Take(Grown(h, GrowBytes(need)), |h.blocks|, need), h.end + GrowBytes(need), h.lost);
    GrowResult(h, need, granted, g);
    GrownHeapIsGood(h, need, GrowBytes(need), g);
  }

  lemma GrowResult(h: HeapState, need: int, granted: nat, g: HeapState)
    requires FirstFit(h.blocks, need) == |h.blocks| && granted >= GrowBytes(need) / PAGE_SIZE
    requires g == HeapState(Take(Grown(h, GrowBytes(need)), |h.blocks|, need), h.end + GrowBytes(need), h.lost)
    ensures MallocAligned(h, need, granted) == MallocResult(g, h.end + HEADER_SIZE)
  {
  }

  lemma GrownHeapIsGood(h: HeapState, need: int, bytes: int, g: HeapState)
    requires Good(h) && 8 <= need <= MAX_REQUEST && need % 8 == 0
    requires bytes == GrowBytes(need) && h.end + bytes <= HEAP_LIMIT
    requires g == HeapState(Take(Grown(h, bytes), |h.blocks|, need), h.end + bytes, h.lost)
    ensures Good(g) && g.lost == h.lost && h.end > 0 && h.end % 8 == 0
    ensures IsLive(g.blocks, h.end + HEADER_SIZE)
    ensures OneMoreInUse(h.blocks, g.blocks, h.end, need)
  {
    hide Ordered, Bytes, Coalesced, Take, IsLive, OneMoreInUse, Live, AlignUp, GrowBytes;
    GrownTakenIsGood(h, need);
    assert (h.end + bytes) % PAGE_SIZE == 0;
  }

  lemma FailCase(h: HeapState, need: int, granted: nat)
    requires Good(h) && 8 <= need <= MAX_REQUEST && need % 8 == 0
    requires FirstFit(h.blocks, need) == |h.blocks|
    requires granted < GrowBytes(need) / PAGE_SIZE && h.end + granted * PAGE_SIZE <= HEAP_LIMIT
    ensures var r := MallocAligned(h, need, granted);
            Good(r.heap) && r.ptr == 0 && r.heap.blocks == h.blocks
  {
    hide Bytes, Coalesced, AlignUp, GrowBytes;
    PagesAdded(h.end, granted);
    assert Ordered(h.blocks, h.end + granted * PAGE_SIZE);
  }

  /** What malloc returns has room for the request below heap_end exactly when no rounding wrapped. (The
      sizes in the headers are no measure beyond that: they wrap as well.) */
  lemma PayloadCoversRequestIff(h: HeapState, size: int, granted: nat)
    requires Good(h) && 0 < size < WORD_LIMIT
    requires size <= MAX_REQUEST ==> RoomToGrow(h, size, granted)
    requires Malloc(h, size, granted).ptr != 0
    ensures var r := Malloc(h, size, granted); r.ptr + size <= r.heap.end <==> size <= MAX_REQUEST
  {
    var r := Malloc(h, size, granted);
    if size <= MAX_REQUEST {
      MallocMeetsItsContract(h, size, granted);
      var b: Block :| b.addr == r.ptr - HEADER_SIZE && AlignUp(size, 8) <= b.size && Live(r.heap.blocks) == Live(h.blocks) + {b};
      assert b in Live(r.heap.blocks);
    } else {
      WrappedGrowth(size);
      var i := FirstFit(h.blocks, AlignUp(size, 8));
      if i < |h.blocks| {
        assert BlockOk(h.blocks[i]) && h.blocks[i].End() <= h.end;
      } else {
        EndBehindStart(h.blocks, h.end);
      }
    }
  }

  /** A request that wraps maps a page at most. */
  lemma WrappedGrowth(size: int)
    requires MAX_REQUEST < size < WORD_LIMIT
    ensures 0 <= GrowBytes(AlignUp(size, 8)) <= PAGE_SIZE
  {
    if size > WORD_LIMIT - 8 {
      assert AlignUp(size, 8) == 0;
    } else {
      var need := AlignUp(size, 8);
      AlignmentSufficesIff(size);
      if need + HEADER_SIZE >= WORD_LIMIT {
        assert Wrap32(need + HEADER_SIZE) < 16;
      } else {
        assert Wrap32(need + HEADER_SIZE) + PAGE_SIZE - 1 >= WORD_LIMIT;
      }
    }
  }

  /** malloc(0xFFFFFFFF) gives the first block with no payload at all, and malloc(0xFFFFFFF0) maps
      nothing and gives an address behind heap_end. */
  lemma WrappedRequests()
    ensures var r := Malloc(InitialHeap(), 0xFFFFFFFF, 0);
            r.ptr == HEAP_START + HEADER_SIZE && r.heap.end == InitialHeap().end && r.heap.blocks[0].size == 0
    ensures var r := Malloc(InitialHeap(), 0xFFFFFFF0, 0);
            r.ptr == InitialHeap().end + HEADER_SIZE && r.heap.end == InitialHeap().end
  {
    assert AlignUp(0xFFFFFFFF, 8) == 0;
    assert FirstFit(InitialHeap().blocks, 0) == 0;
    assert AlignUp(0xFFFFFFF0, 8) == 0xFFFFFFF0 && GrowBytes(0xFFFFFFF0) == 0;
    assert FirstFit(InitialHeap().blocks, 0xFFFFFFF0) == 1;
  }

  /** The heap of 64 KB after memory_init, cut into blocks. */
  function SmallHeap(bs: seq<Block>): HeapState {
    HeapState(bs, 0xD0010000, 0)
  }

  const WHOLE: seq<Block> := [Block(0xD0000000, 65520, true)]
  const ONE_USED: seq<Block> := [Block(0xD0000000, 104, false), Block(0xD0000078, 65400, true)]
  const TWO_USED: seq<Block> :=
    [Block(0xD0000000, 104, false), Block(0xD0000078, 24, false), Block(0xD00000A0, 65360, true)]
  const FIRST_FREE: seq<Block> :=
    [Block(0xD0000000, 104, true), Block(0xD0000078, 24, false), Block(0xD00000A0, 65360, true)]
  const REUSED: seq<Block> := [Block(0xD0000000, 56, false), Block(0xD0000048, 32, true), Block(0xD0000078, 24, false),
                               Block(0xD00000A0, 65360, true)]
  const LAST_USED: seq<Block> := [Block(0xD0000000, 56, false), Block(0xD0000048, 65448, true)]

  /** A run in numbers: malloc(100), malloc(24), free of the first, malloc(50) in its place with the rest split off, and
      both freed, which leaves one block again. */
  lemma FirstCalls()
    ensures InitialHeap() == SmallHeap(WHOLE)
    ensures Malloc(SmallHeap(WHOLE), 100, 0) == MallocResult(SmallHeap(ONE_USED), 0xD0000010)
    ensures Malloc(SmallHeap(ONE_USED), 24, 0) == MallocResult(SmallHeap(TWO_USED), 0xD0000088)
    ensures Free(SmallHeap(TWO_USED), 0xD0000010) == SmallHeap(FIRST_FREE)
    ensures Malloc(SmallHeap(FIRST_FREE), 50, 0) == MallocResult(SmallHeap(REUSED), 0xD0000010)
    ensures Free(SmallHeap(REUSED), 0xD0000088) == SmallHeap(LAST_USED)
    ensures Free(SmallHeap(LAST_USED), 0xD0000010) == SmallHeap(WHOLE)
  {
    FirstAllocations();
    Reuse();
    LastFrees();
  }

  lemma FirstAllocations()
    ensures InitialHeap() == SmallHeap(WHOLE)
    ensures Malloc(SmallHeap(WHOLE), 100, 0) == MallocResult(SmallHeap(ONE_USED), 0xD0000010)
    ensures Malloc(SmallHeap(ONE_USED), 24, 0) == MallocResult(SmallHeap(TWO_USED), 0xD0000088)
  {
    assert Take(WHOLE, 0, 104) == ONE_USED;
    assert Take(ONE_USED, 1, 24) == TWO_USED;
  }

  lemma Reuse()
    ensures Free(SmallHeap(TWO_USED), 0xD0000010) == SmallHeap(FIRST_FREE)
    ensures Malloc(SmallHeap(FIRST_FREE), 50, 0) == MallocResult(SmallHeap(REUSED), 0xD0000010)
  {
    assert Release(TWO_USED, 0) == FIRST_FREE;
    assert Take(FIRST_FREE, 0, 56) == REUSED;
  }

  lemma LastFrees()
    ensures Free(SmallHeap(REUSED), 0xD0000088) == SmallHeap(LAST_USED)
    ensures Free(SmallHeap(LAST_USED), 0xD0000010) == SmallHeap(WHOLE)
  {
    var freed := Freed(REUSED, 2);
    assert Merge(freed, 2) == [freed[0], freed[1], Block(0xD0000078, 65400, true)];
    assert Merge(Merge(freed, 2), 1) == LAST_USED;
    assert Release(REUSED, 2) == LAST_USED;
    assert Merge(Freed(LAST_USED, 0), 0) == WHOLE;
    assert Release(LAST_USED, 0) == WHOLE;
  }

  /** free of a live pointer keeps the heap good and takes exactly its block from those in use. */
  lemma FreeMeetsItsContract(h: HeapState, ptr: int)
    requires Good(h) && (ptr == 0 || IsLive(h.blocks, ptr))
    ensures var r := Free(h, ptr);
            && Good(r) && r.end == h.end && r.lost == h.lost
            && (ptr == 0 ==> r == h)
            && (ptr != 0 ==> exists b :: b in Live(h.blocks) && b.Payload() == ptr
                                         && Live(r.blocks) == Live(h.blocks) - {b})
  {
    if ptr != 0 {
      var i := IndexFrom(h.blocks, ptr, 0);
      ReleaseKeepsLayout(h.blocks, h.end, i);
      ReleaseKeepsCoalesced(h.blocks, i);
    }
  }

  /** Freeing what malloc returned restores the heap exactly, unless malloc had to grow it. */
  lemma FreeUndoesMalloc(h: HeapState, size: int, granted: nat)
    requires Good(h) && 0 < size <= MAX_REQUEST
    requires FirstFit(h.blocks, AlignUp(size, 8)) < |h.blocks|
    ensures var r := Malloc(h, size, granted);
            IsLive(r.heap.blocks, r.ptr) && Free(r.heap, r.ptr) == h
  {
    AlignmentSufficesIff(size);
    var need := AlignUp(size, 8);
    var i := FirstFit(h.blocks, need);
    TakeKeepsLayout(h.blocks, h.end, i, need);
    IndexOf(Take(h.blocks, i, need), h.end, i);
    ReleaseUndoesTake(h.blocks, i, need);
  }

  lemma ReleaseUndoesTake(bs: seq<Block>, i: nat, size: int)
    requires i < |bs| && bs[i].free && Coalesced(bs)
    ensures Take(bs, i, size)[i].addr == bs[i].addr && !Take(bs, i, size)[i].free
    ensures Release(Take(bs, i, size), i) == bs
  {
    var c := Cut(bs[i], size);
    ReplaceAt(bs, i, i + 1, c);
    var s := Freed(Take(bs, i, size), i);
    assert !Mergeable(bs, i) && !Mergeable(bs, i - 1);
    if |c| == 1 {
      assert s == bs;
    } else {
      assert Mergeable(s, i);
      ReplaceAt(s, i, i + 2, [bs[i]]);
      assert Merge(s, i) == bs;
    }
  }

  // ---- Every run ---------------------------------------------------------------------------

  /** A call: malloc, with the pages that could be mapped should it grow the heap; or free. */
  datatype Call = Alloc(size: int, granted: nat) | Dealloc(ptr: int)

  /** The calls the source allows in state h. */
  predicate Allowed(h: HeapState, c: Call) {
    match c
    case Alloc(size, granted) => 0 <= size <= MAX_REQUEST && RoomToGrow(h, size, granted)
    case Dealloc(ptr) => ptr == 0 || IsLive(h.blocks, ptr)
  }

  function Step(h: HeapState, c: Call): HeapState
    requires Allowed(h, c)
  {
    match c
    case Alloc(size, granted) => Malloc(h, size, granted).heap
    case Dealloc(ptr) => Free(h, ptr)
  }

  /** Each call is allowed when its turn comes. */
  predicate IsRun(h: HeapState, calls: seq<Call>)
    decreases |calls|
  {
    calls == [] || (Allowed(h, calls[0]) && IsRun(Step(h, calls[0]), calls[1..]))
  }

  function Run(h: HeapState, calls: seq<Call>): HeapState
    requires IsRun(h, calls)
    decreases |calls|
  {
    if calls == [] then h else Run(Step(h, calls[0]), calls[1..])
  }

  lemma InitialHeapIsGood()
    ensures Good(InitialHeap())
  {
    BytesOne(InitialHeap().blocks[0]);
  }

  /** Every run keeps order, alignment, disjointness, maximal coalescing and conservation of space. */
  lemma {:induction false} RunsStayGood(h: HeapState, calls: seq<Call>)
    requires Good(h) && IsRun(h, calls)
    ensures Good(Run(h, calls))
    decreases |calls|
  {
    if calls != [] {
      match calls[0] {
        case Alloc(size, granted) => MallocMeetsItsContract(h, size, granted);
        case Dealloc(ptr) => FreeMeetsItsContract(h, ptr);
      }
      RunsStayGood(Step(h, calls[0]), calls[1..]);
    }
  }

  /** A call whose growth fails after some of its pages, but not all, were mapped. */
  predicate FailsPartWay(h: HeapState, c: Call) {
    c.Alloc? && c.size > 0 && !Granted(h, c.size, c.granted) && c.granted > 0
  }

  /** No growth of the run fails part-way. A growth that fails on its first page is no such growth. */
  predicate NoPartialFailure(h: HeapState, calls: seq<Call>)
    requires IsRun(h, calls)
    decreases |calls|
  {
    calls == [] || (!FailsPartWay(h, calls[0]) && NoPartialFailure(Step(h, calls[0]), calls[1..]))
  }

  /** One call loses exactly the pages of a growth that fails part-way. */
  lemma StepLoses(h: HeapState, c: Call)
    requires Good(h) && Allowed(h, c)
    ensures Good(Step(h, c))
    ensures Step(h, c).lost == h.lost + if FailsPartWay(h, c) then c.granted * PAGE_SIZE else 0
  {
    hide Good, IsLive, OneMoreInUse, Live;
    match c
    case Alloc(size, granted) =>
      MallocMeetsItsContract(h, size, granted);
      hide Granted, RoomToGrow;
      FailedGrowthLoses(h, size, granted);
    case Dealloc(ptr) => FreeMeetsItsContract(h, ptr);
  }

  lemma FailedGrowthLoses(h: HeapState, size: int, granted: nat)
    ensures size > 0 && !Granted(h, size, granted) ==> Malloc(h, size, granted).heap.lost == h.lost + granted * PAGE_SIZE
    ensures size == 0 ==> Malloc(h, size, granted).heap.lost == h.lost
  {
  }

  /** Over a run the lost bytes only grow, and stay what they were exactly when no growth fails part-way. */
  lemma {:induction false} LostIff(h: HeapState, calls: seq<Call>)
    requires Good(h) && IsRun(h, calls)
    ensures Run(h, calls).lost >= h.lost
    ensures Run(h, calls).lost == h.lost <==> NoPartialFailure(h, calls)
    decreases |calls|
  {
    if calls != [] {
      hide Good, Step, Allowed, Granted;
      StepLoses(h, calls[0]);
      LostIff(Step(h, calls[0]), calls[1..]);
    }
  }

  /** Ordered blocks take at most the room they lie in, and all of it only without gaps. */
  lemma {:induction false} FullHeapHasNoGaps(bs: seq<Block>, end: int)
    requires Ordered(bs, end)
    ensures Bytes(bs) <= end - HEAP_START
    ensures Bytes(bs) == end - HEAP_START ==> bs[|bs| - 1].End() == end
    ensures Bytes(bs) == end - HEAP_START ==> forall i :: 0 <= i < |bs| - 1 ==> Adjacent(bs[i], bs[i + 1])
    decreases |bs|
  {
    var last := bs[|bs| - 1];
    var init := bs[..|bs| - 1];
    if init == [] {
      assert Bytes(init) == 0;
    } else {
      FullHeapHasNoGaps(init, last.addr);
      if Bytes(bs) == end - HEAP_START {
        forall i | 0 <= i < |bs| - 1
          ensures Adjacent(bs[i], bs[i + 1])
        {
          if i < |init| - 1 {
            assert Adjacent(init[i], init[i + 1]);
          }
        }
      }
    }
  }

  /** With everything free, one free block spans the whole heap exactly when nothing was lost. */
  lemma AllFreeIsOneBlock(h: HeapState)
    requires Good(h) && Live(h.blocks) == {}
    ensures h.blocks == [Block(HEAP_START, h.end - HEAP_START - HEADER_SIZE, true)] <==> h.lost == 0
  {
    if h.lost == 0 {
      FullHeapHasNoGaps(h.blocks, h.end);
      forall i | 0 <= i < |h.blocks|
        ensures h.blocks[i].free
      {
        assert h.blocks[i] !in Live(h.blocks);
      }
      assert |h.blocks| > 1 ==> Mergeable(h.blocks, 0);
      assert h.blocks == [h.blocks[0]];
    } else {
      BytesOne(Block(HEAP_START, h.end - HEAP_START - HEADER_SIZE, true));
    }
  }

  /** From memory_init, a run that frees everything ends with one free block over the whole heap if and
      only if no growth of the run failed part-way. */
  lemma FreeingEverythingRestoresTheHeapIff(calls: seq<Call>)
    requires IsRun(InitialHeap(), calls)
    requires Live(Run(InitialHeap(), calls).blocks) == {}
    ensures var h := Run(InitialHeap(), calls);
            h.blocks == [Block(HEAP_START, h.end - HEAP_START - HEADER_SIZE, true)]
            <==> NoPartialFailure(InitialHeap(), calls)
  {
    InitialHeapIsGood();
    RunsStayGood(InitialHeap(), calls);
    LostIff(InitialHeap(), calls);
    AllFreeIsOneBlock(Run(InitialHeap(), calls));
  }

  /** An instance of such a failure: after one page of an eighteen-page growth was mapped, the heap ends a page
      behind its only block. */
  lemma FailedGrowthLeavesAGap()
    ensures var h := Malloc(InitialHeap(), 0x11000, 1).heap;
            && Allowed(InitialHeap(), Alloc(0x11000, 1)) && FailsPartWay(InitialHeap(), Alloc(0x11000, 1))
            && h.lost == PAGE_SIZE && |h.blocks| == 1 && h.blocks[0].free
            && h.blocks[0].End() == h.end - PAGE_SIZE
  {
    hide AlignUp, GrowBytes, FirstFit, InitialHeap;
    GapSizes();
  }

  lemma GapSizes()
    ensures AlignUp(0x11000, 8) == 0x11000 && GrowBytes(0x11000) == 0x12000
    ensures InitialHeap() == HeapState([Block(HEAP_START, 65520, true)], HEAP_START + 0x10000, 0)
    ensures FirstFit(InitialHeap().blocks, 0x11000) == 1
  {
    InOneBlock(0x11000);
    hide FirstFit, Wrap32;
    SmallWord(0x11007);
    SmallWord(0x11010);
    SmallWord(0x1200F);
  }

  lemma InOneBlock(size: int)
    requires size > 65520
    ensures FirstFit(InitialHeap().blocks, size) == 1
  {
  }

  lemma SmallWord(x: int)
    requires 0 <= x < WORD_LIMIT
    ensures Wrap32(x) == x
  {
  }
}
