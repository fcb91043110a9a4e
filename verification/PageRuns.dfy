/** Whole runs of the paging layer: heap growth, page faults and heap stores in any order, over the
    set of used frames and the page tables in RAM. */
module PageRuns {

  import opened Machine
  import opened Frames
  import opened Paging

  /** Used frames, RAM, the directory's frame, and the first page behind the heap (heap_end / 4096). */
  datatype MemState = MemState(used: set<int>, capacity: nat, ram: Ram, dir: int, endPage: int)

  datatype Event =
    | GrowPage                          // one iteration of heap_map_pages
    | Fault(page: int)                  // a page fault on a page that is not present
    | WindowFault(slot: int)            // one at the alias of an empty directory slot
    | HeapStore(addr: int, word: int)   // any store to heap memory, the allocator's or a client's

  /** The frame mmu_map_page takes for a page table, when phys was taken for the page itself: with no frame left
      it is frame 0, for the allocator's answer is not tested. */
  function TableFrame(s: MemState, phys: int, page: int): int {
    if Slot(s.ram, s.dir, page / 1024).present then 0 else FrameOrZero(s.used + {phys}, s.capacity)
  }

  /** What pmm_alloc_frame and mmu_map_page do for one kernel heap page. */
  ghost function MapNew(s: MemState, page: int): MemState
    requires TablesOk(s.ram, s.dir) && s.capacity <= |s.ram| && HEAP_PAGE <= page < WINDOW_PAGE
  {
    match LowestFree(s.used, s.capacity)
    case None => s
    case Some(phys) =>
      s.(used := s.used + FramesTaken(s.ram, s.dir, TableFrame(s, phys, page), phys, page),
         ram := MapPage(s.ram, s.dir, TableFrame(s, phys, page), phys, page, true, false))
  }

  lemma MapNewResult(s: MemState, page: int, phys: int, r: MemState)
    requires TablesOk(s.ram, s.dir) && s.capacity <= |s.ram| && HEAP_PAGE <= page < WINDOW_PAGE
    requires LowestFree(s.used, s.capacity) == Some(phys)
    requires r == s.(used := s.used + FramesTaken(s.ram, s.dir, TableFrame(s, phys, page), phys, page),
                     ram := MapPage(s.ram, s.dir, TableFrame(s, phys, page), phys, page, true, false))
    ensures MapNew(s, page) == r
  {
  }

  /** A frame for the page. */
  ghost predicate CanMap(s: MemState, page: int) {
    && TablesOk(s.ram, s.dir) && s.capacity <= |s.ram| && HEAP_PAGE <= page < WINDOW_PAGE
    && LowestFree(s.used, s.capacity).Some?
  }

  /** pages pages behind the heap, as long as they can be mapped: heap_map_pages. */
  ghost function MapPages(s: MemState, pages: nat): MemState
    decreases pages
  {
    if pages == 0 || !CanMap(s, s.endPage) then s
    else MapPages(MapNew(s, s.endPage).(endPage := s.endPage + 1), pages - 1)
  }

  /** What a fault on page makes of the state. */
  ghost function MapFault(s: MemState, page: int): MemState {
    if CanMap(s, page) then MapNew(s, page) else s
  }

  ghost predicate Allowed(s: MemState, e: Event) {
    match e
    case GrowPage => LowestFree(s.used, s.capacity).None? || s.endPage < WINDOW_PAGE
    case Fault(page) => HEAP_PAGE <= page < WINDOW_PAGE && !IsHeapPage(s.ram, s.dir, page)
    case WindowFault(slot) =>
      && 0 <= slot < 1024 && Walk(s.ram, s.dir, WINDOW_PAGE + slot).None?
      && (LowestFree(s.used, s.capacity).Some? ==> HoldsNoEntry(s.ram, LowestFree(s.used, s.capacity).value))
    case HeapStore(a, _) => IsHeapWord(s.ram, s.dir, a)
  }

  /** The invariant: the heap's pages are all present; heap pages are kernel-only, writable, on distinct
      frames; heap frames, page tables and directory are disjoint and all marked used. Frame 0 is reserved, so
      behind no heap page, and a page table only once no frame is left. */
  ghost predicate Inv(s: MemState) {
    && TablesOk(s.ram, s.dir)
    && s.capacity <= |s.ram|
    && FramesOwned(s.ram, s.dir, s.used)
    && HEAP_PAGE <= s.endPage <= WINDOW_PAGE
    && (forall p :: HEAP_PAGE <= p < s.endPage ==> IsHeapPage(s.ram, s.dir, p))
    && 0 in s.used
    && (forall p :: IsHeapPage(s.ram, s.dir, p) ==> FrameOf(s.ram, s.dir, p) != 0)
    && (IsTableFrame(s.ram, s.dir, 0) ==> LowestFree(s.used, s.capacity).None?)
  }

  ghost function Step(s: MemState, e: Event): MemState
    requires Inv(s) && Allowed(s, e)
  {
    match e
    case GrowPage =>
      if LowestFree(s.used, s.capacity).None? then s else MapNew(s, s.endPage).(endPage := s.endPage + 1)
    case Fault(page) => MapNew(s, page)
    case WindowFault(slot) =>
      (match LowestFree(s.used, s.capacity)
       case None => s
       case Some(phys) => s.(used := s.used + {phys},
                             ram := MapInWindow(s.ram, s.dir, WINDOW_PAGE + slot, Entry(true, true, false, phys))))
    case HeapStore(a, word) => s.(ram := SetWord(s.ram, FrameOf(s.ram, s.dir, a / PAGE_SIZE), a % PAGE_SIZE / 4, word))
  }

  /** Whenever there is a frame for a page, there is one for its table as well: a free one, or frame 0 for the
      first and last time. So the untested answer of the allocator never harms. */
  lemma TableFrameIsUnused(s: MemState, phys: int, page: int)
    requires Inv(s) && LowestFree(s.used, s.capacity) == Some(phys)
    requires !Slot(s.ram, s.dir, page / 1024).present
    ensures var t := TableFrame(s, phys, page);
            && 0 <= t < |s.ram| && t != phys && UnusedFrame(s.ram, s.dir, t)
            && (t == 0 <==> LowestFree(s.used + {phys}, s.capacity).None?)
            && (t != 0 ==> t !in s.used)
  {
  }

  /** Frames that hold something else: used, behind no page of the heap, no tables, and not frame 0. */
  ghost predicate KeptApart(s: MemState, frames: set<int>) {
    forall f :: f in frames ==> f in s.used && f != 0 && UnusedFrame(s.ram, s.dir, f)
  }

  /** A new mapping keeps the invariant and every other page's frame, and takes frames nobody had. */
  lemma MapNewKeepsInv(s: MemState, page: int)
    requires Inv(s) && HEAP_PAGE <= page < WINDOW_PAGE
    ensures var r := MapNew(s, page);
            && Inv(r) && s.used <= r.used
            && (LowestFree(s.used, s.capacity).Some? ==>
                  IsHeapPage(r.ram, r.dir, page) && FrameOf(r.ram, r.dir, page) !in s.used)
            && (forall p :: 0 <= p < WINDOW_PAGE && p != page ==> Walk(r.ram, r.dir, p) == Walk(s.ram, s.dir, p))
            && (forall f :: f in s.used && f != 0 && UnusedFrame(s.ram, s.dir, f) ==> UnusedFrame(r.ram, r.dir, f))
  {
    match LowestFree(s.used, s.capacity)
    case None =>
    case Some(phys) =>
      var t := TableFrame(s, phys, page);
      if !Slot(s.ram, s.dir, page / 1024).present {
        TableFrameIsUnused(s, phys, page);
      }
      NewPage(s, page, phys, t);
  }

  lemma NewPage(s: MemState, page: int, phys: int, t: int)
    requires Inv(s) && HEAP_PAGE <= page < WINDOW_PAGE && LowestFree(s.used, s.capacity) == Some(phys)
    requires 0 <= t < |s.ram|
    requires !Slot(s.ram, s.dir, page / 1024).present ==>
               && t != phys && UnusedFrame(s.ram, s.dir, t) && (t != 0 ==> t !in s.used)
               && (t == 0 ==> LowestFree(s.used + {phys}, s.capacity).None?)
    ensures var r := s.(used := s.used + FramesTaken(s.ram, s.dir, t, phys, page),
                        ram := MapPage(s.ram, s.dir, t, phys, page, true, false));
            && Inv(r)
            && IsHeapPage(r.ram, r.dir, page) && FrameOf(r.ram, r.dir, page) == phys
            && (forall p :: 0 <= p < WINDOW_PAGE && p != page ==> Walk(r.ram, r.dir, p) == Walk(s.ram, s.dir, p))
            && (forall f :: f in s.used && f != 0 && UnusedFrame(s.ram, s.dir, f) ==> UnusedFrame(r.ram, r.dir, f))
  {
    var r := s.(used := s.used + FramesTaken(s.ram, s.dir, t, phys, page),
                ram := MapPage(s.ram, s.dir, t, phys, page, true, false));
    HeapPageMapped(s.ram, s.dir, s.used, t, phys, page);
    MapPageExact(s.ram, s.dir, t, phys, page, true, false);
    TablesAfterMap(s, r, t, phys, page);
    hide MapPage, TablesOk, FramesOwned;
    forall p
      ensures IsHeapPage(r.ram, r.dir, p) <==> IsHeapPage(s.ram, s.dir, p) || p == page
      ensures IsHeapPage(r.ram, r.dir, p) ==> FrameOf(r.ram, r.dir, p) == if p == page then phys else FrameOf(s.ram, s.dir, p)
    {
    }
  }

  /** The tables after a mapping are those before and perhaps t. */
  lemma TablesAfterMap(s: MemState, r: MemState, t: int, phys: int, page: int)
    requires TablesOk(s.ram, s.dir) && 0 <= page < WINDOW_PAGE && 0 <= t < |s.ram| && r.dir == s.dir
    requires !Slot(s.ram, s.dir, page / 1024).present ==> !IsTableFrame(s.ram, s.dir, t)
    requires r.ram == MapPage(s.ram, s.dir, t, phys, page, true, false)
    ensures forall f :: IsTableFrame(r.ram, r.dir, f)
              <==> IsTableFrame(s.ram, s.dir, f) || (f == t && !Slot(s.ram, s.dir, page / 1024).present)
  {
    MapPageSlots(s.ram, s.dir, t, phys, page, true, false);
    var slot := page / 1024;
    assert forall i :: 0 <= i < 1024 && i != slot ==> (IsTable(r.ram, r.dir, i) <==> IsTable(s.ram, s.dir, i));
    assert IsTable(r.ram, r.dir, slot);
    forall f
      ensures IsTableFrame(r.ram, r.dir, f) <==> IsTableFrame(s.ram, s.dir, f) || (f == t && !Slot(s.ram, s.dir, slot).present)
    {
      if IsTableFrame(s.ram, s.dir, f) {
        var i :| IsTable(s.ram, s.dir, i) && Slot(s.ram, s.dir, i).frame == f;
        assert IsTable(r.ram, r.dir, i) && Slot(r.ram, r.dir, i).frame == f;
      }
      if IsTableFrame(r.ram, r.dir, f) {
        var i :| IsTable(r.ram, r.dir, i) && Slot(r.ram, r.dir, i).frame == f;
        assert i != slot ==> IsTable(s.ram, s.dir, i);
      }
    }
  }

  lemma WindowFaultKeepsInv(s: MemState, slot: int)
    requires Inv(s) && Allowed(s, WindowFault(slot))
    ensures var r := Step(s, WindowFault(slot));
            && Inv(r) && s.used <= r.used
            && (forall p :: 0 <= p < WINDOW_PAGE ==> Walk(r.ram, r.dir, p) == Walk(s.ram, s.dir, p))
            && (forall f :: f in s.used && UnusedFrame(s.ram, s.dir, f) ==> UnusedFrame(r.ram, r.dir, f))
            && (forall f :: IsTableFrame(r.ram, r.dir, f)
                  <==> IsTableFrame(s.ram, s.dir, f) || Some(f) == LowestFree(s.used, s.capacity))
  {
    match LowestFree(s.used, s.capacity)
    case None =>
    case Some(phys) =>
      var r := Step(s, WindowFault(slot));
      FreeFrameUnused(s.ram, s.dir, s.used, phys);
      WindowFaultKeepsWalksIff(s.ram, s.dir, slot, phys);
      WindowTables(s.ram, s.dir, slot, phys);
      hide MapInWindow, TablesOk;
      assert forall p :: IsHeapPage(r.ram, r.dir, p) <==> IsHeapPage(s.ram, s.dir, p);
      assert forall i :: IsTable(r.ram, r.dir, i) ==> IsTableFrame(r.ram, r.dir, Slot(r.ram, r.dir, i).frame);
      forall f | IsTableFrame(s.ram, s.dir, f)
        ensures f in s.used
      {
      }
  }

  lemma StepKeepsInv(s: MemState, e: Event)
    requires Inv(s) && Allowed(s, e)
    ensures Inv(Step(s, e)) && s.used <= Step(s, e).used && s.endPage <= Step(s, e).endPage
    ensures Step(s, e).dir == s.dir && |Step(s, e).ram| == |s.ram|
    ensures forall p :: 0 <= p < HEAP_PAGE ==> Walk(Step(s, e).ram, s.dir, p) == Walk(s.ram, s.dir, p)
    ensures forall frames :: KeptApart(s, frames) ==> KeptApart(Step(s, e), frames)
  {
    match e
    case GrowPage =>
      if LowestFree(s.used, s.capacity).Some? {
        MapNewKeepsInv(s, s.endPage);
      }
    case Fault(page) => MapNewKeepsInv(s, page);
    case WindowFault(slot) => WindowFaultKeepsInv(s, slot);
    case HeapStore(a, word) => StoreKeepsInv(s, a, word);
  }

  lemma StoreKeepsInv(s: MemState, a: int, word: int)
    requires Inv(s) && Allowed(s, HeapStore(a, word))
    ensures var r := Step(s, HeapStore(a, word));
            && Inv(r)
            && (forall p :: 0 <= p <= DIRECTORY_PAGE ==> Walk(r.ram, r.dir, p) == Walk(s.ram, s.dir, p))
            && (forall f :: UnusedFrame(s.ram, s.dir, f) ==> UnusedFrame(r.ram, r.dir, f))
  {
    StoreKeepsWalks(s.ram, s.dir, FrameOf(s.ram, s.dir, a / PAGE_SIZE), a % PAGE_SIZE / 4, word);
    StoreKeepsOwnership(s.ram, s.dir, s.used, a / PAGE_SIZE, a % PAGE_SIZE / 4, word);
    var r := Step(s, HeapStore(a, word));
    hide SetWord, TablesOk, FramesOwned;
    assert forall p :: IsHeapPage(s.ram, s.dir, p) <==> IsHeapPage(r.ram, r.dir, p);
  }

  ghost predicate IsRun(s: MemState, events: seq<Event>)
    requires Inv(s)
    decreases |events|
  {
    events == []
    || (Allowed(s, events[0]) && (StepKeepsInv(s, events[0]); IsRun(Step(s, events[0]), events[1..])))
  }

  ghost function Run(s: MemState, events: seq<Event>): MemState
    requires Inv(s) && IsRun(s, events)
    decreases |events|
  {
    if events == [] then s
    else StepKeepsInv(s, events[0]); Run(Step(s, events[0]), events[1..])
  }

  /** In every interleaving of growth, faults and stores the heap's pages are present, kernel-only and
      writable, on pairwise distinct frames; heap, table and directory frames are disjoint and marked
      used; frames once used stay used; nothing below the heap's window is remapped, so the identity map of
      the first 4 MB survives; and frames kept apart, such as those of the kernel and its bitmap, never
      become a table or heap memory. */
  lemma {:induction false} EveryRunKeepsFramesApart(s: MemState, events: seq<Event>)
    requires Inv(s) && IsRun(s, events)
    ensures var r := Run(s, events);
            && Inv(r) && s.used <= r.used && r.dir == s.dir && s.endPage <= r.endPage
            && (forall frames :: KeptApart(s, frames) ==> KeptApart(r, frames))
            && (forall p :: 0 <= p < HEAP_PAGE ==> Walk(r.ram, r.dir, p) == Walk(s.ram, s.dir, p))
            && (forall p :: HEAP_PAGE <= p < r.endPage ==>
                  && Walk(r.ram, r.dir, p).Some?
                  && Walk(r.ram, r.dir, p).value == Translation(FrameOf(r.ram, r.dir, p), true, false)
                  && FrameOf(r.ram, r.dir, p) in r.used && !IsTableFrame(r.ram, r.dir, FrameOf(r.ram, r.dir, p)))
            && (forall p, q :: HEAP_PAGE <= p < q < r.endPage && Walk(r.ram, r.dir, p).Some? && Walk(r.ram, r.dir, q).Some?
                  ==> FrameOf(r.ram, r.dir, p) != FrameOf(r.ram, r.dir, q))
    decreases |events|
  {
    if events == [] {
      assert forall p :: HEAP_PAGE <= p < s.endPage ==> IsHeapPage(s.ram, s.dir, p);
    } else {
      StepKeepsInv(s, events[0]);
      EveryRunKeepsFramesApart(Step(s, events[0]), events[1..]);
    }
  }

  /** Mapping pages behind the heap is a run of growth events: the memory behind heap_map_pages is one the
      theorem above speaks of. */
  lemma {:induction false} MappingPagesIsARun(s: MemState, pages: nat) returns (events: seq<Event>)
    requires Inv(s)
    ensures IsRun(s, events) && |events| <= pages && forall k :: 0 <= k < |events| ==> events[k] == GrowPage
    ensures Run(s, events).endPage == s.endPage + |events|
    ensures MapPages(s, pages) == Run(s, events)
    decreases pages
  {
    hide Inv, MapNew, IsRun, Run, MapPages, KeptApart;
    events := [];
    if pages > 0 && CanMap(s, s.endPage) {
      GrowWhileMapping(s);
      StepKeepsInv(s, GrowPage);
      var r := Step(s, GrowPage);
      var rest := MappingPagesIsARun(r, pages - 1);
      events := [GrowPage] + rest;
      RunStep(s, GrowPage, rest);
      MapPagesStep(s, pages);
    } else {
      MapPagesStep(s, pages);
      NoEvents(s);
    }
  }

  /** Mapping a page is the event of its caller: growth at the heap's end, or a fault on a missing page. */
  lemma MappingIsAnEvent(s: MemState, page: int, grows: bool)
    requires Inv(s) && CanMap(s, page)
    requires if grows then page == s.endPage else !IsHeapPage(s.ram, s.dir, page)
    ensures var e := if grows then GrowPage else Fault(page);
            Allowed(s, e) && Step(s, e) == MapNew(s, page).(endPage := s.endPage + if grows then 1 else 0)
    ensures s.used + {LowestFree(s.used, s.capacity).value} <= MapNew(s, page).used
  {
  }

  lemma StoreIsAnEvent(s: MemState, a: int, word: int)
    requires Inv(s) && IsHeapWord(s.ram, s.dir, a)
    ensures var f := FrameOf(s.ram, s.dir, a / PAGE_SIZE);
            && 0 <= f < |s.ram| && RamShape(s.ram)
            && Allowed(s, HeapStore(a, word))
            && Step(s, HeapStore(a, word)) == s.(ram := SetWord(s.ram, f, a % PAGE_SIZE / 4, word))
  {
  }

  lemma WindowFaultIsAnEvent(s: MemState, slot: int, phys: int)
    requires Inv(s) && 0 <= slot < 1024 && Walk(s.ram, s.dir, WINDOW_PAGE + slot).None?
    requires LowestFree(s.used, s.capacity) == Some(phys) && HoldsNoEntry(s.ram, phys)
    ensures Allowed(s, WindowFault(slot))
    ensures Step(s, WindowFault(slot)) == s.(used := s.used + {phys},
              ram := MapInWindow(s.ram, s.dir, WINDOW_PAGE + slot, Entry(true, true, false, phys)))
  {
  }

  lemma InvTables(s: MemState)
    requires Inv(s)
    ensures TablesOk(s.ram, s.dir) && FramesOwned(s.ram, s.dir, s.used) && s.capacity <= |s.ram|
  {
  }

  lemma GrowWhileMapping(s: MemState)
    requires Inv(s) && CanMap(s, s.endPage)
    ensures Allowed(s, GrowPage)
    ensures Step(s, GrowPage) == MapNew(s, s.endPage).(endPage := s.endPage + 1)
    ensures MapNew(s, s.endPage).endPage == s.endPage
  {
  }

  lemma RunStep(s: MemState, e: Event, rest: seq<Event>)
    requires Inv(s) && Allowed(s, e) && Inv(Step(s, e)) && IsRun(Step(s, e), rest)
    ensures IsRun(s, [e] + rest) && Run(s, [e] + rest) == Run(Step(s, e), rest)
  {
    assert ([e] + rest)[1..] == rest;
  }

  lemma {:induction false} RunAppend(s: MemState, events: seq<Event>, e: Event)
    requires Inv(s) && IsRun(s, events) && Inv(Run(s, events)) && Allowed(Run(s, events), e)
    ensures IsRun(s, events + [e]) && Run(s, events + [e]) == Step(Run(s, events), e)
    decreases |events|
  {
    hide Inv, Allowed, Step;
    if events == [] {
      assert events + [e] == [e];
      StepKeepsInv(s, e);
      NoEvents(Step(s, e));
      RunStep(s, e, []);
    } else {
      StepKeepsInv(s, events[0]);
      RunAppend(Step(s, events[0]), events[1..], e);
      assert (events + [e])[1..] == events[1..] + [e];
    }
  }

  lemma NoEvents(s: MemState)
    requires Inv(s)
    ensures IsRun(s, []) && Run(s, []) == s
  {
  }

  lemma MapPagesStep(s: MemState, pages: nat)
    ensures MapPages(s, pages) == if pages == 0 || !CanMap(s, s.endPage) then s
                                  else MapPages(MapNew(s, s.endPage).(endPage := s.endPage + 1), pages - 1)
  {
  }

  // ---- Frames that nobody holds -------------------------------------------------------------------

  ghost function TableFrames(s: MemState): set<int> {
    set i | 0 <= i < 1024 && IsTable(s.ram, s.dir, i) :: Slot(s.ram, s.dir, i).frame
  }

  ghost function HeapFrames(s: MemState): set<int> {
    set p | HEAP_PAGE <= p < WINDOW_PAGE && IsHeapPage(s.ram, s.dir, p) :: FrameOf(s.ram, s.dir, p)
  }

  /** The frames marked used that are neither reserved nor a table nor behind a heap page. */
  ghost function Leaked(s: MemState, reserved: set<int>): set<int> {
    s.used - reserved - TableFrames(s) - HeapFrames(s)
  }

  /** Reserved frames, frame 0 among them, are used and behind no heap page. */
  ghost predicate ReservedApart(s: MemState, reserved: set<int>) {
    0 in reserved && reserved <= s.used && reserved !! HeapFrames(s)
  }

  lemma NothingLeakedIff(s: MemState, reserved: set<int>)
    requires Inv(s) && ReservedApart(s, reserved)
    ensures Leaked(s, reserved) == {} <==> s.used == reserved + TableFrames(s) + HeapFrames(s)
  {
    assert TableFrames(s) <= s.used && HeapFrames(s) <= s.used;
    if Leaked(s, reserved) == {} {
      assert forall f :: f in s.used && f !in reserved + TableFrames(s) + HeapFrames(s) ==> f in Leaked(s, reserved);
      assert s.used == reserved + TableFrames(s) + HeapFrames(s);
    }
  }

  /** The frame behind page, which a new mapping of page leaves behind. */
  ghost function FrameLost(s: MemState, page: int): set<int> {
    if IsHeapPage(s.ram, s.dir, page) then {FrameOf(s.ram, s.dir, page)} else {}
  }

  lemma HeapFramesMapped(s: MemState, r: MemState, page: int, phys: int)
    requires FramesOwned(s.ram, s.dir, s.used) && HEAP_PAGE <= page < WINDOW_PAGE && r.dir == s.dir
    requires phys !in s.used
    requires forall p :: 0 <= p < WINDOW_PAGE && p != page ==> Walk(r.ram, r.dir, p) == Walk(s.ram, s.dir, p)
    requires Walk(r.ram, r.dir, page) == Some(Translation(phys, true, false))
    ensures HeapFrames(r) == HeapFrames(s) + {phys} - FrameLost(s, page)
  {
    assert IsHeapPage(r.ram, r.dir, page);
    forall f
      ensures f in HeapFrames(r) <==> f in HeapFrames(s) + {phys} - FrameLost(s, page)
    {
      if f in HeapFrames(r) && f != phys {
        var p :| HEAP_PAGE <= p < WINDOW_PAGE && IsHeapPage(r.ram, r.dir, p) && FrameOf(r.ram, r.dir, p) == f;
        assert p != page && IsHeapPage(s.ram, s.dir, p);
      }
      if f in HeapFrames(s) - FrameLost(s, page) {
        var p :| HEAP_PAGE <= p < WINDOW_PAGE && IsHeapPage(s.ram, s.dir, p) && FrameOf(s.ram, s.dir, p) == f;
        assert p != page ==> IsHeapPage(r.ram, r.dir, p) && FrameOf(r.ram, r.dir, p) == f;
      }
    }
  }

  lemma TableFramesAre(s: MemState)
    ensures forall f :: f in TableFrames(s) <==> IsTableFrame(s.ram, s.dir, f)
  {
    forall f
      ensures f in TableFrames(s) <==> IsTableFrame(s.ram, s.dir, f)
    {
      if i :| IsTable(s.ram, s.dir, i) && Slot(s.ram, s.dir, i).frame == f {
        assert 0 <= i < 1024;
      }
    }
  }

  /** Mapping a page anew leaks exactly the frame that was behind it. */
  lemma MapNewLeaks(s: MemState, page: int, reserved: set<int>)
    requires Inv(s) && ReservedApart(s, reserved) && CanMap(s, page)
    ensures var r := MapNew(s, page);
            ReservedApart(r, reserved) && Leaked(r, reserved) == Leaked(s, reserved) + FrameLost(s, page)
  {
    var phys := LowestFree(s.used, s.capacity).value;
    var t := TableFrame(s, phys, page);
    var r := MapNew(s, page);
    if !Slot(s.ram, s.dir, page / 1024).present {
      TableFrameIsUnused(s, phys, page);
    }
    MapPageExact(s.ram, s.dir, t, phys, page, true, false);
    HeapFramesMapped(s, r, page, phys);
    TablesAfterMap(s, r, t, phys, page);
    LostIsOwned(s, page);
    TableFramesAre(s);
    TableFramesAre(r);
    assert r.used == s.used + FramesTaken(s.ram, s.dir, t, phys, page);
    LeakAlgebra(s, r, page, t, phys, reserved, !Slot(s.ram, s.dir, page / 1024).present);
    hide *;
  }

  lemma LeakAlgebra(s: MemState, r: MemState, page: int, t: int, phys: int, reserved: set<int>, newTable: bool)
    requires ReservedApart(s, reserved) && phys !in s.used
    requires FrameLost(s, page) <= s.used && FrameLost(s, page) <= HeapFrames(s) && FrameLost(s, page) !! TableFrames(s)
    requires newTable ==> t == 0 || t !in s.used
    requires r.used == s.used + {phys} + if newTable then {t} else {}
    requires HeapFrames(r) == HeapFrames(s) + {phys} - FrameLost(s, page)
    requires forall f :: f in TableFrames(r) <==> f in TableFrames(s) || (f == t && newTable)
    ensures ReservedApart(r, reserved) && Leaked(r, reserved) == Leaked(s, reserved) + FrameLost(s, page)
  {
    hide HeapFrames, TableFrames, FrameLost;
    var more := if newTable then {t} else {};
    forall f
      ensures f in TableFrames(r) <==> f in TableFrames(s) + more
    {
    }
    assert TableFrames(r) == TableFrames(s) + more;
  }

  lemma LostIsOwned(s: MemState, page: int)
    requires Inv(s) && HEAP_PAGE <= page < WINDOW_PAGE
    ensures FrameLost(s, page) <= s.used && FrameLost(s, page) <= HeapFrames(s) && FrameLost(s, page) !! TableFrames(s)
    ensures TableFrames(s) <= s.used
  {
    if IsHeapPage(s.ram, s.dir, page) {
      var f := FrameOf(s.ram, s.dir, page);
      assert f in HeapFrames(s) && !IsTableFrame(s.ram, s.dir, f);
    }
  }

  /** A growth that reaches a page a page fault has already mapped. */
  ghost predicate MapsAgain(s: MemState, e: Event) {
    e.GrowPage? && CanMap(s, s.endPage) && IsHeapPage(s.ram, s.dir, s.endPage)
  }

  ghost predicate NoPageMappedAgain(s: MemState, events: seq<Event>)
    requires Inv(s) && IsRun(s, events)
    decreases |events|
  {
    events == []
    || (!MapsAgain(s, events[0])
        && (StepKeepsInv(s, events[0]); NoPageMappedAgain(Step(s, events[0]), events[1..])))
  }

  lemma StoreLeaks(s: MemState, a: int, word: int, reserved: set<int>)
    requires Inv(s) && Allowed(s, HeapStore(a, word)) && ReservedApart(s, reserved)
    ensures var r := Step(s, HeapStore(a, word)); ReservedApart(r, reserved) && Leaked(r, reserved) == Leaked(s, reserved)
  {
    var r := Step(s, HeapStore(a, word));
    StoreKeepsWalks(s.ram, s.dir, FrameOf(s.ram, s.dir, a / PAGE_SIZE), a % PAGE_SIZE / 4, word);
    assert forall i :: IsTable(r.ram, r.dir, i) <==> IsTable(s.ram, s.dir, i);
    assert forall p :: IsHeapPage(r.ram, r.dir, p) <==> IsHeapPage(s.ram, s.dir, p);
    assert TableFrames(r) == TableFrames(s);
    assert HeapFrames(r) == HeapFrames(s);
  }

  lemma WindowLeaks(s: MemState, slot: int, reserved: set<int>)
    requires Inv(s) && Allowed(s, WindowFault(slot)) && ReservedApart(s, reserved)
    ensures var r := Step(s, WindowFault(slot)); ReservedApart(r, reserved) && Leaked(r, reserved) == Leaked(s, reserved)
  {
    var r := Step(s, WindowFault(slot));
    WindowFaultKeepsInv(s, slot);
    assert forall p :: IsHeapPage(r.ram, r.dir, p) <==> IsHeapPage(s.ram, s.dir, p);
    assert HeapFrames(r) == HeapFrames(s);
    TableFramesAre(s);
    TableFramesAre(r);
  }

  lemma StepLeaks(s: MemState, e: Event, reserved: set<int>)
    requires Inv(s) && Allowed(s, e) && ReservedApart(s, reserved)
    ensures var r := Step(s, e);
            && ReservedApart(r, reserved) && Leaked(s, reserved) <= Leaked(r, reserved)
            && (Leaked(r, reserved) == Leaked(s, reserved) <==> !MapsAgain(s, e))
  {
    match e
    case GrowPage =>
      if CanMap(s, s.endPage) {
        MapNewLeaks(s, s.endPage, reserved);
        NotYetLeaked(s, s.endPage, reserved);
        assert HeapFrames(Step(s, e)) == HeapFrames(MapNew(s, s.endPage));
        assert TableFrames(Step(s, e)) == TableFrames(MapNew(s, s.endPage));
      }
    case Fault(page) =>
      if CanMap(s, page) {
        MapNewLeaks(s, page, reserved);
      }
    case WindowFault(slot) => WindowLeaks(s, slot, reserved);
    case HeapStore(a, word) => StoreLeaks(s, a, word, reserved);
  }

  lemma NotYetLeaked(s: MemState, page: int, reserved: set<int>)
    requires Inv(s) && HEAP_PAGE <= page < WINDOW_PAGE
    ensures FrameLost(s, page) !! Leaked(s, reserved)
  {
    LostIsOwned(s, page);
  }

  /** Used are exactly the reserved frames, the tables and the frames behind heap pages, over every run,
      if and only if no growth reaches a page that a page fault mapped before it. */
  lemma FramesAccountedForIff(s: MemState, events: seq<Event>, reserved: set<int>)
    requires Inv(s) && IsRun(s, events) && ReservedApart(s, reserved)
    requires s.used == reserved + TableFrames(s) + HeapFrames(s)
    ensures var r := Run(s, events);
            r.used == reserved + TableFrames(r) + HeapFrames(r) <==> NoPageMappedAgain(s, events)
  {
    RunLeaks(s, events, reserved);
    NothingLeakedIff(s, reserved);
    RunKeepsInv(s, events);
    NothingLeakedIff(Run(s, events), reserved);
  }

  lemma RunKeepsInv(s: MemState, events: seq<Event>)
    requires Inv(s) && IsRun(s, events)
    ensures Inv(Run(s, events))
  {
    EveryRunKeepsFramesApart(s, events);
  }

  lemma {:induction false} RunLeaks(s: MemState, events: seq<Event>, reserved: set<int>)
    requires Inv(s) && IsRun(s, events) && ReservedApart(s, reserved)
    ensures var r := Run(s, events);
            && ReservedApart(r, reserved) && Leaked(s, reserved) <= Leaked(r, reserved)
            && (Leaked(r, reserved) == Leaked(s, reserved) <==> NoPageMappedAgain(s, events))
    decreases |events|
  {
    hide Inv, Step, Allowed, Leaked, ReservedApart, MapsAgain;
    if events != [] {
      StepKeepsInv(s, events[0]);
      StepLeaks(s, events[0], reserved);
      RunLeaks(Step(s, events[0]), events[1..], reserved);
    }
  }
}
