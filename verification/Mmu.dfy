/** src/mm/mmu.zig: the address space of the kernel. Once paging is on, the tables themselves are
    reached only through the recursive window, hence through the translation being edited and
    through whatever the TLB has cached of it. */
module Mmu {

  import opened Machine
  import opened Frames
  import opened Paging
  import opened PageRuns

  const RECURSIVE_PD: int := 0xFFFFF000

  type TlbCache = map<int, Translation>

  /** Every cached translation agrees with the tables (section 4.10 of the SDM's Volume 3A). */
  ghost predicate Coherent(tlb: TlbCache, ram: Ram, dir: int) {
    forall p :: p in tlb ==> 0 <= p <= DIRECTORY_PAGE && Walk(ram, dir, p) == Some(tlb[p])
  }

  /** Directory and page tables are marked used. */
  ghost predicate TablesUsed(ram: Ram, dir: int, used: set<int>) {
    forall i :: IsTable(ram, dir, i) ==> Slot(ram, dir, i).frame in used
  }

  /** No page of directory slot slot is cached. */
  ghost predicate SlotUncached(tlb: TlbCache, slot: int) {
    forall p :: p in tlb ==> p / 1024 != slot
  }

  /** &table_ptr[i] for the table of directory slot slot, in the recursive window; the table of the
      last slot is the directory, at RECURSIVE_PD. */
  function LeafAddress(slot: int, i: int): (a: int)
    requires 0 <= slot < 1024 && 0 <= i < 1024
    ensures 0 <= a < WORD_LIMIT && a % 4 == 0
    ensures a / PAGE_SIZE == WINDOW_PAGE + slot && a % PAGE_SIZE / 4 == i
    ensures slot == RECURSIVE_SLOT ==> a == RECURSIVE_PD + 4 * i
  {
    RECURSIVE_TABLES + slot * PAGE_SIZE + 4 * i
  }

  /** Memory with one more page mapped, or one mapped anew; all other words are the same. */
  ghost predicate PageAdded(words: map<int, int>, words': map<int, int>, page: int) {
    && (forall a :: a in words && a / PAGE_SIZE != page ==> a in words' && words'[a] == words[a])
    && (forall a :: a in words' <==> (a in words || (a % 4 == 0 && a / PAGE_SIZE == page)))
  }

  class AddressSpace {
    const pmm: FrameAllocator
    /** RAM, as the hardware holds it. */
    var ram: Ram
    /** The frame of kernel_directory, which CR3 points at. */
    var dir: int
    /** The translations the processor has cached. */
    var tlb: TlbCache
    /** Heap memory: the words of the mapped heap pages, by virtual address. */
    ghost var words: map<int, int>
    /** The first page behind the heap, the state mmu_init left, and all that has happened to heap memory since. */
    ghost var endPage: int
    ghost var start: MemState
    ghost var log: seq<Event>

    ghost predicate TablesValid()
      reads this, pmm.bitmap
    {
      && pmm.Valid()
      && pmm.Capacity() <= |ram|
      && TablesOk(ram, dir)
      && Coherent(tlb, ram, dir)
      && TablesUsed(ram, dir, pmm.Used())
      && 0 in pmm.Used()
    }

    /** What has happened since mmu_init is a run of PageRuns, and led to the present state. */
    ghost predicate Recorded()
      reads this, pmm.bitmap
    {
      Inv(start) && IsRun(start, log) && Run(start, log) == Mem()
    }

    /** The invariant of every run: tables in order, TLB coherent, frames owned. */
    ghost predicate Valid()
      reads this, pmm.bitmap
    {
      TablesValid() && Inv(Mem()) && IsView(words, ram, dir) && Recorded()
    }

    /** The directory slots that have a page table. */
    ghost function Slots(): set<int>
      reads this`ram, this`dir
    {
      TableSlots(ram, dir)
    }

    /** The state the runs of PageRuns are about. */
    ghost function Mem(): MemState
      reads this`ram, this`dir, this`endPage, pmm.bitmap
    {
      MemState(pmm.Used(), pmm.Capacity(), ram, dir, endPage)
    }

    /** Whatever has happened since mmu_init, nothing below the heap's window translates differently. */
    lemma LowPagesSinceStart()
      requires Valid()
      ensures dir == start.dir && SameLowPages(start.ram, ram, dir)
    {
      EveryRunKeepsFramesApart(start, log);
      hide Inv, IsRun, Run, KeptApart, IsView, TablesOk, Coherent;
    }

    /** And frames that were kept apart then, such as the kernel's and its bitmap's, are used, and no table and no
        heap memory, now. */
    lemma FramesSinceStart(frames: set<int>)
      requires Valid() && KeptApart(start, frames)
      ensures KeptApart(Mem(), frames)
    {
      EveryRunKeepsFramesApart(start, log);
      hide Inv, IsRun, Run, KeptApart, IsView, TablesOk, Coherent;
    }

    /** A page that is not mapped has no word in heap memory. */
    lemma MissingPage(page: int)
      requires Valid() && Walk(ram, dir, page).None?
      ensures page * PAGE_SIZE !in words
    {
      PagesAdded(0, page);
      assert page * PAGE_SIZE / PAGE_SIZE == page;
      assert !IsHeapWord(ram, dir, page * PAGE_SIZE);
      hide Inv, TablesOk, Coherent, Run, IsRun, FramesOwned;
    }

    /** Paging off. */
    constructor (pmm: FrameAllocator, ram: Ram)
      ensures this.pmm == pmm && this.ram == ram
    {
      this.pmm := pmm;
      this.ram, this.dir, this.tlb := ram, 0, map[];
      this.words, this.endPage, this.log := map[], HEAP_PAGE, [];
    }

    /** mmu_init, with paging still off, then CR3 loaded: the first 4 MB map to themselves, the last
        directory slot maps the directory, nothing else is mapped. The allocator's answers are not tested, but an
        address 0 halts in the check of the pointer casts (ok is false), so both frames must be free. */
    method MmuInit() returns (ok: bool)
      requires pmm.Valid() && RamShape(ram) && pmm.Capacity() <= |ram|
      requires 0 in pmm.Used()
      modifies this, pmm.bitmap
      ensures ok <==> old(pmm.Free()) >= 2
      ensures ok ==>
                && Valid() && start == Mem() && endPage == HEAP_PAGE && Slots() == {0, RECURSIVE_SLOT}
                && pmm.Free() == old(pmm.Free()) - 2 && old(pmm.Used()) <= pmm.Used()
                && (forall p :: 0 <= p < 1024 ==> Walk(ram, dir, p) == Some(Translation(p, true, false)))
                && (forall p :: 1024 <= p < WINDOW_PAGE ==> Walk(ram, dir, p).None?)
                && KeptApart(Mem(), old(pmm.Used()) - {0})
                && |ram| == |old(ram)| && RamShape(ram)
                && IsLowestFree(old(pmm.Used()), pmm.Capacity(), dir)
                && (exists t {:trigger FirstWords(ram, dir, t)} ::
                      IsLowestFree(old(pmm.Used()) + {dir}, pmm.Capacity(), t) && FirstWords(ram, dir, t))
                && forall f :: 0 <= f < |ram| && f in old(pmm.Used()) ==> ram[f] == old(ram[f])
    {
      hide Inv, KeptApart, Walk, IsRun, Run, TablesOk, IsView;
      FreeFramesAvailable(pmm.Used(), pmm.Capacity());
      ghost var used := pmm.Used();
      var pdAddr := pmm.AllocFrame();
      if pdAddr == 0 {
        return false;
      }
      FreeFramesAvailable(pmm.Used(), pmm.Capacity());
      var ptAddr := pmm.AllocFrame();
      if ptAddr == 0 {
        return false;
      }
      BuildSpace(pdAddr / PAGE_SIZE, ptAddr / PAGE_SIZE, used);
      return true;
    }

    /** The rest of mmu_init: the tables in frames d and t, and CR3. */
    method BuildSpace(d: int, t: int, ghost used: set<int>)
      requires pmm.Valid() && RamShape(ram) && pmm.Capacity() <= |ram| && 0 in used
      requires 0 <= d < |ram| && 0 <= t < |ram| && d != t && d !in used && t !in used
      requires pmm.Used() == used + {d, t}
      modifies this
      ensures Valid() && start == Mem() && endPage == HEAP_PAGE && Slots() == {0, RECURSIVE_SLOT}
      ensures forall p :: 0 <= p < 1024 ==> Walk(ram, dir, p) == Some(Translation(p, true, false))
      ensures forall p :: 1024 <= p < WINDOW_PAGE ==> Walk(ram, dir, p).None?
      ensures KeptApart(Mem(), used - {0})
      ensures dir == d && RamShape(ram) && FirstWords(ram, d, t)
      ensures |ram| == |old(ram)| && forall f :: 0 <= f < |ram| && f in used ==> ram[f] == old(ram[f])
    {
      hide IsRun, Run, KeptApart, Walk, View, IsView, Inv;
      ram := BuildTables(ram, d, t);
      dir, tlb := d, map[];
      FirstTablesOwned(ram, dir, t, pmm.Used());
      words, endPage := View(ram, dir), HEAP_PAGE;
      ViewIsView(ram, dir);
      start, log := Mem(), [];
      FirstState(start, t, used);
    }

    /** The tables mmu_init fills in, paging still off: page table t maps the first 1024 frames. */
    static method BuildTables(ram: Ram, dir: int, t: int) returns (r: Ram)
      requires RamShape(ram) && 0 <= dir < |ram| && 0 <= t < |ram| && t != dir
      ensures |r| == |ram| && TablesOk(r, dir)
      ensures forall i :: IsTable(r, dir, i) ==> Slot(r, dir, i).frame == t || Slot(r, dir, i).frame == dir
      ensures forall p :: 0 <= p < 1024 ==> Walk(r, dir, p) == Some(Translation(p, true, false))
      ensures forall p :: 1024 <= p < WINDOW_PAGE ==> Walk(r, dir, p).None?
      ensures TableSlots(r, dir) == {0, RECURSIVE_SLOT}
      ensures FirstWords(r, dir, t)
      ensures forall f :: 0 <= f < |ram| && f != t && f != dir ==> r[f] == ram[f]
    {
      r := ram[dir := Zeroes()][t := Zeroes()];
      var i := 0;
      while i < 1024
        invariant 0 <= i <= 1024
        invariant RamShape(r) && |r| == |ram|
        invariant forall f :: 0 <= f < |ram| && f != t ==> r[f] == if f == dir then Zeroes() else ram[f]
        invariant forall k :: 0 <= k < i ==> r[t][k] == Encode(Entry(true, true, false, k))
      {
        r := SetWord(r, t, i, Encode(Entry(true, true, false, i)));
        i := i + 1;
      }
      r := SetWord(r, dir, 0, Encode(Entry(true, true, false, t)));
      r := SetWord(r, dir, RECURSIVE_SLOT, Encode(Entry(true, true, false, dir)));
      IdentityTables(r, dir, t);
      WordsOfIdentity(r, dir, t);
    }

    /** Address translation of one access: a cached translation is used, a missing one is looked up
        and cached. */
    method Translate(page: int) returns (frame: int)
      requires 0 <= page <= DIRECTORY_PAGE
      requires Coherent(tlb, ram, dir)
      requires Walk(ram, dir, page).Some?
      modifies this`tlb
      ensures Coherent(tlb, ram, dir)
      ensures old(tlb).Keys <= tlb.Keys <= old(tlb).Keys + {page}
      ensures frame == FrameOf(ram, dir, page)
    {
      if page !in tlb {
        tlb := tlb[page := Walk(ram, dir, page).value];
      }
      frame := tlb[page].frame;
    }

    /** A load through the translation. */
    method ReadVirtual(a: int) returns (word: int)
      requires 0 <= a < WORD_LIMIT && a % 4 == 0
      requires RamShape(ram) && Coherent(tlb, ram, dir)
      requires Walk(ram, dir, a / PAGE_SIZE).Some? && 0 <= FrameOf(ram, dir, a / PAGE_SIZE) < |ram|
      modifies this`tlb
      ensures Coherent(tlb, ram, dir)
      ensures word == ram[FrameOf(ram, dir, a / PAGE_SIZE)][a % PAGE_SIZE / 4]
      ensures old(tlb).Keys <= tlb.Keys <= old(tlb).Keys + {a / PAGE_SIZE}
    {
      var f := Translate(a / PAGE_SIZE);
      word := ram[f][a % PAGE_SIZE / 4];
    }

    /** A store through the translation; the cache agrees with the tables as they were before it. */
    method WriteVirtual(a: int, word: int)
      requires 0 <= a < WORD_LIMIT && a % 4 == 0
      requires RamShape(ram) && Coherent(tlb, ram, dir)
      requires Walk(ram, dir, a / PAGE_SIZE).Some? && 0 <= FrameOf(ram, dir, a / PAGE_SIZE) < |ram|
      modifies this`tlb, this`ram
      ensures Coherent(tlb, old(ram), dir)
      ensures ram == SetWord(old(ram), FrameOf(old(ram), dir, a / PAGE_SIZE), a % PAGE_SIZE / 4, word)
      ensures old(tlb).Keys <= tlb.Keys <= old(tlb).Keys + {a / PAGE_SIZE}
    {
      var f := Translate(a / PAGE_SIZE);
      ram := SetWord(ram, f, a % PAGE_SIZE / 4, word);
    }

    /** invlpg. */
    method Invalidate(a: int)
      modifies this`tlb
      ensures tlb == old(tlb) - {a / PAGE_SIZE}
    {
      tlb := tlb - {a / PAGE_SIZE};
    }

    /** A directory slot below the recursive window is filled through the directory's own page. */
    method FillSlot(slot: int, t: int, isUser: bool)
      requires TablesOk(ram, dir) && Coherent(tlb, ram, dir)
      requires 0 <= slot < RECURSIVE_SLOT && !Slot(ram, dir, slot).present
      requires 0 <= t < |ram| && !IsTableFrame(ram, dir, t)
      modifies this`ram, this`tlb
      ensures ram == WithTable(old(ram), dir, slot, t, isUser, old(ram)[t])
      ensures Coherent(tlb, ram, dir) && SlotUncached(tlb, slot)
    {
      RecursiveWalk(ram, dir, RECURSIVE_SLOT);
      var pdeAddr := LeafAddress(RECURSIVE_SLOT, slot);
      NewTable(ram, dir, slot, t, isUser, ram[t]);
      WriteVirtual(pdeAddr, Encode(Entry(true, true, isUser, t)));
      OldWalks(tlb, old(ram), dir, slot);
      Invalidate(RECURSIVE_TABLES + slot * PAGE_SIZE);
    }

    /** One word of the memset of a table through its alias in the recursive window. */
    method ClearWord(slot: int, i: int)
      requires TablesOk(ram, dir) && Coherent(tlb, ram, dir) && SlotUncached(tlb, slot)
      requires 0 <= slot < RECURSIVE_SLOT && Slot(ram, dir, slot).present && 0 <= i < 1024
      modifies this`ram, this`tlb
      ensures 0 <= Slot(old(ram), dir, slot).frame < |old(ram)|
      ensures ram == SetWord(old(ram), Slot(old(ram), dir, slot).frame, i, 0)
      ensures TablesOk(ram, dir) && Slot(ram, dir, slot) == Slot(old(ram), dir, slot)
      ensures Coherent(tlb, ram, dir) && SlotUncached(tlb, slot)
    {
      assert IsTable(ram, dir, slot);
      RecursiveWalk(ram, dir, slot);
      var wordAddr := LeafAddress(slot, i);
      assert Encode(Entry(false, false, false, 0)) == 0;
      NewLeaf(ram, dir, slot * 1024 + i, Entry(false, false, false, 0));
      WriteVirtual(wordAddr, 0);
    }

    /** The memset of a table. */
    method ClearTable(slot: int)
      requires TablesOk(ram, dir) && Coherent(tlb, ram, dir) && SlotUncached(tlb, slot)
      requires 0 <= slot < RECURSIVE_SLOT && Slot(ram, dir, slot).present
      modifies this`ram, this`tlb
      ensures 0 <= Slot(old(ram), dir, slot).frame < |old(ram)|
      ensures ram == old(ram)[Slot(old(ram), dir, slot).frame := Zeroes()]
      ensures Coherent(tlb, ram, dir)
    {
      assert IsTable(ram, dir, slot);
      ghost var t := Slot(ram, dir, slot).frame;
      ghost var content := ram[t];
      var i := 0;
      while i < 1024
        invariant 0 <= i <= 1024
        invariant |content| == 1024 && forall k :: 0 <= k < i ==> content[k] == 0
        invariant ram == old(ram)[t := content]
        invariant TablesOk(ram, dir) && Slot(ram, dir, slot) == Slot(old(ram), dir, slot)
        invariant Coherent(tlb, ram, dir) && SlotUncached(tlb, slot)
        modifies this`ram, this`tlb
      {
        ClearWord(slot, i);
        content := content[i := 0];
        i := i + 1;
      }
      assert content == Zeroes();
    }

    /** The branch of mmu_map_page that allocates a page table. The allocator's answer is not tested: with no
        frame left the table is frame 0, which does as long as it is no table yet. */
    method InstallTable(slot: int, isUser: bool) returns (t: int)
      requires TablesValid()
      requires 0 <= slot < RECURSIVE_SLOT && !Slot(ram, dir, slot).present
      requires pmm.Free() > 0 || !IsTableFrame(ram, dir, 0)
      modifies this`ram, this`tlb, pmm.bitmap
      ensures t == FrameOrZero(old(pmm.Used()), pmm.Capacity())
      ensures pmm.Used() == old(pmm.Used()) + {t} && pmm.Free() == old(pmm.Free()) - Min(1, old(pmm.Free()))
      ensures 0 <= t < |old(ram)| && !IsTableFrame(old(ram), dir, t)
      ensures ram == WithTable(old(ram), dir, slot, t, isUser, Zeroes())
      ensures TablesValid()
    {
      var newPt := pmm.AllocFrame();
      t := newPt / PAGE_SIZE;
      assert t !in old(pmm.Used()) ==> !IsTableFrame(ram, dir, t);
      hide IsTableFrame, Coherent, Walk;
      NewTable(ram, dir, slot, t, isUser, ram[t]);
      NewTable(ram, dir, slot, t, isUser, Zeroes());
      InstalledTablesUsed(ram, dir, slot, t, isUser, old(pmm.Used()));
      FillSlot(slot, t, isUser);
      ClearTable(slot);
    }

    /** The page-table entry is written through the table's alias and the old translation dropped. */
    method WriteLeaf(virtAddr: int, leaf: Entry)
      requires TablesValid()
      requires 0 <= virtAddr < RECURSIVE_TABLES && Slot(ram, dir, virtAddr / PAGE_SIZE / 1024).present
      modifies this`ram, this`tlb
      ensures 0 <= Slot(old(ram), dir, virtAddr / PAGE_SIZE / 1024).frame < |old(ram)|
      ensures ram == SetWord(old(ram), Slot(old(ram), dir, virtAddr / PAGE_SIZE / 1024).frame,
                             virtAddr / PAGE_SIZE % 1024, Encode(leaf))
      ensures TablesValid()
    {
      var pdIndex := virtAddr / PAGE_SIZE / 1024;
      var ptIndex := virtAddr / PAGE_SIZE % 1024;
      var leafAddr := LeafAddress(pdIndex, ptIndex);
      RecursiveWalk(ram, dir, pdIndex);
      LeafWritten(ram, dir, virtAddr / PAGE_SIZE, leaf, pmm.Used());
      WriteVirtual(leafAddr, Encode(leaf));
      Invalidate(virtAddr);
    }

    /** mmu_map_page. When the directory slot is empty, a frame must be free or frame 0 be no table: the source
        does not test for the allocator's answer 0. */
    method MapPageAt(physAddr: int, virtAddr: int, isWriteable: bool, isUser: bool) returns (ghost t: int)
      requires TablesValid()
      requires 0 <= physAddr < WORD_LIMIT && 0 <= virtAddr < RECURSIVE_TABLES
      requires Slot(ram, dir, virtAddr / PAGE_SIZE / 1024).present || pmm.Free() > 0 || !IsTableFrame(ram, dir, 0)
      modifies this`ram, this`tlb, pmm.bitmap
      ensures TablesValid() && 0 <= t < |old(ram)| && TablesOk(old(ram), dir)
      ensures Slot(old(ram), dir, virtAddr / PAGE_SIZE / 1024).present
              ==> pmm.Used() == old(pmm.Used()) && t == 0
      ensures !Slot(old(ram), dir, virtAddr / PAGE_SIZE / 1024).present
              ==> t == FrameOrZero(old(pmm.Used()), pmm.Capacity()) && pmm.Used() == old(pmm.Used()) + {t}
                  && !IsTableFrame(old(ram), dir, t) && pmm.Free() == old(pmm.Free()) - Min(1, old(pmm.Free()))
      ensures ram == MapPage(old(ram), dir, t, physAddr / PAGE_SIZE, virtAddr / PAGE_SIZE, isWriteable, isUser)
      ensures WordsMapped(old(ram), ram, dir, t, physAddr / 4096, virtAddr / 4096, isWriteable, isUser)
    {
      t := 0;
      var pdIndex := virtAddr / PAGE_SIZE / 1024;
      RecursiveWalk(ram, dir, RECURSIVE_SLOT);
      var pdeAddr := LeafAddress(RECURSIVE_SLOT, pdIndex);
      var pde := ReadVirtual(pdeAddr);
      if !Decode(pde).present {
        t := InstallTable(pdIndex, isUser);
        NewTable(old(ram), dir, pdIndex, t, isUser, Zeroes());
      }
      WriteLeaf(virtAddr, Entry(true, isWriteable, isUser, physAddr / PAGE_SIZE));
      MapPageWords(old(ram), dir, t, physAddr / PAGE_SIZE, virtAddr / PAGE_SIZE, isWriteable, isUser);
    }

    /** pmm_alloc_frame followed by mmu_map_page, kernel-only and writable, as heap_map_pages and the
        page-fault handler do for one heap page: unless no frame is left, the page joins heap memory
        behind a frame nobody used; every other word and every other translation stays. grows tells the two
        callers apart: the heap maps the page at its end, a fault one that is missing. */
    method MapNewHeapPage(virtAddr: int, ghost grows: bool) returns (ok: bool)
      requires Valid() && HEAP_START <= virtAddr
      requires pmm.Free() > 0 ==> virtAddr < RECURSIVE_TABLES
      requires if grows then virtAddr / PAGE_SIZE == endPage else !IsHeapPage(ram, dir, virtAddr / PAGE_SIZE)
      modifies this`ram, this`tlb, this`words, this`endPage, this`log, pmm.bitmap
      ensures Valid() && old(pmm.Used()) <= pmm.Used()
      ensures ok <==> old(pmm.Free()) > 0
      ensures ok <==> CanMap(old(Mem()), virtAddr / PAGE_SIZE)
      ensures endPage == old(endPage) + if ok && grows then 1 else 0
      ensures ok ==> Mem() == MapNew(old(Mem()), virtAddr / PAGE_SIZE).(endPage := endPage)
      ensures !ok ==> Mem() == old(Mem()) && words == old(words) && pmm.Free() == 0
      ensures ok ==>
                && Slots() == old(Slots()) + {virtAddr / PAGE_SIZE / 1024}
                && pmm.Free() == old(pmm.Free())
                                 - (if virtAddr / PAGE_SIZE / 1024 in old(Slots()) then 1 else Min(2, old(pmm.Free())))
                && (var f := FrameOrZero(old(pmm.Used()), pmm.Capacity());
                    && f !in old(pmm.Used()) && f in pmm.Used()
                    && Walk(ram, dir, virtAddr / PAGE_SIZE) == Some(Translation(f, true, false)))
                && PageAdded(old(words), words, virtAddr / PAGE_SIZE)
      ensures forall p :: 0 <= p < WINDOW_PAGE && p != virtAddr / PAGE_SIZE ==> Walk(ram, dir, p) == Walk(old(ram), dir, p)
    {
      hide Inv, MapNew, TablesOk, Coherent, IsView, IsRun, Run, PageAdded, Walk;
      hide AddressSpace.Slots;
      ghost var mem, page := Mem(), virtAddr / PAGE_SIZE;
      InvTables(mem);
      FreeFramesAvailable(mem.used, mem.capacity);
      var physAddr := pmm.AllocFrame();
      if physAddr == 0 {
        return false;
      }
      MapAllocated(physAddr, virtAddr, mem);
      assert Mem() == MapNew(mem, page);
      MappingIsAnEvent(mem, page, grows);
      endPage := endPage + if grows then 1 else 0;
      Record(mem, if grows then GrowPage else Fault(page));
      return true;
    }

    /** One event more on the record. */
    ghost method Record(mem: MemState, e: Event)
      requires TablesValid() && IsView(words, ram, dir)
      requires Inv(start) && IsRun(start, log) && Run(start, log) == mem && Inv(mem) && Allowed(mem, e)
      requires Step(mem, e) == Mem()
      modifies this`log
      ensures Valid()
    {
      hide Inv, Allowed, Step, IsRun, Run, TablesOk, Coherent, IsView;
      RunAppend(start, log, e);
      StepKeepsInv(mem, e);
      log := log + [e];
    }

    /** The mmu_map_page call of MapNewHeapPage, after the frame was allocated. */
    method MapAllocated(physAddr: int, virtAddr: int, ghost mem: MemState)
      requires TablesValid() && Inv(mem) && IsView(words, ram, dir)
      requires 0 <= physAddr < WORD_LIMIT && LowestFree(mem.used, pmm.Capacity()) == Some(physAddr / PAGE_SIZE)
      requires mem == Mem().(used := mem.used) && pmm.Used() == mem.used + {physAddr / PAGE_SIZE}
      requires HEAP_START <= virtAddr < RECURSIVE_TABLES
      modifies this`ram, this`tlb, this`words, pmm.bitmap
      ensures TablesValid() && IsView(words, ram, dir)
      ensures Mem() == MapNew(mem, virtAddr / PAGE_SIZE)
      ensures Slots() == old(Slots()) + {virtAddr / PAGE_SIZE / 1024}
      ensures pmm.Free() == old(pmm.Free())
                            - if virtAddr / PAGE_SIZE / 1024 in old(Slots()) then 0 else Min(1, old(pmm.Free()))
      ensures Walk(ram, dir, virtAddr / PAGE_SIZE) == Some(Translation(physAddr / PAGE_SIZE, true, false))
      ensures forall p :: 0 <= p < WINDOW_PAGE && p != virtAddr / PAGE_SIZE ==> Walk(ram, dir, p) == Walk(old(ram), dir, p)
      ensures PageAdded(old(words), words, virtAddr / PAGE_SIZE)
    {
      hide FramesOwned, IsView, MapPage, PageAdded, Walk, Coherent;
      hide FrameAllocator.Used;
      ghost var phys, page := physAddr / PAGE_SIZE, virtAddr / PAGE_SIZE;
      FreeFramesAvailable(pmm.Used(), pmm.Capacity());
      if !Slot(ram, dir, page / 1024).present {
        TableFrameIsUnused(mem, phys, page);
      }
      ghost var t := MapPageAt(physAddr, virtAddr, true, false);
      assert t == TableFrame(mem, phys, page);
      assert pmm.Used() == mem.used + FramesTaken(old(ram), dir, t, phys, page);
      MapNewResult(mem, page, phys, Mem());
      words := View(ram, dir);
      HeapMapped(old(ram), ram, dir, mem.used, t, phys, page, old(words), words);
    }

    /** A load from heap memory. */
    method Load(a: int) returns (word: int)
      requires Valid() && a in words
      modifies this`tlb
      ensures Valid() && word == words[a]
    {
      assert IsHeapWord(ram, dir, a) && ReadHeap(ram, dir, a) == words[a];
      word := ReadVirtual(a);
    }

    /** A store to heap memory. */
    method Store(a: int, word: int)
      requires Valid() && a in words && 0 <= word < WORD_LIMIT
      modifies this`ram, this`tlb, this`words, this`log
      ensures Valid() && words == old(words)[a := word]
      ensures Slots() == old(Slots())
      ensures IsHeapWord(old(ram), dir, a)
              && ram == SetWord(old(ram), FrameOf(old(ram), dir, a / PAGE_SIZE), a % PAGE_SIZE / 4, word)
      ensures forall p :: 0 <= p <= DIRECTORY_PAGE ==> Walk(ram, dir, p) == Walk(old(ram), dir, p)
    {
      hide Inv, Allowed, Step, IsRun, Run, TablesOk, FramesOwned, IsView, SetWord, IsHeapWord, Coherent, Walk, TablesUsed;
      ghost var mem := Mem();
      InvTables(mem);
      HeapWordMapped(words, ram, dir, pmm.Used(), a);
      StoreIsAnEvent(mem, a, word);
      WriteVirtual(a, word);
      StoreKeepsAll(old(ram), dir, pmm.Used(), a, word, words);
      CoherentKept(tlb, old(ram), ram, dir);
      words := words[a := word];
      Record(mem, HeapStore(a, word));
    }

    /** mmu_map_page for a page of the recursive window whose directory slot is empty, kernel-only and writable.
        The window's own slot is always filled, so no table is allocated; the entry goes to the directory. */
    method MapWindowPage(physAddr: int, virtAddr: int)
      requires TablesValid() && RECURSIVE_TABLES <= virtAddr < WORD_LIMIT
      requires 0 <= physAddr / PAGE_SIZE < |ram| && physAddr / PAGE_SIZE in pmm.Used()
      requires !IsTableFrame(ram, dir, physAddr / PAGE_SIZE)
      requires Walk(ram, dir, virtAddr / PAGE_SIZE).None?
      modifies this`ram, this`tlb
      ensures TablesValid()
      ensures ram == MapInWindow(old(ram), dir, virtAddr / PAGE_SIZE, Entry(true, true, false, physAddr / PAGE_SIZE))
    {
      ghost var i, phys := virtAddr / PAGE_SIZE - WINDOW_PAGE, physAddr / PAGE_SIZE;
      RecursiveWalk(ram, dir, i);
      RecursiveWalk(ram, dir, RECURSIVE_SLOT);
      var pdIndex := virtAddr / PAGE_SIZE / 1024;
      var ptIndex := virtAddr / PAGE_SIZE % 1024;
      var pde := ReadVirtual(LeafAddress(RECURSIVE_SLOT, pdIndex));
      assert Decode(pde).present;
      WindowMapped(tlb, ram, dir, i, phys, pmm.Used());
      var leafAddr := LeafAddress(pdIndex, ptIndex);
      WriteVirtual(leafAddr, Encode(Entry(true, true, false, physAddr / PAGE_SIZE)));
      WindowMapped(tlb, old(ram), dir, i, phys, pmm.Used());
      Invalidate(virtAddr);
    }

    /** mmu_handle_page_fault: a missing page at or above HEAP_START gets a frame; anything else, and
        an exhausted allocator, ends in the halt loop (handled is false). present is the processor's P bit: a clear
        one means that the page is not mapped. The test has no upper end: inside the recursive window the frame
        becomes a page table, never cleared. */
    method HandlePageFault(present: bool, faultAddr: int) returns (handled: bool)
      requires Valid() && 0 <= faultAddr < WORD_LIMIT
      requires !present ==> Walk(ram, dir, faultAddr / PAGE_SIZE).None?
      modifies this`ram, this`tlb, this`words, this`endPage, this`log, pmm.bitmap
      ensures TablesValid() && old(pmm.Used()) <= pmm.Used() && endPage == old(endPage)
      ensures handled <==> !present && faultAddr >= HEAP_START && old(pmm.Free()) > 0
      ensures !handled ==> Valid() && Mem() == old(Mem()) && words == old(words)
      ensures handled && faultAddr < RECURSIVE_TABLES ==>
                && Valid() && CanMap(old(Mem()), faultAddr / PAGE_SIZE)
                && Mem() == MapNew(old(Mem()), faultAddr / PAGE_SIZE)
                && IsHeapPage(ram, dir, faultAddr / PAGE_SIZE) && PageAdded(old(words), words, faultAddr / PAGE_SIZE)
      ensures faultAddr < RECURSIVE_TABLES ==>
                forall p :: 0 <= p < WINDOW_PAGE && p != faultAddr / PAGE_SIZE ==> Walk(ram, dir, p) == Walk(old(ram), dir, p)
      ensures handled && faultAddr >= RECURSIVE_TABLES ==>
                var phys := FrameOrZero(old(pmm.Used()), pmm.Capacity());
                && RamShape(old(ram)) && 0 <= dir < |old(ram)| && pmm.Used() == old(pmm.Used()) + {phys}
                && ram == MapInWindow(old(ram), dir, faultAddr / PAGE_SIZE, Entry(true, true, false, phys))
                && (HoldsNoEntry(old(ram), phys) ==> Valid() && words == old(words))
    {
      handled := false;
      if !present {
        if faultAddr >= HEAP_START {
          var virtAddr := faultAddr - faultAddr % PAGE_SIZE;
          assert virtAddr / PAGE_SIZE == faultAddr / PAGE_SIZE;
          if virtAddr < RECURSIVE_TABLES {
            handled := MapNewHeapPage(virtAddr, false);
          } else {
            handled := MapNewWindowPage(virtAddr);
          }
        }
      }
    }

    /** The handler's allocation and mapping for a page of the recursive window. */
    method MapNewWindowPage(virtAddr: int) returns (ok: bool)
      requires Valid() && RECURSIVE_TABLES <= virtAddr < WORD_LIMIT && Walk(ram, dir, virtAddr / PAGE_SIZE).None?
      modifies this`ram, this`tlb, this`log, pmm.bitmap
      ensures TablesValid() && old(pmm.Used()) <= pmm.Used()
      ensures ok <==> old(pmm.Free()) > 0
      ensures !ok ==> Valid() && Mem() == old(Mem())
      ensures ok ==>
                var phys := FrameOrZero(old(pmm.Used()), pmm.Capacity());
                && RamShape(old(ram)) && 0 <= dir < |old(ram)| && pmm.Used() == old(pmm.Used()) + {phys}
                && ram == MapInWindow(old(ram), dir, virtAddr / PAGE_SIZE, Entry(true, true, false, phys))
                && (HoldsNoEntry(old(ram), phys) ==> Valid())
    {
      hide Inv, Allowed, Step, TablesOk, Coherent, IsView, IsRun, Run, MapInWindow, HoldsNoEntry, FramesOwned, Walk;
      ghost var mem, slot := Mem(), virtAddr / PAGE_SIZE - WINDOW_PAGE;
      InvTables(mem);
      FreeFramesAvailable(mem.used, mem.capacity);
      var physAddr := pmm.AllocFrame();
      if physAddr == 0 {
        return false;
      }
      FreeFrameUnused(ram, dir, mem.used, physAddr / PAGE_SIZE);
      MapWindowPage(physAddr, virtAddr);
      if HoldsNoEntry(old(ram), physAddr / PAGE_SIZE) {
        WindowKeepsView(old(ram), dir, slot, physAddr / PAGE_SIZE, mem.used, words);
        WindowFaultIsAnEvent(mem, slot, physAddr / PAGE_SIZE);
        Record(mem, WindowFault(slot));
      }
      return true;
    }
  }

  // ---- Steps of the proofs above ------------------------------------------------------------

  /** The words mmu_init writes: an entry for each of the first 1024 frames, present and writable, and two entries in
      the directory, for this table and for the directory itself. */
  ghost predicate FirstWords(ram: Ram, dir: int, t: int)
    requires RamShape(ram)
  {
    && 0 <= dir < |ram| && 0 <= t < |ram|
    && (forall k :: 0 <= k < 1024 ==> ram[t][k] == 4096 * k + 3)
    && ram[dir][0] == 4096 * t + 3 && ram[dir][1023] == 4096 * dir + 3
    && (forall k :: 0 < k < 1023 ==> ram[dir][k] == 0)
  }

  lemma WordsOfIdentity(ram: Ram, dir: int, t: int)
    requires RamShape(ram) && 0 <= dir < |ram| && 0 <= t < |ram|
    requires forall k :: 0 < k < RECURSIVE_SLOT ==> ram[dir][k] == 0
    requires ram[dir][0] == Encode(Entry(true, true, false, t))
    requires ram[dir][RECURSIVE_SLOT] == Encode(Entry(true, true, false, dir))
    requires forall k :: 0 <= k < 1024 ==> ram[t][k] == Encode(Entry(true, true, false, k))
    ensures FirstWords(ram, dir, t)
  {
    EncodedWord(Entry(true, true, false, t));
    EncodedWord(Entry(true, true, false, dir));
    forall k | 0 <= k < 1024
      ensures ram[t][k] == 4096 * k + 3
    {
      EncodedWord(Entry(true, true, false, k));
    }
  }

  lemma IdentityTables(ram: Ram, dir: int, t: int)
    requires RamShape(ram) && 0 <= dir < |ram| && 0 <= t < |ram| && t != dir
    requires forall k :: 0 < k < RECURSIVE_SLOT ==> ram[dir][k] == 0
    requires ram[dir][0] == Encode(Entry(true, true, false, t))
    requires ram[dir][RECURSIVE_SLOT] == Encode(Entry(true, true, false, dir))
    requires forall k :: 0 <= k < 1024 ==> ram[t][k] == Encode(Entry(true, true, false, k))
    ensures TablesOk(ram, dir)
    ensures forall f :: IsTableFrame(ram, dir, f) ==> f == t || f == dir
    ensures forall i :: IsTable(ram, dir, i) ==> Slot(ram, dir, i).frame == t || Slot(ram, dir, i).frame == dir
    ensures forall p :: 0 <= p < 1024 ==> Walk(ram, dir, p) == Some(Translation(p, true, false))
    ensures forall p :: 1024 <= p < WINDOW_PAGE ==> Walk(ram, dir, p).None?
    ensures TableSlots(ram, dir) == {0, RECURSIVE_SLOT}
  {
    DecodeEncode(Entry(true, true, false, t));
    DecodeEncode(Entry(true, true, false, dir));
    assert !Decode(0).present;
    assert forall i :: 0 < i < RECURSIVE_SLOT ==> !Slot(ram, dir, i).present;
    forall p | 0 <= p < 1024
      ensures Walk(ram, dir, p) == Some(Translation(p, true, false))
    {
      DecodeEncode(Entry(true, true, false, p));
    }
  }

  lemma HeapMapped(ram: Ram, r: Ram, dir: int, used: set<int>, t: int, phys: int, page: int,
                   words: map<int, int>, words': map<int, int>)
    requires TablesOk(ram, dir) && FramesOwned(ram, dir, used)
    requires HEAP_PAGE <= page < WINDOW_PAGE
    requires 0 <= phys < |ram| && phys !in used
    requires 0 <= t < |ram| && (!Slot(ram, dir, page / 1024).present ==> UnusedFrame(ram, dir, t) && t != phys)
    requires r == MapPage(ram, dir, t, phys, page, true, false)
    requires IsView(words, ram, dir) && words' == View(r, dir)
    ensures FramesOwned(r, dir, used + FramesTaken(ram, dir, t, phys, page))
    ensures TableSlots(r, dir) == TableSlots(ram, dir) + {page / 1024}
    ensures Walk(r, dir, page) == Some(Translation(phys, true, false))
    ensures forall p :: 0 <= p < WINDOW_PAGE && p != page ==> Walk(r, dir, p) == Walk(ram, dir, p)
    ensures IsView(words', r, dir) && PageAdded(words, words', page)
  {
    HeapPageMapped(ram, dir, used, t, phys, page);
    MapPageSlots(ram, dir, t, phys, page, true, false);
    MapPageExact(ram, dir, t, phys, page, true, false);
    MapKeepsOtherPages(ram, dir, used, t, phys, page);
    ViewAfterMap(ram, r, dir, used, page);
    IsViewUnique(words, ram, dir);
    ViewIsView(r, dir);
  }

  lemma HeapWordMapped(words: map<int, int>, ram: Ram, dir: int, used: set<int>, a: int)
    requires FramesOwned(ram, dir, used) && IsView(words, ram, dir) && a in words
    ensures IsHeapWord(ram, dir, a) && 0 <= a < WORD_LIMIT && a % 4 == 0
    ensures Walk(ram, dir, a / PAGE_SIZE).Some? && 0 <= FrameOf(ram, dir, a / PAGE_SIZE) < |ram|
  {
  }

  lemma CoherentKept(tlb: TlbCache, ram: Ram, r: Ram, dir: int)
    requires Coherent(tlb, ram, dir)
    requires forall p :: 0 <= p <= DIRECTORY_PAGE ==> Walk(r, dir, p) == Walk(ram, dir, p)
    ensures Coherent(tlb, r, dir)
  {
  }

  lemma StoreKeepsAll(ram: Ram, dir: int, used: set<int>, a: int, word: int, words: map<int, int>)
    requires TablesOk(ram, dir) && FramesOwned(ram, dir, used) && TablesUsed(ram, dir, used)
    requires IsView(words, ram, dir) && IsHeapWord(ram, dir, a)
    ensures var r := SetWord(ram, FrameOf(ram, dir, a / PAGE_SIZE), a % PAGE_SIZE / 4, word);
            && TablesOk(r, dir) && FramesOwned(r, dir, used) && TablesUsed(r, dir, used)
            && (forall p :: 0 <= p <= DIRECTORY_PAGE ==> Walk(r, dir, p) == Walk(ram, dir, p))
            && TableSlots(r, dir) == TableSlots(ram, dir)
            && IsView(words[a := word], r, dir)
  {
    var f, i := FrameOf(ram, dir, a / PAGE_SIZE), a % PAGE_SIZE / 4;
    var r := SetWord(ram, f, i, word);
    StoreKeepsWalks(ram, dir, f, i, word);
    StoreKeepsOwnership(ram, dir, used, a / PAGE_SIZE, i, word);
    ViewAfterStore(ram, dir, used, a, word);
    IsViewUnique(words, ram, dir);
    ViewIsView(r, dir);
    assert forall k :: IsTable(r, dir, k) <==> IsTable(ram, dir, k);
  }

  /** No heap page is mapped yet. */
  lemma FirstTablesOwned(ram: Ram, dir: int, t: int, used: set<int>)
    requires forall i :: IsTable(ram, dir, i) ==> Slot(ram, dir, i).frame == t || Slot(ram, dir, i).frame == dir
    requires forall p :: 1024 <= p < WINDOW_PAGE ==> Walk(ram, dir, p).None?
    requires t in used && dir in used
    ensures TablesUsed(ram, dir, used) && FramesOwned(ram, dir, used)
  {
    assert forall p :: !IsHeapPage(ram, dir, p);
  }

  /** What a translation cached before slot was filled can be about. */
  lemma OldWalks(tlb: TlbCache, ram: Ram, dir: int, slot: int)
    requires TablesOk(ram, dir) && 0 <= slot < RECURSIVE_SLOT && !Slot(ram, dir, slot).present
    requires Coherent(tlb, ram, dir)
    ensures forall p :: p in tlb ==> p / 1024 != slot && p != WINDOW_PAGE + slot
  {
    RecursiveWalk(ram, dir, slot);
  }

  lemma LeafWritten(ram: Ram, dir: int, page: int, e: Entry, used: set<int>)
    requires TablesOk(ram, dir) && TablesUsed(ram, dir, used) && 0 <= page < WINDOW_PAGE
    requires Slot(ram, dir, page / 1024).present
    ensures 0 <= Slot(ram, dir, page / 1024).frame < |ram|
    ensures var r := SetWord(ram, Slot(ram, dir, page / 1024).frame, page % 1024, Encode(e));
            && TablesOk(r, dir) && TablesUsed(r, dir, used)
            && (forall p :: 0 <= p <= DIRECTORY_PAGE && p != page ==> Walk(r, dir, p) == Walk(ram, dir, p))
  {
    assert IsTable(ram, dir, page / 1024);
    NewLeaf(ram, dir, page, e);
    var r := SetWord(ram, Slot(ram, dir, page / 1024).frame, page % 1024, Encode(e));
    assert forall i :: IsTable(r, dir, i) ==> IsTable(ram, dir, i);
  }

  lemma InstalledTablesUsed(ram: Ram, dir: int, slot: int, t: int, user: bool, used: set<int>)
    requires TablesOk(ram, dir) && 0 <= slot < RECURSIVE_SLOT && 0 <= t < |ram|
    requires !Slot(ram, dir, slot).present && !IsTableFrame(ram, dir, t) && TablesUsed(ram, dir, used)
    ensures TablesUsed(WithTable(ram, dir, slot, t, user, Zeroes()), dir, used + {t})
  {
    NewTable(ram, dir, slot, t, user, Zeroes());
    var r := WithTable(ram, dir, slot, t, user, Zeroes());
    assert forall i :: IsTable(r, dir, i) && i != slot ==> IsTable(ram, dir, i);
  }

  lemma WindowMapped(tlb: TlbCache, ram: Ram, dir: int, i: int, phys: int, used: set<int>)
    requires TablesOk(ram, dir) && TablesUsed(ram, dir, used) && Coherent(tlb, ram, dir)
    requires 0 <= i < RECURSIVE_SLOT && !Slot(ram, dir, i).present
    requires 0 <= phys < |ram| && phys in used && !IsTableFrame(ram, dir, phys)
    ensures var r := MapInWindow(ram, dir, WINDOW_PAGE + i, Entry(true, true, false, phys));
            TablesOk(r, dir) && TablesUsed(r, dir, used) && Coherent(tlb - {WINDOW_PAGE + i}, r, dir)
  {
    NewTable(ram, dir, i, phys, false, ram[phys]);
    assert IsTable(ram, dir, RECURSIVE_SLOT) && phys != dir;
    var r := MapInWindow(ram, dir, WINDOW_PAGE + i, Entry(true, true, false, phys));
    assert r == WithTable(ram, dir, i, phys, false, ram[phys]);
    OldWalks(tlb, ram, dir, i);
    assert forall k :: IsTable(r, dir, k) && k != i ==> IsTable(ram, dir, k);
  }

  /** A frame without entries as a page table changes nothing of the heap's window. */
  lemma WindowKeepsView(ram: Ram, dir: int, i: int, phys: int, used: set<int>, words: map<int, int>)
    requires TablesOk(ram, dir) && FramesOwned(ram, dir, used) && IsView(words, ram, dir)
    requires 0 <= i < 1024 && Walk(ram, dir, WINDOW_PAGE + i).None?
    requires 0 <= phys < |ram| && phys !in used && !IsTableFrame(ram, dir, phys) && HoldsNoEntry(ram, phys)
    ensures IsView(words, MapInWindow(ram, dir, WINDOW_PAGE + i, Entry(true, true, false, phys)), dir)
  {
    WindowFaultKeepsWalksIff(ram, dir, i, phys);
    var r := MapInWindow(ram, dir, WINDOW_PAGE + i, Entry(true, true, false, phys));
    assert IsTable(ram, dir, RECURSIVE_SLOT);
    assert forall p :: IsHeapPage(ram, dir, p) ==> FrameOf(ram, dir, p) != dir;
    forall a
      ensures IsHeapWord(r, dir, a) <==> IsHeapWord(ram, dir, a)
      ensures IsHeapWord(ram, dir, a) ==> ReadHeap(r, dir, a) == ReadHeap(ram, dir, a)
    {
    }
  }

  /** The state mmu_init leaves: its two tables apart, every frame used before is kept apart. */
  lemma FirstState(s: MemState, t: int, used: set<int>)
    requires TablesOk(s.ram, s.dir) && FramesOwned(s.ram, s.dir, s.used) && s.capacity <= |s.ram|
    requires s.endPage == HEAP_PAGE && 0 in used && used <= s.used && t !in used && s.dir !in used
    requires forall i :: IsTable(s.ram, s.dir, i) ==> Slot(s.ram, s.dir, i).frame == t || Slot(s.ram, s.dir, i).frame == s.dir
    requires forall p :: 1024 <= p < WINDOW_PAGE ==> Walk(s.ram, s.dir, p).None?
    ensures Inv(s) && IsRun(s, []) && Run(s, []) == s
    ensures KeptApart(s, used - {0})
  {
    assert forall p :: !IsHeapPage(s.ram, s.dir, p);
    assert forall f :: IsTableFrame(s.ram, s.dir, f) ==> f == t || f == s.dir;
  }
}
