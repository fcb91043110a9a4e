/** Where mmu_map_page's promises end: what the TLB would keep, mappings inside the recursive window, and
    a page table for which no frame was left. */
module PagingLimits {

  import opened Machine
  import opened Paging
  import Mmu

  /** If every cached translation agreed with the tables before a mapping below the window, then without
      any invalidation they all still agree exactly when the mapped page was not cached with another
      translation: that page is the only one invlpg must drop. (The new table's alias translated to nothing
      before, so it cannot be cached.) */
  lemma StaleIff(tlb: Mmu.TlbCache, ram: Ram, dir: int, t: int, phys: int, page: int, writable: bool, user: bool)
    requires TablesOk(ram, dir) && 0 <= page < WINDOW_PAGE && 0 <= t < |ram|
    requires !Slot(ram, dir, page / 1024).present ==> !IsTableFrame(ram, dir, t)
    requires Mmu.Coherent(tlb, ram, dir)
    ensures var r := MapPage(ram, dir, t, phys, page, writable, user);
            && Mmu.Coherent(tlb - {page}, r, dir)
            && (Mmu.Coherent(tlb, r, dir) <==> (page in tlb ==> Walk(ram, dir, page) == Walk(r, dir, page)))
  {
    MapPageExact(ram, dir, t, phys, page, writable, user);
    var r := MapPage(ram, dir, t, phys, page, writable, user);
    forall p | p in tlb && p != page
      ensures Walk(r, dir, p) == Some(tlb[p])
    {
      assert Walk(ram, dir, p) == Some(tlb[p]);
      assert p == WINDOW_PAGE + page / 1024 ==> Slot(ram, dir, page / 1024).present;
    }
  }

  /** An instance: with nothing mapped but the window itself, a fault at 0xFFC01000 that gets a frame with an old
      entry in its first word makes the page at 0x400000 appear. */
  lemma WindowFaultMapsForeignPage()
    ensures var ram := [Zeroes()[RECURSIVE_SLOT := Encode(Entry(true, true, false, 0))],
                        Zeroes()[0 := Encode(Entry(true, true, false, 7))]];
            && TablesOk(ram, 0) && Walk(ram, 0, WINDOW_PAGE + 1).None? && !IsTableFrame(ram, 0, 1)
            && Walk(ram, 0, 1024).None?
            && Walk(MapInWindow(ram, 0, WINDOW_PAGE + 1, Entry(true, true, false, 1)), 0, 1024) == Some(Translation(7, true, false))
  {
    var ram := [Zeroes()[RECURSIVE_SLOT := Encode(Entry(true, true, false, 0))],
                Zeroes()[0 := Encode(Entry(true, true, false, 7))]];
    DecodeEncode(Entry(true, true, false, 0));
    DecodeEncode(Entry(true, true, false, 7));
    assert !Decode(0).present;
    assert forall k :: IsTable(ram, 0, k) <==> k == RECURSIVE_SLOT;
    RecursiveWalk(ram, 0, 1);
    WindowMappingWalks(ram, 0, 1, 1);
  }

  /** heap_map_pages does not stop in front of the window: growing to 0xFFC00000 replaces directory slot 0, the
      kernel's identity map of the first 4 MB. The map survives exactly if the fresh frame holds the very same
      entries. */
  lemma GrowthIntoWindowKeepsIdentityIff(ram: Ram, dir: int, phys: int)
    requires TablesOk(ram, dir) && 0 <= phys < |ram| && !IsTableFrame(ram, dir, phys)
    requires forall p :: 0 <= p < 1024 ==> Walk(ram, dir, p) == Some(Translation(p, true, false))
    ensures var r := MapInWindow(ram, dir, WINDOW_PAGE, Entry(true, true, false, phys));
            (forall p :: 0 <= p < 1024 ==> Walk(r, dir, p) == Walk(ram, dir, p))
            <==> forall k :: 0 <= k < 1024 ==>
                   Slot(ram, phys, k).present && Slot(ram, phys, k).rw && Slot(ram, phys, k).frame == k
  {
    WindowMappingWalks(ram, dir, 0, phys);
    var r := MapInWindow(ram, dir, WINDOW_PAGE, Entry(true, true, false, phys));
    assert forall p :: 0 <= p < 1024 ==> p / 1024 == 0 && p % 1024 == p;
    assert forall k :: 0 <= k < 1024 ==>
      (Walk(r, dir, k) == Walk(ram, dir, k) <==>
         Slot(ram, phys, k).present && Slot(ram, phys, k).rw && Slot(ram, phys, k).frame == k);
  }

  /** The very last page is always present, so no fault maps it; a mapping to any other frame destroys the
      self-map. */
  lemma LastPageDestroysSelfMap(ram: Ram, dir: int, phys: int)
    requires TablesOk(ram, dir) && phys != dir
    ensures Walk(ram, dir, DIRECTORY_PAGE) == Some(Translation(dir, true, false))
    ensures !TablesOk(MapInWindow(ram, dir, DIRECTORY_PAGE, Entry(true, true, false, phys)), dir)
  {
    RecursiveWalk(ram, dir, RECURSIVE_SLOT);
    WindowMappingKeepsTablesIff(ram, dir, DIRECTORY_PAGE, Entry(true, true, false, phys));
  }

  /** With no frame left the source installs frame 0 as the page table. The tables stay in order exactly when
      frame 0 is no table yet; once it is one, the second slot shares it. */
  lemma FrameZeroAsTableIff(ram: Ram, dir: int, phys: int, page: int, writable: bool, user: bool)
    requires TablesOk(ram, dir) && 0 <= page < WINDOW_PAGE && !Slot(ram, dir, page / 1024).present && dir != 0
    ensures TablesOk(MapPage(ram, dir, 0, phys, page, writable, user), dir) <==> !IsTableFrame(ram, dir, 0)
  {
    var r := MapPage(ram, dir, 0, phys, page, writable, user);
    if IsTableFrame(ram, dir, 0) {
      var i :| IsTable(ram, dir, i) && Slot(ram, dir, i).frame == 0;
      DecodeEncode(Entry(true, true, user, 0));
      assert Slot(r, dir, i) == Slot(ram, dir, i);
      assert Slot(r, dir, page / 1024) == Entry(true, true, user, 0);
      assert IsTable(r, dir, i) && IsTable(r, dir, page / 1024);
    } else {
      MapPageExact(ram, dir, 0, phys, page, writable, user);
    }
  }

  /** Done for two directory slots the second mapping wipes the first: page p, just mapped, translates to
      nothing any more, or to the other page's frame. */
  lemma SharedFrameZeroLosesMapping(ram: Ram, dir: int, p: int, q: int, physP: int, physQ: int)
    requires TablesOk(ram, dir) && 0 <= p < WINDOW_PAGE && 0 <= q < WINDOW_PAGE && p / 1024 != q / 1024
    requires !Slot(ram, dir, p / 1024).present && !Slot(ram, dir, q / 1024).present && !IsTableFrame(ram, dir, 0)
    requires physP != physQ
    ensures var r1 := MapPage(ram, dir, 0, physP, p, true, false);
            && TablesOk(r1, dir) && Walk(r1, dir, p) == Some(Translation(physP, true, false))
            && Walk(MapPage(r1, dir, 0, physQ, q, true, false), dir, p) != Walk(r1, dir, p)
            && !TablesOk(MapPage(r1, dir, 0, physQ, q, true, false), dir)
  {
    MapPageExact(ram, dir, 0, physP, p, true, false);
    MapPageSlots(ram, dir, 0, physP, p, true, false);
    var r1 := MapPage(ram, dir, 0, physP, p, true, false);
    var r2 := MapPage(r1, dir, 0, physQ, q, true, false);
    assert IsTable(ram, dir, RECURSIVE_SLOT) && dir != 0;
    DecodeEncode(Entry(true, true, false, 0));
    DecodeEncode(Entry(true, true, false, physQ));
    assert Slot(r2, dir, p / 1024) == Slot(r1, dir, p / 1024) == Entry(true, true, false, 0);
    assert Slot(r2, dir, q / 1024) == Entry(true, true, false, 0);
    assert Slot(r2, 0, p % 1024) == if p % 1024 == q % 1024 then Entry(true, true, false, physQ) else Decode(0);
    assert IsTable(r2, dir, p / 1024) && IsTable(r2, dir, q / 1024);
  }
}
