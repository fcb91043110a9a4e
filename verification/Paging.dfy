/** Two-level 32-bit paging (Intel SDM Volume 3A, section 4.3) over RAM as frames of 1024 words:
    the translation a page directory stands for, and how src/mm/mmu.zig's table writes change it. */
module Paging {

  import opened Machine

  /** RAM by frame, each frame 1024 words. */
  type Ram = seq<seq<int>>

  const RECURSIVE_SLOT: int := 1023
  /** The first page of the recursive window, 0xFFC00000 >> 12. */
  const WINDOW_PAGE: int := 1023 * 1024
  /** 0xFFFFF000 >> 12: the page at which the directory maps itself. */
  const DIRECTORY_PAGE: int := 1023 * 1024 + 1023
  /** The first page of the kernel heap's window, 0xD0000000 >> 12. */
  const HEAP_PAGE: int := 0xD0000

  // ---- Table entries ------------------------------------------------------------------

  /** The fields of PageDirectoryEntry and PageTableEntry the kernel sets. */
  datatype Entry = Entry(present: bool, rw: bool, user: bool, frame: int)

  function Bit(b: bool): int {
    if b then 1 else 0
  }

  /** The packed word: present in bit 0, rw in bit 1, user in bit 2, the frame in bits 12 to 31. */
  function Encode(e: Entry): int {
    Bit(e.present) + 2 * Bit(e.rw) + 4 * Bit(e.user) + PAGE_SIZE * e.frame
  }

  function Decode(word: int): Entry {
    Entry(word % 2 == 1, word / 2 % 2 == 1, word / 4 % 2 == 1, word / PAGE_SIZE)
  }

  lemma LowBit(b: bool, rest: int)
    ensures (Bit(b) + 2 * rest) % 2 == Bit(b) && (Bit(b) + 2 * rest) / 2 == rest
  {
  }

  lemma DecodeEncode(e: Entry)
    ensures Decode(Encode(e)) == e
  {
    hide Bit;
    var w := Encode(e);
    var bit2 := Bit(e.user) + 2 * (512 * e.frame);
    var bit1 := Bit(e.rw) + 2 * bit2;
    assert w == Bit(e.present) + 2 * bit1;
    LowBit(e.present, bit1);
    LowBit(e.rw, bit2);
    LowBit(e.user, 512 * e.frame);
    assert w / 4 == w / 2 / 2 && w / PAGE_SIZE == w / 4 / 2 / 512;
    BitIsOne(e.present);
    BitIsOne(e.rw);
    BitIsOne(e.user);
  }

  lemma BitIsOne(b: bool)
    ensures Bit(b) == 1 <==> b
  {
  }

  // ---- The walk -----------------------------------------------------------------------

  ghost predicate RamShape(ram: Ram) {
    forall f :: 0 <= f < |ram| ==> |ram[f]| == 1024
  }

  function Zeroes(): (z: seq<int>)
    ensures |z| == 1024
  {
    seq(1024, _ => 0)
  }

  /** Slot i of the table in frame t. */
  function Slot(ram: Ram, t: int, i: int): Entry {
    if 0 <= t < |ram| && 0 <= i < |ram[t]| then Decode(ram[t][i]) else Entry(false, false, false, 0)
  }

  /** The translation of a page: its frame and its rights. */
  datatype Translation = Translation(frame: int, writable: bool, user: bool)

  /** What the processor finds for virtual page number page under directory frame dir. */
  function Walk(ram: Ram, dir: int, page: int): Option<Translation> {
    var pde := Slot(ram, dir, page / 1024);
    if !pde.present then None
    else
      var pte := Slot(ram, pde.frame, page % 1024);
      if !pte.present then None
      else Some(Translation(pte.frame, pde.rw && pte.rw, pde.user && pte.user))
  }

  ghost predicate IsTable(ram: Ram, dir: int, i: int) {
    0 <= i < 1024 && Slot(ram, dir, i).present
  }

  /** The directory slots in use. */
  ghost function TableSlots(ram: Ram, dir: int): set<int> {
    set i | 0 <= i < 1024 && IsTable(ram, dir, i)
  }

  /** Frame f is the directory or one of its page tables. */
  ghost predicate IsTableFrame(ram: Ram, dir: int, f: int) {
    exists i :: IsTable(ram, dir, i) && Slot(ram, dir, i).frame == f
  }

  /** The directory maps itself through its last slot; its tables are distinct frames of RAM, writable. */
  ghost predicate TablesOk(ram: Ram, dir: int) {
    && RamShape(ram)
    && 0 <= dir < |ram|
    && Slot(ram, dir, RECURSIVE_SLOT) == Entry(true, true, false, dir)
    && (forall i :: IsTable(ram, dir, i) ==> Slot(ram, dir, i).rw && 0 <= Slot(ram, dir, i).frame < |ram|)
    && (forall i, j :: IsTable(ram, dir, i) && IsTable(ram, dir, j) && i != j
          ==> Slot(ram, dir, i).frame != Slot(ram, dir, j).frame)
  }

  // ---- What mmu_map_page writes ---------------------------------------------------------

  function SetWord(ram: Ram, f: int, i: int, word: int): (r: Ram)
    requires RamShape(ram) && 0 <= f < |ram| && 0 <= i < 1024
    ensures RamShape(r) && |r| == |ram|
  {
    ram[f := ram[f][i := word]]
  }

  /** The directory slot filled with a table in frame t, the frame holding content. */
  function WithTable(ram: Ram, dir: int, slot: int, t: int, user: bool, content: seq<int>): (r: Ram)
    requires RamShape(ram) && 0 <= dir < |ram| && 0 <= t < |ram| && 0 <= slot < 1024
    requires |content| == 1024
    ensures RamShape(r) && |r| == |ram|
  {
    SetWord(ram, dir, slot, Encode(Entry(true, true, user, t)))[t := content]
  }

  /** RAM after mapping page to frame phys, t being the frame of a new table if one is needed. */
  ghost function MapPage(ram: Ram, dir: int, t: int, phys: int, page: int, writable: bool, user: bool): (r: Ram)
    requires TablesOk(ram, dir) && 0 <= page < WINDOW_PAGE && 0 <= t < |ram|
    ensures RamShape(r) && |r| == |ram|
  {
    var slot := page / 1024;
    var leaf := Encode(Entry(true, writable, user, phys));
    if Slot(ram, dir, slot).present then SetWord(ram, Slot(ram, dir, slot).frame, page % 1024, leaf)
    else SetWord(WithTable(ram, dir, slot, t, user, Zeroes()), t, page % 1024, leaf)
  }

  // ---- The words themselves -----------------------------------------------------------------

  /** What the processor finds, read off the two words: both present; writable and open to the user where both words
      say so (Intel SDM Volume 3A, section 4.6). */
  lemma WalkOfWords(ram: Ram, dir: int, page: int)
    requires RamShape(ram) && 0 <= dir < |ram| && 0 <= page < 0x10_0000
    requires 0 <= ram[dir][page / 1024] / 4096 < |ram|
    ensures var pde := ram[dir][page / 1024];
            var pte := ram[pde / 4096][page % 1024];
            Walk(ram, dir, page) ==
            if pde % 2 == 0 || pte % 2 == 0 then None
            else Some(Translation(pte / 4096, pde % 4 == 3 && pte % 4 == 3, pde % 8 >= 4 && pte % 8 >= 4))
  {
    LowBits(ram[dir][page / 1024]);
    LowBits(ram[ram[dir][page / 1024] / 4096][page % 1024]);
  }

  lemma LowBits(word: int)
    ensures word % 2 == 1 && word / 2 % 2 == 1 <==> word % 4 == 3
    ensures word / 4 % 2 == 1 <==> word % 8 >= 4
  {
    var half, quarter := word / 2, word / 4;
    FourthParts(word, half / 2, half % 2, word % 2);
    EighthParts(word, quarter / 2, quarter % 2, word % 4);
  }

  lemma FourthParts(word: int, k: int, high: int, low: int)
    requires word == 4 * k + 2 * high + low && 0 <= high < 2 && 0 <= low < 2
    ensures word % 4 == 2 * high + low
  {
  }

  lemma EighthParts(word: int, k: int, high: int, low: int)
    requires word == 8 * k + 4 * high + low && 0 <= high < 2 && 0 <= low < 4
    ensures word % 8 == 4 * high + low
  {
  }

  lemma EncodedWord(e: Entry)
    ensures Encode(e) == 4096 * e.frame + (if e.present then 1 else 0) + (if e.rw then 2 else 0) + (if e.user then 4 else 0)
  {
  }

  /** r is RAM after mmu_map_page, word by word: the page's entry in the table its directory word points at; if that
      word was not present, the directory word and a table of zeroes in frame t as well; no other word. */
  ghost predicate WordsMapped(ram: Ram, r: Ram, dir: int, t: int, phys: int, page: int, writable: bool, user: bool)
    requires RamShape(ram) && RamShape(r) && |r| == |ram| && 0 <= dir < |ram| && 0 <= t < |ram| && 0 <= page < 0x10_0000
  {
    var pde, i := ram[dir][page / 1024], page % 1024;
    var rights := (if writable then 2 else 0) + (if user then 4 else 0);
    var table := if pde % 2 == 1 then pde / 4096 else t;
    && 0 <= table < |ram|
    && r[table][i] == 4096 * phys + 1 + rights
    && (pde % 2 == 0 ==>
          && r[dir][page / 1024] == 4096 * t + (if user then 7 else 3)
          && (forall j :: 0 <= j < 1024 && j != i ==> r[t][j] == 0))
    && (forall f, j :: 0 <= f < |ram| && 0 <= j < 1024 && r[f][j] != ram[f][j] ==>
          (f == table && j == i) || (pde % 2 == 0 && (f == t || (f == dir && j == page / 1024))))
  }

  lemma MapPageWords(ram: Ram, dir: int, t: int, phys: int, page: int, writable: bool, user: bool)
    requires TablesOk(ram, dir) && 0 <= page < WINDOW_PAGE && 0 <= t < |ram|
    requires !Slot(ram, dir, page / 1024).present ==> !IsTableFrame(ram, dir, t)
    ensures WordsMapped(ram, MapPage(ram, dir, t, phys, page, writable, user), dir, t, phys, page, writable, user)
  {
    EncodedWord(Entry(true, writable, user, phys));
    EncodedWord(Entry(true, true, user, t));
    assert IsTable(ram, dir, RECURSIVE_SLOT);
    assert Slot(ram, dir, page / 1024).present ==> IsTable(ram, dir, page / 1024);
    hide Encode;
  }

  // ---- How the translation changes --------------------------------------------------------

  /** A new table, in a frame that is not a table yet, keeps the tables in order whatever the frame
      holds, and changes no walk but those of its own pages and of its alias in the recursive window. */
  lemma NewTable(ram: Ram, dir: int, slot: int, t: int, user: bool, content: seq<int>)
    requires TablesOk(ram, dir) && 0 <= slot < RECURSIVE_SLOT && 0 <= t < |ram| && |content| == 1024
    requires !Slot(ram, dir, slot).present && !IsTableFrame(ram, dir, t)
    ensures var r := WithTable(ram, dir, slot, t, user, content);
            && TablesOk(r, dir)
            && Slot(r, dir, slot) == Entry(true, true, user, t)
            && (forall i :: 0 <= i < 1024 && i != slot ==> Slot(r, dir, i) == Slot(ram, dir, i))
            && (forall p :: 0 <= p <= DIRECTORY_PAGE && p / 1024 != slot && p != WINDOW_PAGE + slot
                  ==> Walk(r, dir, p) == Walk(ram, dir, p))
            && Walk(r, dir, WINDOW_PAGE + slot) == Some(Translation(t, true, false))
            && Walk(ram, dir, WINDOW_PAGE + slot).None?
  {
    var r := WithTable(ram, dir, slot, t, user, content);
    assert IsTable(ram, dir, RECURSIVE_SLOT);
    assert t != dir;
    DecodeEncode(Entry(true, true, user, t));
    assert forall i :: 0 <= i < 1024 && i != slot ==> Slot(r, dir, i) == Slot(ram, dir, i);
    forall i, j | IsTable(r, dir, i) && IsTable(r, dir, j) && i != j
      ensures Slot(r, dir, i).frame != Slot(r, dir, j).frame
    {
      assert i != slot ==> IsTable(ram, dir, i);
      assert j != slot ==> IsTable(ram, dir, j);
    }
    forall p | 0 <= p <= DIRECTORY_PAGE && p / 1024 != slot && p != WINDOW_PAGE + slot
      ensures Walk(r, dir, p) == Walk(ram, dir, p)
    {
      if Slot(ram, dir, p / 1024).present {
        assert IsTable(ram, dir, p / 1024);
        if p / 1024 == RECURSIVE_SLOT {
          assert p % 1024 != slot;
        } else {
          assert Slot(ram, dir, p / 1024).frame != dir;
        }
      }
    }
    RecursiveWalk(r, dir, slot);
    RecursiveWalk(ram, dir, slot);
  }

  /** A zeroed table maps nothing, so no page changes. */
  lemma EmptyTable(ram: Ram, dir: int, slot: int, t: int, user: bool)
    requires TablesOk(ram, dir) && 0 <= slot < RECURSIVE_SLOT && 0 <= t < |ram|
    requires !Slot(ram, dir, slot).present && !IsTableFrame(ram, dir, t)
    ensures forall p :: 0 <= p <= DIRECTORY_PAGE && p != WINDOW_PAGE + slot
              ==> Walk(WithTable(ram, dir, slot, t, user, Zeroes()), dir, p) == Walk(ram, dir, p)
  {
    var r := WithTable(ram, dir, slot, t, user, Zeroes());
    NewTable(ram, dir, slot, t, user, Zeroes());
    assert forall i :: 0 <= i < 1024 ==> Slot(r, t, i) == Decode(0);
  }

  /** Writing slot i of the table behind directory slot d changes the walk of that page alone. */
  lemma NewLeaf(ram: Ram, dir: int, page: int, e: Entry)
    requires TablesOk(ram, dir) && 0 <= page < WINDOW_PAGE
    requires Slot(ram, dir, page / 1024).present
    ensures var r := SetWord(ram, Slot(ram, dir, page / 1024).frame, page % 1024, Encode(e));
            && TablesOk(r, dir)
            && (forall i :: 0 <= i < 1024 ==> Slot(r, dir, i) == Slot(ram, dir, i))
            && (forall p :: 0 <= p <= DIRECTORY_PAGE && p != page ==> Walk(r, dir, p) == Walk(ram, dir, p))
            && Walk(r, dir, page) == if e.present
                                     then Some(Translation(e.frame, e.rw, Slot(ram, dir, page / 1024).user && e.user))
                                     else None
  {
    var t := Slot(ram, dir, page / 1024).frame;
    var r := SetWord(ram, t, page % 1024, Encode(e));
    assert IsTable(ram, dir, page / 1024) && IsTable(ram, dir, RECURSIVE_SLOT);
    assert t != dir;
    DecodeEncode(e);
    assert forall i :: 0 <= i < 1024 ==> Slot(r, dir, i) == Slot(ram, dir, i);
    assert forall i :: IsTable(r, dir, i) <==> IsTable(ram, dir, i);
    forall p | 0 <= p <= DIRECTORY_PAGE && p != page
      ensures Walk(r, dir, p) == Walk(ram, dir, p)
    {
      if Slot(ram, dir, p / 1024).present {
        assert IsTable(ram, dir, p / 1024);
        if p / 1024 == page / 1024 {
          assert p % 1024 != page % 1024;
        }
      }
    }
  }

  /** mmu_map_page's effect on the translation is exact: the page translates to phys with the
      requested rights (user access also needs the directory slot's), every other page as before,
      except that a newly installed table becomes visible at its own alias. */
  lemma MapPageExact(ram: Ram, dir: int, t: int, phys: int, page: int, writable: bool, user: bool)
    requires TablesOk(ram, dir) && 0 <= page < WINDOW_PAGE && 0 <= t < |ram|
    requires !Slot(ram, dir, page / 1024).present ==> !IsTableFrame(ram, dir, t)
    ensures var r := MapPage(ram, dir, t, phys, page, writable, user);
            var was := Slot(ram, dir, page / 1024);
            && TablesOk(r, dir)
            && Walk(r, dir, page) == Some(Translation(phys, writable, user && (was.present ==> was.user)))
            && (forall p :: 0 <= p < WINDOW_PAGE && p != page ==> Walk(r, dir, p) == Walk(ram, dir, p))
            && (forall p :: WINDOW_PAGE <= p <= DIRECTORY_PAGE && (was.present || p != WINDOW_PAGE + page / 1024)
                  ==> Walk(r, dir, p) == Walk(ram, dir, p))
            && (!was.present ==> Walk(ram, dir, WINDOW_PAGE + page / 1024).None?
                                 && Walk(r, dir, WINDOW_PAGE + page / 1024) == Some(Translation(t, true, false)))
  {
    var slot := page / 1024;
    var leaf := Entry(true, writable, user, phys);
    if Slot(ram, dir, slot).present {
      NewLeaf(ram, dir, page, leaf);
    } else {
      NewTable(ram, dir, slot, t, user, Zeroes());
      EmptyTable(ram, dir, slot, t, user);
      NewLeaf(WithTable(ram, dir, slot, t, user, Zeroes()), dir, page, leaf);
    }
  }

  /** The recursive window: page slot of it is the table of that directory slot, and its last page
      the directory itself. */
  lemma RecursiveWalk(ram: Ram, dir: int, slot: int)
    requires TablesOk(ram, dir) && 0 <= slot < 1024
    ensures Walk(ram, dir, WINDOW_PAGE + slot) ==
            if Slot(ram, dir, slot).present then Some(Translation(Slot(ram, dir, slot).frame, true, false)) else None
  {
    assert (WINDOW_PAGE + slot) / 1024 == RECURSIVE_SLOT && (WINDOW_PAGE + slot) % 1024 == slot;
    assert Slot(ram, dir, slot).present ==> IsTable(ram, dir, slot);
  }

  /** Below the heap's window, the identity map of the first 4 MB included, every page translates as before. */
  ghost predicate SameLowPages(ram: Ram, r: Ram, dir: int) {
    forall p :: 0 <= p < HEAP_PAGE ==> Walk(r, dir, p) == Walk(ram, dir, p)
  }

  // ---- The kernel heap's window -----------------------------------------------------------

  ghost predicate IsHeapPage(ram: Ram, dir: int, page: int) {
    HEAP_PAGE <= page < WINDOW_PAGE && Walk(ram, dir, page).Some?
  }

  /** The frame behind a mapped heap page. */
  function FrameOf(ram: Ram, dir: int, page: int): int
    requires Walk(ram, dir, page).Some?
  {
    Walk(ram, dir, page).value.frame
  }

  /** Heap pages are kernel-only and writable; their frames are pairwise distinct and no tables; they
      and all table frames, the directory among them, are marked used. */
  ghost predicate FramesOwned(ram: Ram, dir: int, used: set<int>) {
    && (forall i :: IsTable(ram, dir, i) ==> Slot(ram, dir, i).frame in used)
    && (forall p :: IsHeapPage(ram, dir, p) ==>
          && 0 <= FrameOf(ram, dir, p) < |ram|
          && Walk(ram, dir, p) == Some(Translation(FrameOf(ram, dir, p), true, false))
          && FrameOf(ram, dir, p) in used
          && !IsTableFrame(ram, dir, FrameOf(ram, dir, p)))
    && (forall p, q :: IsHeapPage(ram, dir, p) && IsHeapPage(ram, dir, q) && p != q
          ==> FrameOf(ram, dir, p) != FrameOf(ram, dir, q))
  }

  /** Frame f is neither a table nor behind a heap page. */
  ghost predicate UnusedFrame(ram: Ram, dir: int, f: int) {
    !IsTableFrame(ram, dir, f) && forall p :: IsHeapPage(ram, dir, p) ==> FrameOf(ram, dir, p) != f
  }

  lemma FreeFrameUnused(ram: Ram, dir: int, used: set<int>, f: int)
    requires FramesOwned(ram, dir, used) && f !in used
    ensures UnusedFrame(ram, dir, f)
  {
  }

  /** The frames a mapping takes: the page's own and, if its directory slot is empty, the table's. */
  function FramesTaken(ram: Ram, dir: int, t: int, phys: int, page: int): set<int> {
    {phys} + if Slot(ram, dir, page / 1024).present then {} else {t}
  }

  /** Mapping a heap page to a frame taken from the allocator keeps the ownership of frames. */
  lemma HeapPageMapped(ram: Ram, dir: int, used: set<int>, t: int, phys: int, page: int)
    requires TablesOk(ram, dir) && FramesOwned(ram, dir, used)
    requires HEAP_PAGE <= page < WINDOW_PAGE
    requires 0 <= phys < |ram| && phys !in used
    requires 0 <= t < |ram| && (!Slot(ram, dir, page / 1024).present ==> UnusedFrame(ram, dir, t) && t != phys)
    ensures var r := MapPage(ram, dir, t, phys, page, true, false);
            TablesOk(r, dir) && FramesOwned(r, dir, used + FramesTaken(ram, dir, t, phys, page))
  {
    var r := MapPage(ram, dir, t, phys, page, true, false);
    MapPageSlots(ram, dir, t, phys, page, true, false);
    MapPageExact(ram, dir, t, phys, page, true, false);
    forall f | IsTableFrame(r, dir, f)
      ensures IsTableFrame(ram, dir, f) || (f == t && !Slot(ram, dir, page / 1024).present)
    {
      var i :| IsTable(r, dir, i) && Slot(r, dir, i).frame == f;
      assert i != page / 1024 ==> IsTable(ram, dir, i);
    }
    forall p | IsHeapPage(r, dir, p) && p != page
      ensures IsHeapPage(ram, dir, p) && FrameOf(r, dir, p) == FrameOf(ram, dir, p)
    {
    }
    assert forall i :: IsTable(r, dir, i) && i != page / 1024 ==> IsTable(ram, dir, i);
    assert Slot(ram, dir, page / 1024).present ==> IsTable(ram, dir, page / 1024);
  }

  /** A mapping touches one directory slot at most. */
  lemma MapPageSlots(ram: Ram, dir: int, t: int, phys: int, page: int, writable: bool, user: bool)
    requires TablesOk(ram, dir) && 0 <= page < WINDOW_PAGE && 0 <= t < |ram|
    requires !Slot(ram, dir, page / 1024).present ==> !IsTableFrame(ram, dir, t)
    ensures var r := MapPage(ram, dir, t, phys, page, writable, user);
            && (forall i :: 0 <= i < 1024 && i != page / 1024 ==> Slot(r, dir, i) == Slot(ram, dir, i))
            && Slot(r, dir, page / 1024) == (if Slot(ram, dir, page / 1024).present then Slot(ram, dir, page / 1024)
                                             else Entry(true, true, user, t))
            && (forall f :: 0 <= f < |ram| && !IsTableFrame(ram, dir, f) && (Slot(ram, dir, page / 1024).present || f != t)
                  ==> r[f] == ram[f])
  {
    var slot := page / 1024;
    assert IsTable(ram, dir, RECURSIVE_SLOT);
    if Slot(ram, dir, slot).present {
      assert IsTable(ram, dir, slot);
      NewLeaf(ram, dir, page, Entry(true, writable, user, phys));
    } else {
      NewTable(ram, dir, slot, t, user, Zeroes());
      NewLeaf(WithTable(ram, dir, slot, t, user, Zeroes()), dir, page, Entry(true, writable, user, phys));
    }
  }

  // ---- Heap memory seen through the translation ---------------------------------------------

  ghost predicate IsHeapWord(ram: Ram, dir: int, a: int) {
    a % 4 == 0 && IsHeapPage(ram, dir, a / PAGE_SIZE)
  }

  function WordAt(ram: Ram, f: int, i: int): int {
    if 0 <= f < |ram| && 0 <= i < |ram[f]| then ram[f][i] else 0
  }

  /** The word a heap address reads through the translation. */
  function ReadHeap(ram: Ram, dir: int, a: int): int {
    match Walk(ram, dir, a / PAGE_SIZE)
    case None => 0
    case Some(t) => WordAt(ram, t.frame, a % PAGE_SIZE / 4)
  }

  /** The words of the mapped part of the heap's window, by virtual address. */
  ghost function View(ram: Ram, dir: int): map<int, int> {
    map a | HEAP_PAGE * PAGE_SIZE <= a < WINDOW_PAGE * PAGE_SIZE && IsHeapWord(ram, dir, a) :: ReadHeap(ram, dir, a)
  }

  /** words is the view, word by word. */
  ghost predicate IsView(words: map<int, int>, ram: Ram, dir: int) {
    && (forall a {:trigger IsHeapWord(ram, dir, a)} :: a in words <==> IsHeapWord(ram, dir, a))
    && (forall a {:trigger ReadHeap(ram, dir, a)} :: a in words ==> words[a] == ReadHeap(ram, dir, a))
  }

  lemma ViewIsView(ram: Ram, dir: int)
    ensures IsView(View(ram, dir), ram, dir)
  {
    forall a
      ensures a in View(ram, dir) <==> IsHeapWord(ram, dir, a)
    {
      if IsHeapWord(ram, dir, a) {
        assert HEAP_PAGE <= a / PAGE_SIZE < WINDOW_PAGE;
      }
    }
  }

  lemma IsViewUnique(words: map<int, int>, ram: Ram, dir: int)
    requires IsView(words, ram, dir)
    ensures words == View(ram, dir)
  {
    ViewIsView(ram, dir);
    forall a
      ensures a in words <==> a in View(ram, dir)
      ensures a in words ==> words[a] == View(ram, dir)[a]
    {
      assert IsHeapWord(ram, dir, a) || !IsHeapWord(ram, dir, a);
      assert ReadHeap(ram, dir, a) == ReadHeap(ram, dir, a);
    }
  }

  /** The heap pages other than page keep frame and contents. */
  ghost predicate OtherPagesKept(ram: Ram, r: Ram, dir: int, page: int) {
    forall p :: HEAP_PAGE <= p < WINDOW_PAGE && p != page ==>
      && Walk(r, dir, p) == Walk(ram, dir, p)
      && (Walk(ram, dir, p).Some? && 0 <= FrameOf(ram, dir, p) < |ram| && |r| == |ram|
          ==> r[FrameOf(ram, dir, p)] == ram[FrameOf(ram, dir, p)])
  }

  lemma MapKeepsOtherPages(ram: Ram, dir: int, used: set<int>, t: int, phys: int, page: int)
    requires TablesOk(ram, dir) && FramesOwned(ram, dir, used)
    requires HEAP_PAGE <= page < WINDOW_PAGE
    requires 0 <= t < |ram| && (!Slot(ram, dir, page / 1024).present ==> UnusedFrame(ram, dir, t))
    ensures OtherPagesKept(ram, MapPage(ram, dir, t, phys, page, true, false), dir, page)
  {
    MapPageSlots(ram, dir, t, phys, page, true, false);
    MapPageExact(ram, dir, t, phys, page, true, false);
    assert forall p :: HEAP_PAGE <= p < WINDOW_PAGE && Walk(ram, dir, p).Some? ==> IsHeapPage(ram, dir, p);
  }

  /** A page mapped to a fresh frame appears in the view; no word of another page changes. */
  lemma ViewAfterMap(ram: Ram, r: Ram, dir: int, used: set<int>, page: int)
    requires TablesOk(ram, dir) && FramesOwned(ram, dir, used) && |r| == |ram|
    requires HEAP_PAGE <= page < WINDOW_PAGE && Walk(r, dir, page).Some?
    requires OtherPagesKept(ram, r, dir, page)
    ensures forall a :: a in View(ram, dir) && a / PAGE_SIZE != page
              ==> a in View(r, dir) && View(r, dir)[a] == View(ram, dir)[a]
    ensures forall a :: a in View(r, dir) <==> (a in View(ram, dir) || (a % 4 == 0 && a / PAGE_SIZE == page))
  {
    forall a | a % 4 == 0 && HEAP_PAGE * PAGE_SIZE <= a < WINDOW_PAGE * PAGE_SIZE && a / PAGE_SIZE != page
      ensures a in View(r, dir) <==> a in View(ram, dir)
      ensures a in View(ram, dir) ==> View(r, dir)[a] == View(ram, dir)[a]
    {
      var p := a / PAGE_SIZE;
      assert HEAP_PAGE <= p < WINDOW_PAGE;
      assert IsHeapPage(ram, dir, p) <==> IsHeapPage(r, dir, p);
    }
  }

  /** A store to a frame that is no table changes no translation. */
  lemma StoreKeepsWalks(ram: Ram, dir: int, f: int, i: int, word: int)
    requires TablesOk(ram, dir) && 0 <= f < |ram| && 0 <= i < 1024
    requires !IsTableFrame(ram, dir, f)
    ensures var r := SetWord(ram, f, i, word);
            && TablesOk(r, dir)
            && (forall k :: 0 <= k < 1024 ==> Slot(r, dir, k) == Slot(ram, dir, k))
            && (forall p :: 0 <= p <= DIRECTORY_PAGE ==> Walk(r, dir, p) == Walk(ram, dir, p))
            && (forall g :: IsTableFrame(r, dir, g) <==> IsTableFrame(ram, dir, g))
  {
    var r := SetWord(ram, f, i, word);
    assert IsTable(ram, dir, RECURSIVE_SLOT);
    assert forall k :: 0 <= k < 1024 ==> Slot(r, dir, k) == Slot(ram, dir, k);
    assert forall k :: IsTable(r, dir, k) <==> IsTable(ram, dir, k);
    forall p | 0 <= p <= DIRECTORY_PAGE
      ensures Walk(r, dir, p) == Walk(ram, dir, p)
    {
      if Slot(ram, dir, p / 1024).present {
        assert IsTable(ram, dir, p / 1024);
      }
    }
    forall g
      ensures IsTableFrame(r, dir, g) <==> IsTableFrame(ram, dir, g)
    {
      if k :| IsTable(ram, dir, k) && Slot(ram, dir, k).frame == g {
        assert IsTable(r, dir, k) && Slot(r, dir, k).frame == g;
      }
    }
  }

  lemma StoreKeepsOwnership(ram: Ram, dir: int, used: set<int>, page: int, i: int, word: int)
    requires TablesOk(ram, dir) && FramesOwned(ram, dir, used)
    requires IsHeapPage(ram, dir, page) && 0 <= i < 1024
    ensures FramesOwned(SetWord(ram, FrameOf(ram, dir, page), i, word), dir, used)
  {
    var r := SetWord(ram, FrameOf(ram, dir, page), i, word);
    StoreKeepsWalks(ram, dir, FrameOf(ram, dir, page), i, word);
    assert forall p :: IsHeapPage(r, dir, p) <==> IsHeapPage(ram, dir, p);
    assert forall k :: IsTable(r, dir, k) <==> IsTable(ram, dir, k);
  }

  /** Two aligned addresses name the same word of RAM only if they are equal. */
  lemma HeapWordsDistinct(ram: Ram, dir: int, used: set<int>, a: int, b: int)
    requires TablesOk(ram, dir) && FramesOwned(ram, dir, used)
    requires IsHeapWord(ram, dir, a) && IsHeapWord(ram, dir, b) && a != b
    ensures FrameOf(ram, dir, a / PAGE_SIZE) != FrameOf(ram, dir, b / PAGE_SIZE)
            || a % PAGE_SIZE / 4 != b % PAGE_SIZE / 4
  {
    if a / PAGE_SIZE == b / PAGE_SIZE {
      SameWord(a);
      SameWord(b);
    }
  }

  /** An aligned address is its page and its word. */
  lemma SameWord(a: int)
    requires a % 4 == 0
    ensures a == PAGE_SIZE * (a / PAGE_SIZE) + 4 * (a % PAGE_SIZE / 4)
  {
    assert a == PAGE_SIZE * (a / PAGE_SIZE) + a % PAGE_SIZE;
    var w := a / 4 - 1024 * (a / PAGE_SIZE);
    assert a % PAGE_SIZE == 4 * w;
  }

  lemma ReadAfterStore(ram: Ram, dir: int, used: set<int>, a: int, word: int, b: int)
    requires TablesOk(ram, dir) && FramesOwned(ram, dir, used)
    requires IsHeapWord(ram, dir, a)
    ensures var r := SetWord(ram, FrameOf(ram, dir, a / PAGE_SIZE), a % PAGE_SIZE / 4, word);
            && (IsHeapWord(r, dir, b) <==> IsHeapWord(ram, dir, b))
            && (IsHeapWord(ram, dir, b) ==> ReadHeap(r, dir, b) == if b == a then word else ReadHeap(ram, dir, b))
  {
    var f := FrameOf(ram, dir, a / PAGE_SIZE);
    StoreKeepsWalks(ram, dir, f, a % PAGE_SIZE / 4, word);
    if IsHeapWord(ram, dir, b) && b != a {
      HeapWordsDistinct(ram, dir, used, a, b);
    }
  }

  /** Heap memory behaves as flat memory: a store through a heap page changes that word of the view
      alone. */
  lemma ViewAfterStore(ram: Ram, dir: int, used: set<int>, a: int, word: int)
    requires TablesOk(ram, dir) && FramesOwned(ram, dir, used)
    requires IsHeapWord(ram, dir, a)
    ensures View(SetWord(ram, FrameOf(ram, dir, a / PAGE_SIZE), a % PAGE_SIZE / 4, word), dir)
            == View(ram, dir)[a := word]
  {
    forall b {
      ReadAfterStore(ram, dir, used, a, word, b);
    }
  }

  // ---- Mappings inside the recursive window -----------------------------------------------

  /** What mmu_map_page writes for a page inside the recursive window, whose table is the directory. */
  function MapInWindow(ram: Ram, dir: int, page: int, e: Entry): Ram
    requires RamShape(ram) && 0 <= dir < |ram| && WINDOW_PAGE <= page <= DIRECTORY_PAGE
  {
    SetWord(ram, dir, page - WINDOW_PAGE, Encode(e))
  }

  /** Such a mapping replaces a directory slot. The tables stay in order exactly when the entry could have
      been that slot's: writable, and for the last slot the directory itself as before, for another slot
      a frame of RAM that no other slot uses. */
  lemma WindowMappingKeepsTablesIff(ram: Ram, dir: int, page: int, e: Entry)
    requires TablesOk(ram, dir) && WINDOW_PAGE <= page <= DIRECTORY_PAGE && e.present
    ensures var i := page - WINDOW_PAGE;
            && Slot(MapInWindow(ram, dir, page, e), dir, i) == e
            && (TablesOk(MapInWindow(ram, dir, page, e), dir) <==>
                  if i == RECURSIVE_SLOT then e == Entry(true, true, false, dir)
                  else e.rw && 0 <= e.frame < |ram| && forall k :: IsTable(ram, dir, k) && k != i ==> Slot(ram, dir, k).frame != e.frame)
  {
    var i := page - WINDOW_PAGE;
    var r := MapInWindow(ram, dir, page, e);
    DecodeEncode(e);
    assert forall k :: 0 <= k < 1024 && k != i ==> Slot(r, dir, k) == Slot(ram, dir, k);
    assert IsTable(ram, dir, RECURSIVE_SLOT) && IsTable(r, dir, i);
    assert forall k :: k != i ==> (IsTable(r, dir, k) <==> IsTable(ram, dir, k));
    if TablesOk(r, dir) {
      forall k | IsTable(ram, dir, k) && k != i
        ensures Slot(ram, dir, k).frame != e.frame
      {
        assert IsTable(r, dir, k);
      }
    }
  }

  /** No word of frame f, read as a page table's entry, is present. */
  predicate HoldsNoEntry(ram: Ram, f: int) {
    forall k :: 0 <= k < 1024 ==> !Slot(ram, f, k).present
  }

  /** What a kernel mapping inside the window does to the translation, phys being a frame that is no table: the
      frame becomes the page table of that directory slot as it is, never cleared. All other pages keep their
      translation. */
  lemma WindowMappingWalks(ram: Ram, dir: int, i: int, phys: int)
    requires TablesOk(ram, dir) && 0 <= i < RECURSIVE_SLOT && 0 <= phys < |ram| && !IsTableFrame(ram, dir, phys)
    ensures var r := MapInWindow(ram, dir, WINDOW_PAGE + i, Entry(true, true, false, phys));
            && TablesOk(r, dir)
            && (forall p :: 0 <= p < WINDOW_PAGE ==>
                  Walk(r, dir, p) == if p / 1024 != i then Walk(ram, dir, p)
                                     else if Slot(ram, phys, p % 1024).present
                                     then Some(Translation(Slot(ram, phys, p % 1024).frame, Slot(ram, phys, p % 1024).rw, false))
                                     else None)
  {
    var e := Entry(true, true, false, phys);
    var r := MapInWindow(ram, dir, WINDOW_PAGE + i, e);
    assert forall k :: IsTable(ram, dir, k) && k != i ==> Slot(ram, dir, k).frame != phys;
    WindowMappingKeepsTablesIff(ram, dir, WINDOW_PAGE + i, e);
    assert IsTable(ram, dir, RECURSIVE_SLOT) && phys != dir;
    forall k | 0 <= k < 1024 && k != i
      ensures Slot(r, dir, k) == Slot(ram, dir, k)
    {
    }
    forall p | 0 <= p < WINDOW_PAGE
      ensures p / 1024 == i ==> Slot(r, phys, p % 1024) == Slot(ram, phys, p % 1024)
      ensures p / 1024 != i ==> Walk(r, dir, p) == Walk(ram, dir, p)
    {
      if p / 1024 != i && Slot(ram, dir, p / 1024).present {
        assert IsTable(ram, dir, p / 1024) && Slot(ram, dir, p / 1024).frame != dir;
      }
    }
  }

  /** A not-present fault in the window is one at the alias of an empty directory slot: the handler maps a fresh
      frame there. Everything below the window translates as before exactly when no word the frame happens to
      hold is a present entry. */
  lemma WindowFaultKeepsWalksIff(ram: Ram, dir: int, i: int, phys: int)
    requires TablesOk(ram, dir) && 0 <= i < 1024 && Walk(ram, dir, WINDOW_PAGE + i).None?
    requires 0 <= phys < |ram| && !IsTableFrame(ram, dir, phys)
    ensures i != RECURSIVE_SLOT && !Slot(ram, dir, i).present
    ensures var r := MapInWindow(ram, dir, WINDOW_PAGE + i, Entry(true, true, false, phys));
            && TablesOk(r, dir)
            && ((forall p :: 0 <= p < WINDOW_PAGE ==> Walk(r, dir, p) == Walk(ram, dir, p)) <==> HoldsNoEntry(ram, phys))
  {
    RecursiveWalk(ram, dir, i);
    WindowMappingWalks(ram, dir, i, phys);
    var r := MapInWindow(ram, dir, WINDOW_PAGE + i, Entry(true, true, false, phys));
    if forall p :: 0 <= p < WINDOW_PAGE ==> Walk(r, dir, p) == Walk(ram, dir, p) {
      forall k | 0 <= k < 1024
        ensures !Slot(ram, phys, k).present
      {
        var p := 1024 * i + k;
        assert p / 1024 == i && p % 1024 == k;
        assert Walk(r, dir, p) == Walk(ram, dir, p);
      }
    }
  }

  /** The tables after a mapping at the alias of an empty slot are those before and the new one; all are in order. */
  lemma WindowTables(ram: Ram, dir: int, i: int, phys: int)
    requires TablesOk(ram, dir) && 0 <= i < RECURSIVE_SLOT && !Slot(ram, dir, i).present
    requires 0 <= phys < |ram| && !IsTableFrame(ram, dir, phys)
    ensures var r := MapInWindow(ram, dir, WINDOW_PAGE + i, Entry(true, true, false, phys));
            && TablesOk(r, dir)
            && (forall f :: IsTableFrame(r, dir, f) <==> IsTableFrame(ram, dir, f) || f == phys)
  {
    var r := MapInWindow(ram, dir, WINDOW_PAGE + i, Entry(true, true, false, phys));
    NewTable(ram, dir, i, phys, false, ram[phys]);
    assert IsTable(ram, dir, RECURSIVE_SLOT) && phys != dir;
    assert r == WithTable(ram, dir, i, phys, false, ram[phys]);
    assert IsTable(r, dir, i);
    assert forall k :: 0 <= k < 1024 && k != i ==> (IsTable(r, dir, k) <==> IsTable(ram, dir, k));
    forall f
      ensures IsTableFrame(r, dir, f) <==> IsTableFrame(ram, dir, f) || f == phys
    {
      if IsTableFrame(ram, dir, f) {
        var k :| IsTable(ram, dir, k) && Slot(ram, dir, k).frame == f;
        assert IsTable(r, dir, k);
      }
      if IsTableFrame(r, dir, f) {
        var k :| IsTable(r, dir, k) && Slot(r, dir, k).frame == f;
        assert k != i ==> IsTable(ram, dir, k);
      }
    }
  }
}
