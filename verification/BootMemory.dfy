/** init_mem of src/kernel/kernel.c: from the boot loader's memory map to the frame bitmap. */
module BootMemory {

  import opened Machine
  import opened Frames
  import opened FrameRuns

  const AVAILABLE: int := 1
  const KERNEL_BASE: int := 0x100000
  const STACK_BASE: int := 0x80000
  const STACK_SIZE: int := 0x10000

  /** A memory-map entry: the low words init_mem reads (the high words are ignored there too). */
  datatype MapEntry = MapEntry(base: int, length: int, kind: int)

  predicate EntriesAreWords(mmap: seq<MapEntry>) {
    forall i :: 0 <= i < |mmap| ==> 0 <= mmap[i].base < WORD_LIMIT && 0 <= mmap[i].length < WORD_LIMIT
  }

  /** The end of an entry as the C code computes it, modulo 2^32. */
  function ZoneEnd(e: MapEntry): int {
    Wrap32(e.base + e.length)
  }

  /** The greatest zone end, 0 for an empty map. */
  predicate IsMaxRam(mmap: seq<MapEntry>, max: int) {
    && 0 <= max < WORD_LIMIT
    && (forall i :: 0 <= i < |mmap| ==> ZoneEnd(mmap[i]) <= max)
    && (max == 0 || exists i :: 0 <= i < |mmap| && ZoneEnd(mmap[i]) == max)
  }

  /** A zone that ends at 4 GB adds nothing to the top of RAM: its end wraps to 0. */
  lemma ZoneAtTheTop(mmap: seq<MapEntry>, e: MapEntry, max: int)
    requires e.base + e.length == 0x1_0000_0000
    ensures IsMaxRam(mmap + [e], max) <==> IsMaxRam(mmap, max)
  {
    var more := mmap + [e];
    assert ZoneEnd(e) == 0 && more[|mmap|] == e;
    assert forall i :: 0 <= i < |mmap| ==> more[i] == mmap[i];
    if max != 0 && IsMaxRam(mmap, max) {
      var i :| 0 <= i < |mmap| && ZoneEnd(mmap[i]) == max;
      assert ZoneEnd(more[i]) == max;
    }
  }

  /** The map of a machine with 512 MB: the reserved zone below 4 GB does not count. */
  lemma FirmwareZoneIgnored()
    ensures var mmap := [MapEntry(0, 0x9FC00, 1), MapEntry(0x100000, 0x1FEE0000, 1), MapEntry(0xFFFC0000, 0x40000, 2)];
            forall max :: IsMaxRam(mmap, max) <==> max == 0x1FFE0000
  {
    var ram := [MapEntry(0, 0x9FC00, 1), MapEntry(0x100000, 0x1FEE0000, 1)];
    var top := MapEntry(0xFFFC0000, 0x40000, 2);
    assert ram + [top] == [MapEntry(0, 0x9FC00, 1), MapEntry(0x100000, 0x1FEE0000, 1), top];
    assert ZoneEnd(ram[0]) == 0x9FC00 && ZoneEnd(ram[1]) == 0x1FFE0000;
    forall max
      ensures IsMaxRam(ram + [top], max) <==> max == 0x1FFE0000
    {
      ZoneAtTheTop(ram, top, max);
    }
  }

  /** The low words of a zone's 64-bit base and length, all that init_mem reads. */
  function LowWords(base: int, length: int, kind: int): MapEntry {
    MapEntry(Wrap32(base), Wrap32(length), kind)
  }

  /** A zone with at least one whole page is marked as the memory map says exactly when neither of its high
      words is set: otherwise other frames are freed than the zone's. */
  lemma ZoneReadIff(base: int, length: int, kind: int)
    requires 0 <= base && 0 <= length && base / PAGE_SIZE < (base + length) / PAGE_SIZE
    ensures var e := LowWords(base, length, kind);
            Region(e.base, e.length) == FrameRange(base / PAGE_SIZE, (base + length) / PAGE_SIZE)
            <==> base < WORD_LIMIT && length < WORD_LIMIT
  {
    var e := LowWords(base, length, kind);
    var zone := FrameRange(base / PAGE_SIZE, (base + length) / PAGE_SIZE);
    if base >= WORD_LIMIT || length >= WORD_LIMIT {
      var last := (base + length) / PAGE_SIZE - 1;
      assert last in zone;
      assert e.base + e.length <= base + length - WORD_LIMIT;
      assert last !in Region(e.base, e.length);
    }
  }

  /** The frames freed for the available entries. */
  function Available(mmap: seq<MapEntry>): set<int> {
    if mmap == [] then {}
    else
      var e := mmap[|mmap| - 1];
      Available(mmap[..|mmap| - 1]) + (if e.kind == AVAILABLE then Region(e.base, e.length) else {})
  }

  /** kernel image and bitmap, frame 0, boot stack. */
  function Reservations(kernelEnd: int, bitmapSize: int): set<int> {
    Region(KERNEL_BASE, kernelEnd - KERNEL_BASE + bitmapSize) + Region(0, PAGE_SIZE) + Region(STACK_BASE, STACK_SIZE)
  }

  /** Each marking call stays in the bitmap. */
  predicate BootCompletes(mmap: seq<MapEntry>, max: int, kernelEnd: int) {
    var bytes := max / 0x8000;
    && (forall i :: 0 <= i < |mmap| && mmap[i].kind == AVAILABLE ==> RegionInBounds(mmap[i].base, mmap[i].length, bytes))
    && RegionInBounds(KERNEL_BASE, kernelEnd - KERNEL_BASE + bytes, bytes)
    && RegionInBounds(0, PAGE_SIZE, bytes)
    && RegionInBounds(STACK_BASE, STACK_SIZE, bytes)
  }

  /** The used frames init_mem leaves. */
  function UsedAfterBoot(mmap: seq<MapEntry>, max: int, kernelEnd: int): set<int> {
    FrameRange(0, 8 * (max / 0x8000)) - Available(mmap) + Reservations(kernelEnd, max / 0x8000)
  }

  /** init_mem's first walk over the map. */
  method TopOfRam(mmap: seq<MapEntry>) returns (max: int)
    requires EntriesAreWords(mmap)
    ensures IsMaxRam(mmap, max) && 0 <= max < WORD_LIMIT
    ensures forall i :: 0 <= i < |mmap| ==> (mmap[i].base + mmap[i].length) % 0x1_0000_0000 <= max
    ensures max == 0 || exists i :: 0 <= i < |mmap| && (mmap[i].base + mmap[i].length) % 0x1_0000_0000 == max
  {
    max := 0;
    var i := 0;
    while i < |mmap|
      invariant 0 <= i <= |mmap|
      invariant 0 <= max < WORD_LIMIT
      invariant forall k :: 0 <= k < i ==> ZoneEnd(mmap[k]) <= max
      invariant max == 0 || exists k :: 0 <= k < i && ZoneEnd(mmap[k]) == max
    {
      var zoneEnd := ZoneEnd(mmap[i]);
      if zoneEnd > max {
        max := zoneEnd;
      }
      i := i + 1;
    }
    if max != 0 {
      var k :| 0 <= k < |mmap| && ZoneEnd(mmap[k]) == max;
      assert (mmap[k].base + mmap[k].length) % 0x1_0000_0000 == max;
    }
  }

  /** init_mem with the memory-map flag set. ok is false where a bounds or overflow check halts it. */
  method InitMem(mmap: seq<MapEntry>, kernelEnd: int) returns (pmm: FrameAllocator, max: int, ok: bool)
    requires EntriesAreWords(mmap)
    requires KERNEL_BASE <= kernelEnd < WORD_LIMIT
    ensures pmm.Valid() && fresh(pmm) && fresh(pmm.bitmap)
    ensures IsMaxRam(mmap, max)
    ensures forall i :: 0 <= i < |mmap| ==> (mmap[i].base + mmap[i].length) % 0x1_0000_0000 <= max
    ensures max == 0 || exists i :: 0 <= i < |mmap| && (mmap[i].base + mmap[i].length) % 0x1_0000_0000 == max
    ensures ok == BootCompletes(mmap, max, kernelEnd)
    ensures ok ==> pmm.Used() == UsedAfterBoot(mmap, max, kernelEnd) && pmm.Capacity() == 8 * (max / 0x8000)
  {
    max := TopOfRam(mmap);
    hide IsMaxRam;
    pmm := new FrameAllocator(max);
    ok := false;
    var i := 0;
    while i < |mmap|
      invariant 0 <= i <= |mmap|
      invariant fresh(pmm.bitmap)
      invariant pmm.Used() == FrameRange(0, pmm.Capacity()) - Available(mmap[..i])
      invariant forall k :: 0 <= k < i && mmap[k].kind == AVAILABLE ==>
                  RegionInBounds(mmap[k].base, mmap[k].length, max / 0x8000)
    {
      assert mmap[..i + 1][..i] == mmap[..i];
      if mmap[i].kind == AVAILABLE {
        var marked := pmm.MarkRegionFree(mmap[i].base, mmap[i].length);
        if !marked {
          return;
        }
      }
      i := i + 1;
    }
    assert mmap[..i] == mmap;

    var bitmapSize := max / PAGE_SIZE / 8;
    ok := pmm.MarkRegionUsed(KERNEL_BASE, kernelEnd - KERNEL_BASE + bitmapSize);
    if !ok {
      return;
    }
    ok := pmm.MarkRegionUsed(0, PAGE_SIZE);
    if !ok {
      return;
    }
    ok := pmm.MarkRegionUsed(STACK_BASE, STACK_SIZE);
  }

  // ---- What boot leaves reserved ---------------------------------------------------------

  /** The frames no later run may hand out. */
  function ReservedFrames(kernelEnd: int, bitmapSize: int): set<int> {
    {0} + FrameRange(0x80, 0x90) + FrameRange(0x100, (kernelEnd + bitmapSize) / PAGE_SIZE)
  }

  lemma ReservationsAreTheReservedFrames(kernelEnd: int, bitmapSize: int)
    requires KERNEL_BASE <= kernelEnd && 0 <= bitmapSize
    ensures Reservations(kernelEnd, bitmapSize) == ReservedFrames(kernelEnd, bitmapSize)
  {
    assert Region(0, PAGE_SIZE) == {0};
  }

  lemma ReservedAfterBoot(mmap: seq<MapEntry>, max: int, kernelEnd: int)
    requires KERNEL_BASE <= kernelEnd && 0 <= max
    ensures ReservedFrames(kernelEnd, max / 0x8000) <= UsedAfterBoot(mmap, max, kernelEnd)
    ensures 0 in UsedAfterBoot(mmap, max, kernelEnd)
  {
    ReservationsAreTheReservedFrames(kernelEnd, max / 0x8000);
  }

  /** Every frame outside the available regions is used, and of the available ones exactly the reserved. */
  lemma FreeAfterBoot(mmap: seq<MapEntry>, max: int, kernelEnd: int, frame: int)
    requires KERNEL_BASE <= kernelEnd && 0 <= max
    requires 0 <= frame < 8 * (max / 0x8000)
    ensures frame !in UsedAfterBoot(mmap, max, kernelEnd)
            <==> frame in Available(mmap) && frame !in ReservedFrames(kernelEnd, max / 0x8000)
  {
    ReservationsAreTheReservedFrames(kernelEnd, max / 0x8000);
  }

  /** After boot, no run that does not give back a reserved frame hands one out: not frame 0 (so
      the answer 0 always means exhaustion), not the boot stack, and none of the kernel and its bitmap but the
      last, partly filled one (KernelHandedOutIff is about that). */
  lemma ReservedAcrossRuns(mmap: seq<MapEntry>, max: int, kernelEnd: int, ops: seq<FrameOp>)
    requires KERNEL_BASE <= kernelEnd && 0 <= max
    requires forall i :: 0 <= i < |ops| && ops[i].Give? ==> ops[i].frame !in ReservedFrames(kernelEnd, max / 0x8000)
    ensures var r := Run(UsedAfterBoot(mmap, max, kernelEnd), 8 * (max / 0x8000), ops);
            && ReservedFrames(kernelEnd, max / 0x8000) <= r.used
            && forall f :: f in r.taken ==> f > 0 && f !in ReservedFrames(kernelEnd, max / 0x8000)
  {
    var reserved := ReservedFrames(kernelEnd, max / 0x8000);
    ReservationsAreTheReservedFrames(kernelEnd, max / 0x8000);
    ReservedNeverHandedOut(UsedAfterBoot(mmap, max, kernelEnd), 8 * (max / 0x8000), ops, reserved);
    assert 0 in reserved;
  }

  /** The rounded regions of the available entries and nothing else. */
  lemma {:induction false} AvailableIsTheUnion(mmap: seq<MapEntry>, frame: int)
    ensures frame in Available(mmap)
            <==> exists i :: 0 <= i < |mmap| && mmap[i].kind == AVAILABLE && frame in Region(mmap[i].base, mmap[i].length)
  {
    if mmap != [] {
      var n := |mmap| - 1;
      AvailableIsTheUnion(mmap[..n], frame);
      if frame in Available(mmap[..n]) {
        var i :| 0 <= i < n && mmap[..n][i].kind == AVAILABLE && frame in Region(mmap[..n][i].base, mmap[..n][i].length);
        assert mmap[i] == mmap[..n][i];
      }
      if i :| 0 <= i < |mmap| && mmap[i].kind == AVAILABLE && frame in Region(mmap[i].base, mmap[i].length) {
        if i < n {
          assert mmap[..n][i] == mmap[i];
        }
      }
    }
  }

  /** A map whose top of RAM is a multiple of 32 KiB, whose available zones end below 4 GB, and
      which has room for stack, kernel image and bitmap, boots without a trap. */
  lemma AlignedMapBoots(mmap: seq<MapEntry>, max: int, kernelEnd: int)
    requires EntriesAreWords(mmap) && IsMaxRam(mmap, max) && KERNEL_BASE <= kernelEnd
    requires max % 0x8000 == 0
    requires forall i :: 0 <= i < |mmap| && mmap[i].kind == AVAILABLE ==> mmap[i].base + mmap[i].length < WORD_LIMIT
    requires kernelEnd + max / 0x8000 <= max
    ensures BootCompletes(mmap, max, kernelEnd)
  {
    assert max / PAGE_SIZE == 8 * (max / 0x8000);
    forall i | 0 <= i < |mmap| && mmap[i].kind == AVAILABLE
      ensures RegionInBounds(mmap[i].base, mmap[i].length, max / 0x8000)
    {
      assert ZoneEnd(mmap[i]) == mmap[i].base + mmap[i].length;
    }
  }

  /** The available zone that ends at the top of RAM halts the boot exactly when the number of
      pages of RAM is not a multiple of eight: the bitmap then has no byte for the last pages. */
  lemma TopZoneNeedsWholeBytes(mmap: seq<MapEntry>, max: int, i: int)
    requires EntriesAreWords(mmap) && IsMaxRam(mmap, max)
    requires 0 <= i < |mmap| && mmap[i].base + mmap[i].length == max
    requires mmap[i].base / PAGE_SIZE < max / PAGE_SIZE
    ensures RegionInBounds(mmap[i].base, mmap[i].length, max / 0x8000) <==> max / PAGE_SIZE % 8 == 0
  {
    assert max / 0x8000 == max / PAGE_SIZE / 8;
  }

  /** 16 MiB of RAM halt no boot, one page more does: 4097 pages are not a multiple of eight. */
  lemma OddPageHaltsBoot()
    ensures var even, odd := [MapEntry(0x100000, 0xF00000, AVAILABLE)], [MapEntry(0x100000, 0xF01000, AVAILABLE)];
            && IsMaxRam(even, 0x1000000) && BootCompletes(even, 0x1000000, 0x200000)
            && IsMaxRam(odd, 0x1001000) && !BootCompletes(odd, 0x1001000, 0x200000)
  {
    var even := [MapEntry(0x100000, 0xF00000, AVAILABLE)];
    assert ZoneEnd(even[0]) == 0x1000000;
    var odd := [MapEntry(0x100000, 0xF01000, AVAILABLE)];
    assert ZoneEnd(odd[0]) == 0x1001000;
    TopZoneNeedsWholeBytes(odd, 0x1001000, 0);
  }

  /** Frames holding at least one byte of the kernel image or of the bitmap behind it. */
  function KernelFrames(kernelEnd: int, bitmapSize: int): set<int> {
    FrameRange(0x100, (kernelEnd + bitmapSize + PAGE_SIZE - 1) / PAGE_SIZE)
  }

  /** Kernel image and bitmap end with a frame, or in one that was never available. */
  predicate BitmapKept(mmap: seq<MapEntry>, max: int, kernelEnd: int) {
    var end := kernelEnd + max / 0x8000;
    end % PAGE_SIZE == 0 || end / PAGE_SIZE !in Available(mmap)
  }

  /** Rounding the end of the reservation down leaves the last, partly filled, frame of the bitmap
      free. All frames of kernel and bitmap are used exactly when there is no such frame or it
      was never available. */
  lemma KernelFramesUsedIff(mmap: seq<MapEntry>, max: int, kernelEnd: int)
    requires KERNEL_BASE <= kernelEnd && 0 <= max
    requires kernelEnd + max / 0x8000 <= 8 * (max / 0x8000) * PAGE_SIZE
    ensures KernelFrames(kernelEnd, max / 0x8000) <= UsedAfterBoot(mmap, max, kernelEnd)
            <==> BitmapKept(mmap, max, kernelEnd)
  {
    var bytes := max / 0x8000;
    var end := kernelEnd + bytes;
    var last := end / PAGE_SIZE;
    var used := UsedAfterBoot(mmap, max, kernelEnd);
    assert 0x100 <= last;
    if end % PAGE_SIZE != 0 {
      assert (end + PAGE_SIZE - 1) / PAGE_SIZE == last + 1;
      assert last in KernelFrames(kernelEnd, bytes);
      FreeAfterBoot(mmap, max, kernelEnd, last);
    } else {
      assert (end + PAGE_SIZE - 1) / PAGE_SIZE == last;
    }
    forall f | f in KernelFrames(kernelEnd, bytes) && f != last
      ensures f in used
    {
      FreeAfterBoot(mmap, max, kernelEnd, f);
    }
  }

  /** A run of requests that hands out one of frames. */
  ghost predicate HandsOut(used: set<int>, capacity: int, ops: seq<FrameOp>, frames: set<int>) {
    && (forall i :: 0 <= i < |ops| ==> ops[i].Take?)
    && exists f :: f in Run(used, capacity, ops).taken && f in frames
  }

  /** Some run of requests from boot on hands out a frame of the kernel image or of its bitmap if and only if
      the reservation's rounded end leaves one free. */
  lemma KernelHandedOutIff(mmap: seq<MapEntry>, max: int, kernelEnd: int)
    requires KERNEL_BASE <= kernelEnd && 0 <= max
    requires kernelEnd + max / 0x8000 <= 8 * (max / 0x8000) * PAGE_SIZE
    ensures (exists ops :: HandsOut(UsedAfterBoot(mmap, max, kernelEnd), 8 * (max / 0x8000), ops,
                                    KernelFrames(kernelEnd, max / 0x8000)))
            <==> !BitmapKept(mmap, max, kernelEnd)
  {
    var used, capacity := UsedAfterBoot(mmap, max, kernelEnd), 8 * (max / 0x8000);
    var kernel := KernelFrames(kernelEnd, max / 0x8000);
    KernelFramesUsedIff(mmap, max, kernelEnd);
    hide UsedAfterBoot, BitmapKept;
    if kernel <= used {
      forall ops: seq<FrameOp>
        ensures !HandsOut(used, capacity, ops, kernel)
      {
        if forall i :: 0 <= i < |ops| ==> ops[i].Take? {
          ReservedNeverHandedOut(used, capacity, ops, kernel);
        }
      }
    } else {
      var frame :| frame in kernel && frame !in used;
      KernelInRam(kernelEnd, max / 0x8000, frame);
      var ops := EveryFreeFrameIsReached(used, capacity, frame);
      assert HandsOut(used, capacity, ops, kernel);
    }
  }

  lemma KernelInRam(kernelEnd: int, bitmapSize: int, frame: int)
    requires kernelEnd + bitmapSize <= 8 * bitmapSize * PAGE_SIZE && frame in KernelFrames(kernelEnd, bitmapSize)
    ensures 0 <= frame < 8 * bitmapSize
  {
  }

  /** 16 MiB of RAM from 1 MB up and a kernel ending at 0x200000: frame 0x200 holds the
      512-byte bitmap, is left free, and is the first frame to be handed out. mmu_init would clear it. */
  lemma BitmapFrameLeftFree()
    ensures var mmap := [MapEntry(0x100000, 0xF00000, 1)];
            && IsMaxRam(mmap, 0x1000000)
            && BootCompletes(mmap, 0x1000000, 0x200000)
            && 0x200 in KernelFrames(0x200000, 0x1000000 / 0x8000)
            && !BitmapKept(mmap, 0x1000000, 0x200000)
            && LowestFree(UsedAfterBoot(mmap, 0x1000000, 0x200000), 8 * (0x1000000 / 0x8000)) == Some(0x200)
  {
    var mmap := [MapEntry(0x100000, 0xF00000, 1)];
    assert ZoneEnd(mmap[0]) == 0x1000000;
    AvailableIsTheUnion(mmap, 0x200);
    FreeAfterBoot(mmap, 0x1000000, 0x200000, 0x200);
    forall f | 0 <= f < 0x200
      ensures f in UsedAfterBoot(mmap, 0x1000000, 0x200000)
    {
      AvailableIsTheUnion(mmap, f);
      FreeAfterBoot(mmap, 0x1000000, 0x200000, f);
    }
    LowestFreeIs(UsedAfterBoot(mmap, 0x1000000, 0x200000), 8 * (0x1000000 / 0x8000), 0x200);
  }
}
