/** The physical frame allocator of src/mm/pmm.zig: a bitmap, one bit a frame, 1 meaning used. */
module Frames {

  import opened Machine

  // ---- A bitmap read as a set of frames -------------------------------------------------

  /** The value of `1 << bit` as a byte. */
  function Mask(bit: int): bv8
    requires 0 <= bit < 8
  {
    if bit == 0 then 1 else if bit == 1 then 2 else if bit == 2 then 4 else if bit == 3 then 8
    else if bit == 4 then 16 else if bit == 5 then 32 else if bit == 6 then 64 else 128
  }

  predicate BitSet(byte: bv8, bit: int)
    requires 0 <= bit < 8
  {
    byte & Mask(bit) != 0
  }

  /** Bit 0 is the lowest binary digit of the byte. */
  lemma BitIsBinaryDigit(byte: bv8, bit: int)
    requires 0 <= bit < 8
    ensures BitSet(byte, bit) <==> (byte >> bit) & 1 == 1
  {
    if bit < 4 {
      assert bit == 0 || bit == 1 || bit == 2 || bit == 3;
    } else {
      assert bit == 4 || bit == 5 || bit == 6 || bit == 7;
    }
  }

  predicate FrameUsed(bits: seq<bv8>, frame: int)
    requires 0 <= frame < 8 * |bits|
  {
    BitSet(bits[frame / 8], frame % 8)
  }

  function UsedFrames(bits: seq<bv8>): set<int> {
    set f | 0 <= f < 8 * |bits| && FrameUsed(bits, f)
  }

  predicate Between(frame: int, first: int, last: int) {
    first <= frame < last
  }

  /** The frames [first, last). */
  function FrameRange(first: int, last: int): set<int> {
    set f | first <= f < last && Between(f, first, last)
  }

  /** The frames a call marks for the byte region [base, base + size): both ends are rounded down. */
  function Region(base: int, size: int): set<int> {
    FrameRange(base / PAGE_SIZE, (base + size) / PAGE_SIZE)
  }

  lemma FrameRangeStep(first: int, last: int)
    requires first <= last
    ensures FrameRange(first, last + 1) == FrameRange(first, last) + {last}
  {
  }

  /** Neither the 32-bit sum nor a bitmap index traps. */
  predicate RegionInBounds(base: int, size: int, bytes: int) {
    && base + size < WORD_LIMIT
    && (base / PAGE_SIZE < (base + size) / PAGE_SIZE ==> (base + size) / PAGE_SIZE <= 8 * bytes)
  }

  lemma BitAlgebra(byte: bv8, a: int, b: int)
    requires 0 <= a < 8 && 0 <= b < 8
    ensures BitSet(byte | Mask(a), b) <==> a == b || BitSet(byte, b)
    ensures BitSet(byte & !Mask(a), b) <==> a != b && BitSet(byte, b)
  {
    if a == b {
      assert (byte | Mask(a)) & Mask(a) == Mask(a);
      assert (byte & !Mask(a)) & Mask(a) == 0;
    } else {
      assert Mask(a) & Mask(b) == 0;
      assert (byte | Mask(a)) & Mask(b) == byte & Mask(b);
      assert (byte & !Mask(a)) & Mask(b) == byte & Mask(b);
    }
  }

  /** A byte whose eight bits are all set is 0xFF, so a byte other than 0xFF holds a free frame. */
  lemma FullByte(byte: bv8)
    ensures byte == 0xFF <==> forall bit :: 0 <= bit < 8 ==> BitSet(byte, bit)
  {
    if forall bit :: 0 <= bit < 8 ==> BitSet(byte, bit) {
      assert BitSet(byte, 0) && BitSet(byte, 1) && BitSet(byte, 2) && BitSet(byte, 3);
      assert BitSet(byte, 4) && BitSet(byte, 5) && BitSet(byte, 6) && BitSet(byte, 7);
    }
  }

  lemma SetFrame(bits: seq<bv8>, byteIdx: int, bitIdx: int, byte: bv8)
    requires 0 <= byteIdx < |bits| && 0 <= bitIdx < 8
    requires byte == bits[byteIdx] | Mask(bitIdx)
    ensures UsedFrames(bits[byteIdx := byte]) == UsedFrames(bits) + {8 * byteIdx + bitIdx}
  {
    hide BitSet, Mask;
    forall f | 0 <= f < 8 * |bits|
      ensures FrameUsed(bits[byteIdx := byte], f) <==> f == 8 * byteIdx + bitIdx || FrameUsed(bits, f)
    {
      if f / 8 == byteIdx {
        BitAlgebra(bits[f / 8], bitIdx, f % 8);
      }
    }
  }

  lemma ClearFrame(bits: seq<bv8>, byteIdx: int, bitIdx: int, byte: bv8)
    requires 0 <= byteIdx < |bits| && 0 <= bitIdx < 8
    requires byte == bits[byteIdx] & !Mask(bitIdx)
    ensures UsedFrames(bits[byteIdx := byte]) == UsedFrames(bits) - {8 * byteIdx + bitIdx}
  {
    hide BitSet, Mask;
    forall f | 0 <= f < 8 * |bits|
      ensures FrameUsed(bits[byteIdx := byte], f) <==> f != 8 * byteIdx + bitIdx && FrameUsed(bits, f)
    {
      if f / 8 == byteIdx {
        BitAlgebra(bits[f / 8], bitIdx, f % 8);
      }
    }
  }

  // ---- The set allocator the bitmap stands for ------------------------------------------

  /** frame is the lowest frame below capacity that is not in used. */
  predicate IsLowestFree(used: set<int>, capacity: int, frame: int) {
    && 0 <= frame < capacity
    && frame !in used
    && forall f :: 0 <= f < frame ==> f in used
  }

  predicate Exhausted(used: set<int>, capacity: int) {
    forall f :: 0 <= f < capacity ==> f in used
  }

  function LowestFreeFrom(used: set<int>, capacity: int, from: int): (r: Option<int>)
    requires 0 <= from
    requires forall f :: 0 <= f < from ==> f in used
    ensures r.Some? ==> IsLowestFree(used, capacity, r.value)
    ensures r.None? ==> Exhausted(used, capacity)
    decreases capacity - from
  {
    if from >= capacity then None
    else if from !in used then Some(from)
    else LowestFreeFrom(used, capacity, from + 1)
  }

  function LowestFree(used: set<int>, capacity: int): (r: Option<int>)
    ensures r.Some? <==> !Exhausted(used, capacity)
    ensures r.Some? ==> IsLowestFree(used, capacity, r.value)
  {
    LowestFreeFrom(used, capacity, 0)
  }

  /** What pmm_alloc_frame gives, an unusable 0 included. */
  function FrameOrZero(used: set<int>, capacity: int): int {
    match LowestFree(used, capacity)
    case Some(f) => f
    case None => 0
  }

  lemma LowestFreeIs(used: set<int>, capacity: int, frame: int)
    requires IsLowestFree(used, capacity, frame)
    ensures LowestFree(used, capacity) == Some(frame)
  {
    assert !Exhausted(used, capacity);
  }

  /** How many frames below capacity are free. */
  ghost function CountFree(used: set<int>, capacity: nat): nat {
    if capacity == 0 then 0
    else CountFree(used, capacity - 1) + if capacity - 1 in used then 0 else 1
  }

  lemma {:induction false} CountAfterTake(used: set<int>, capacity: nat, frame: int)
    requires frame !in used && 0 <= frame
    ensures CountFree(used + {frame}, capacity) == CountFree(used, capacity) - if frame < capacity then 1 else 0
  {
    if capacity > 0 {
      CountAfterTake(used, capacity - 1, frame);
    }
  }

  lemma {:induction false} CountIsZero(used: set<int>, capacity: nat)
    ensures CountFree(used, capacity) == 0 <==> Exhausted(used, capacity)
  {
    if capacity > 0 {
      CountIsZero(used, capacity - 1);
    }
  }

  lemma FreeFramesAvailable(used: set<int>, capacity: nat)
    ensures match LowestFree(used, capacity)
            case None => CountFree(used, capacity) == 0
            case Some(f) => CountFree(used, capacity) > 0 && CountFree(used + {f}, capacity) == CountFree(used, capacity) - 1
  {
    CountIsZero(used, capacity);
    match LowestFree(used, capacity)
    case None =>
    case Some(f) => CountAfterTake(used, capacity, f);
  }

  // ---- The bitmap itself ----------------------------------------------------------------

  class FrameAllocator {
    const bitmap: array<bv8>

    /** The bitmap describes RAM below 4 GB, so no frame address leaves 32 bits. */
    ghost predicate Valid() {
      bitmap.Length <= 0x1FFFF
    }

    ghost function Capacity(): nat {
      8 * bitmap.Length
    }

    ghost function Used(): set<int>
      reads bitmap
    {
      UsedFrames(bitmap[..])
    }

    /** How many frames are left. */
    ghost function Free(): nat
      reads bitmap
    {
      CountFree(Used(), Capacity())
    }

    /** pmm_init: one bit for each page of RAM, a trailing partial byte dropped, all used. */
    constructor (maxRamAddr: int)
      requires 0 <= maxRamAddr < WORD_LIMIT
      ensures Valid() && fresh(bitmap)
      ensures Capacity() == 8 * (maxRamAddr / 0x8000)
      ensures Used() == FrameRange(0, Capacity())
    {
      var totalPages := maxRamAddr / PAGE_SIZE;
      var bitmapSize := totalPages / 8;
      bitmap := new bv8[bitmapSize](_ => 0xFF);
      new;
      FullByte(0xFF);
      assert forall f :: 0 <= f < Capacity() ==> FrameUsed(bitmap[..], f);
    }

    method ClearBit(byteIdx: int, bitIdx: int)
      requires 0 <= byteIdx < bitmap.Length && 0 <= bitIdx < 8
      modifies bitmap
      ensures Used() == old(Used()) - {8 * byteIdx + bitIdx}
    {
      var byte := bitmap[byteIdx] & !Mask(bitIdx);
      ClearFrame(bitmap[..], byteIdx, bitIdx, byte);
      ghost var before := bitmap[..];
      bitmap[byteIdx] := byte;
      assert bitmap[..] == before[byteIdx := byte];
    }

    method SetBit(byteIdx: int, bitIdx: int)
      requires 0 <= byteIdx < bitmap.Length && 0 <= bitIdx < 8
      modifies bitmap
      ensures Used() == old(Used()) + {8 * byteIdx + bitIdx}
    {
      var byte := bitmap[byteIdx] | Mask(bitIdx);
      SetFrame(bitmap[..], byteIdx, bitIdx, byte);
      ghost var before := bitmap[..];
      bitmap[byteIdx] := byte;
      assert bitmap[..] == before[byteIdx := byte];
    }

    /** pmm_mark_region_free. The result is false where the source's safety checks halt the kernel. */
    method MarkRegionFree(base: int, size: int) returns (ok: bool)
      requires Valid()
      requires 0 <= base < WORD_LIMIT && 0 <= size < WORD_LIMIT
      modifies bitmap
      ensures ok == RegionInBounds(base, size, bitmap.Length)
      ensures ok ==> Used() == old(Used()) - Region(base, size)
    {
      if base + size >= WORD_LIMIT {
        return false;
      }
      var startPage := base / PAGE_SIZE;
      var endPage := (base + size) / PAGE_SIZE;
      var i := startPage;
      while i < endPage
        invariant startPage <= i <= endPage
        invariant startPage < i ==> i <= Capacity()
        invariant Used() == old(Used()) - FrameRange(startPage, i)
      {
        if i / 8 >= bitmap.Length {
          return false;
        }
        ClearBit(i / 8, i % 8);
        FrameRangeStep(startPage, i);
        i := i + 1;
      }
      return true;
    }

    /** pmm_mark_region_used, with the same halting conditions. */
    method MarkRegionUsed(base: int, size: int) returns (ok: bool)
      requires Valid()
      requires 0 <= base < WORD_LIMIT && 0 <= size < WORD_LIMIT
      modifies bitmap
      ensures ok == RegionInBounds(base, size, bitmap.Length)
      ensures ok ==> Used() == old(Used()) + Region(base, size)
    {
      if base + size >= WORD_LIMIT {
        return false;
      }
      var startPage := base / PAGE_SIZE;
      var endPage := (base + size) / PAGE_SIZE;
      var i := startPage;
      while i < endPage
        invariant startPage <= i <= endPage
        invariant startPage < i ==> i <= Capacity()
        invariant Used() == old(Used()) + FrameRange(startPage, i)
      {
        if i / 8 >= bitmap.Length {
          return false;
        }
        SetBit(i / 8, i % 8);
        FrameRangeStep(startPage, i);
        i := i + 1;
      }
      return true;
    }

    /** pmm_alloc_frame's scan of a byte. The 3-bit counter is never incremented past 7. */
    method LowestZero(byte: bv8) returns (bitIdx: int)
      requires byte != 0xFF
      ensures 0 <= bitIdx < 8 && !BitSet(byte, bitIdx)
      ensures forall b :: 0 <= b < bitIdx ==> BitSet(byte, b)
    {
      FullByte(byte);
      bitIdx := 0;
      while byte & Mask(bitIdx) != 0
        invariant 0 <= bitIdx < 8
        invariant forall b :: 0 <= b < bitIdx ==> BitSet(byte, b)
        decreases 8 - bitIdx
      {
        assert bitIdx < 7;
        bitIdx := bitIdx + 1;
      }
    }

    /** pmm_alloc_frame: the address of the lowest free frame, now used; 0 when there is none.
        The byte scan skips only full bytes. */
    method AllocFrame() returns (physAddr: int)
      requires Valid()
      modifies bitmap
      ensures 0 <= physAddr < WORD_LIMIT && physAddr % PAGE_SIZE == 0
      ensures match LowestFree(old(Used()), Capacity())
              case Some(f) => physAddr == f * PAGE_SIZE && Used() == old(Used()) + {f} && Free() == old(Free()) - 1
              case None => physAddr == 0 && Used() == old(Used()) && old(Free()) == 0
    {
      FreeFramesAvailable(Used(), Capacity());
      var byteIdx := 0;
      while byteIdx < bitmap.Length
        invariant 0 <= byteIdx <= bitmap.Length
        invariant bitmap[..] == old(bitmap[..])
        invariant forall f :: 0 <= f < 8 * byteIdx ==> f in UsedFrames(bitmap[..])
      {
        var byte := bitmap[byteIdx];
        FullByte(byte);
        if byte != 0xFF {
          var bitIdx := LowestZero(byte);
          var pageIdx := byteIdx * 8 + bitIdx;
          LowestBit(bitmap[..], byteIdx, bitIdx);
          assert Region(pageIdx * PAGE_SIZE, PAGE_SIZE) == {pageIdx};
          var ok := MarkRegionUsed(pageIdx * PAGE_SIZE, PAGE_SIZE);
          return pageIdx * PAGE_SIZE;
        }
        forall f | 0 <= f < 8 * (byteIdx + 1)
          ensures f in UsedFrames(bitmap[..])
        {
          if f >= 8 * byteIdx {
            assert f / 8 == byteIdx && BitSet(byte, f % 8);
          }
        }
        byteIdx := byteIdx + 1;
      }
      return 0;
    }

    /** pmm_free_frame, of the frame any address lies in. */
    method FreeFrame(physAddr: int) returns (ok: bool)
      requires Valid()
      requires 0 <= physAddr < WORD_LIMIT
      modifies bitmap
      ensures ok == RegionInBounds(physAddr, PAGE_SIZE, bitmap.Length)
      ensures ok ==> Used() == old(Used()) - {physAddr / PAGE_SIZE}
    {
      assert (physAddr + PAGE_SIZE) / PAGE_SIZE == physAddr / PAGE_SIZE + 1;
      assert Region(physAddr, PAGE_SIZE) == {physAddr / PAGE_SIZE};
      ok := MarkRegionFree(physAddr, PAGE_SIZE);
    }
  }

  lemma LowestBit(bits: seq<bv8>, byteIdx: int, bitIdx: int)
    requires 0 <= byteIdx < |bits| && 0 <= bitIdx < 8
    requires forall f :: 0 <= f < 8 * byteIdx ==> f in UsedFrames(bits)
    requires forall b :: 0 <= b < bitIdx ==> BitSet(bits[byteIdx], b)
    requires !BitSet(bits[byteIdx], bitIdx)
    ensures LowestFree(UsedFrames(bits), 8 * |bits|) == Some(8 * byteIdx + bitIdx)
  {
    var frame := 8 * byteIdx + bitIdx;
    assert frame / 8 == byteIdx && frame % 8 == bitIdx;
    assert frame !in UsedFrames(bits);
    forall f | 0 <= f < frame
      ensures f in UsedFrames(bits)
    {
      if f >= 8 * byteIdx {
        assert f / 8 == byteIdx && f % 8 == f - 8 * byteIdx;
        assert BitSet(bits[byteIdx], f - 8 * byteIdx);
      }
    }
  }
}
