/** The kernel heap of src/lib/memory.c as a list of blocks, apart from how headers are stored:
    what malloc and free do to the list, and what every run of them keeps. */
module HeapBlocks {

  import opened Machine

  const HEADER_SIZE: int := 16
  /** The recursive page-table window starts here. */
  const HEAP_LIMIT: int := RECURSIVE_TABLES
  const INITIAL_PAGES: int := 16

  /** One block: its header's address, its payload size, its free flag. */
  datatype Block = Block(addr: int, size: int, free: bool) {
    /** The address behind the payload. */
    function End(): int {
      addr + HEADER_SIZE + size
    }

    function Payload(): int {
      addr + HEADER_SIZE
    }
  }

  /** ALIGN_UP on 32-bit words, wrapping as the C expression does. */
  function AlignUp(x: int, a: int): int
    requires a > 0
  {
    Wrap32(x + a - 1) / a * a
  }

  /** The bytes heap_grow maps for a request of size bytes. */
  function GrowBytes(size: int): int {
    AlignUp(Wrap32(size + HEADER_SIZE), PAGE_SIZE)
  }

  /** The greatest request whose rounding does not wrap. */
  const MAX_REQUEST: int := WORD_LIMIT - PAGE_SIZE - HEADER_SIZE

  /** Growth covers an 8-aligned request and its header exactly when the request does not exceed
      MAX_REQUEST: beyond it the rounding wraps and the new block would lie in unmapped memory. */
  lemma GrowthSufficesIff(size: int)
    requires 0 < size < WORD_LIMIT && size % 8 == 0
    ensures GrowBytes(size) >= size + HEADER_SIZE <==> size <= MAX_REQUEST
    ensures size <= MAX_REQUEST ==> GrowBytes(size) < size + HEADER_SIZE + PAGE_SIZE && GrowBytes(size) % PAGE_SIZE == 0
  {
  }

  /** Rounding a request up to 8 bytes gives at least the request exactly when it does not wrap. */
  lemma AlignmentSufficesIff(size: int)
    requires 0 < size < WORD_LIMIT
    ensures AlignUp(size, 8) >= size <==> size <= WORD_LIMIT - 8
    ensures size <= WORD_LIMIT - 8 ==> AlignUp(size, 8) < size + 8 && AlignUp(size, 8) % 8 == 0
  {
  }

  // ---- The list's invariants -----------------------------------------------------------------

  ghost predicate BlockOk(b: Block) {
    && HEAP_START <= b.addr && b.addr % 8 == 0
    && 8 <= b.size && b.size % 8 == 0
  }

  /** Aligned blocks in address order, none overlapping the next, all below end. */
  ghost predicate Ordered(bs: seq<Block>, end: int) {
    && |bs| > 0 && bs[0].addr == HEAP_START
    && (forall i :: 0 <= i < |bs| ==> BlockOk(bs[i]) && bs[i].End() <= end)
    && (forall i, j :: 0 <= i < j < |bs| ==> bs[i].End() <= bs[j].addr)
  }

  predicate Adjacent(a: Block, b: Block) {
    a.End() == b.addr
  }

  /** Blocks i and i + 1 are physically adjacent and both free. */
  predicate Mergeable(bs: seq<Block>, i: int) {
    0 <= i < |bs| - 1 && bs[i].free && bs[i + 1].free && Adjacent(bs[i], bs[i + 1])
  }

  ghost predicate Coalesced(bs: seq<Block>) {
    forall i :: !Mergeable(bs, i)
  }

  /** Headers and payloads together. */
  function Bytes(bs: seq<Block>): int {
    if bs == [] then 0 else Bytes(bs[..|bs| - 1]) + HEADER_SIZE + bs[|bs| - 1].size
  }

  /** The heap: its blocks, heap_end, and the bytes mapped by growths that then failed. */
  datatype HeapState = HeapState(blocks: seq<Block>, end: int, lost: int)

  ghost predicate Good(h: HeapState) {
    && Ordered(h.blocks, h.end)
    && Coalesced(h.blocks)
    && h.end % PAGE_SIZE == 0 && h.end <= HEAP_LIMIT
    && 0 <= h.lost
    && Bytes(h.blocks) + h.lost == h.end - HEAP_START
  }

  // ---- The operations ------------------------------------------------------------------------

  /** memory_init, all pages mapped. */
  function InitialHeap(): HeapState {
    var size := INITIAL_PAGES * PAGE_SIZE;
    HeapState([Block(HEAP_START, size - HEADER_SIZE, true)], HEAP_START + size, 0)
  }

  /** The block a search meets first: the lowest free block of at least size bytes, from i on. */
  function FirstFitFrom(bs: seq<Block>, size: int, i: nat): (r: nat)
    requires i <= |bs|
    ensures i <= r <= |bs|
    ensures r < |bs| ==> bs[r].free && bs[r].size >= size
    ensures forall k :: i <= k < r ==> !(bs[k].free && bs[k].size >= size)
    decreases |bs| - i
  {
    if i == |bs| || (bs[i].free && bs[i].size >= size) then i else FirstFitFrom(bs, size, i + 1)
  }

  function FirstFit(bs: seq<Block>, size: int): (r: nat)
    ensures r <= |bs|
    ensures r < |bs| ==> bs[r].free && bs[r].size >= size
    ensures forall k :: 0 <= k < r ==> !(bs[k].free && bs[k].size >= size)
  {
    FirstFitFrom(bs, size, 0)
  }

  /** Blocks i up to j replaced by mid. */
  function Replace(bs: seq<Block>, i: nat, j: nat, mid: seq<Block>): seq<Block>
    requires i <= j <= |bs|
  {
    bs[..i] + mid + bs[j..]
  }

  /** What split_block and the cleared free flag make of a block: the rest becomes a block of its own
      when it holds a header and 16 bytes. */
  function Cut(b: Block, size: int): seq<Block> {
    if b.size - size < HEADER_SIZE + 16 then [b.(free := false)]
    else [Block(b.addr, size, false), Block(b.addr + HEADER_SIZE + size, b.size - size - HEADER_SIZE, true)]
  }

  /** Splits block i and marks it used. */
  function Take(bs: seq<Block>, i: nat, size: int): seq<Block>
    requires i < |bs|
  {
    Replace(bs, i, i + 1, Cut(bs[i], size))
  }

  /** Blocks i and i + 1 as one. */
  function Merge(bs: seq<Block>, i: nat): seq<Block>
    requires i + 1 < |bs|
  {
    Replace(bs, i, i + 2, [bs[i].(size := bs[i].size + HEADER_SIZE + bs[i + 1].size)])
  }

  function MergeIf(bs: seq<Block>, i: int): seq<Block> {
    if Mergeable(bs, i) then Merge(bs, i) else bs
  }

  /** Frees block i, then merges it with the next block, then with the previous one. */
  function Release(bs: seq<Block>, i: nat): seq<Block>
    requires i < |bs|
  {
    MergeIf(MergeIf(Freed(bs, i), i), i - 1)
  }

  /** heap_grow: a new free block of bytes bytes, header included, behind the others. */
  function Grown(h: HeapState, bytes: int): seq<Block> {
    h.blocks + [Block(h.end, bytes - HEADER_SIZE, true)]
  }

  datatype MallocResult = MallocResult(heap: HeapState, ptr: int)

  /** malloc of a non-zero 8-aligned size, when granted pages can be mapped should the heap grow. */
  function MallocAligned(h: HeapState, size: int, granted: nat): MallocResult {
    var i := FirstFit(h.blocks, size);
    if i < |h.blocks| then
      MallocResult(h.(blocks := Take(h.blocks, i, size)), h.blocks[i].Payload())
    else
      var bytes := GrowBytes(size);
      if granted < bytes / PAGE_SIZE then
        MallocResult(HeapState(h.blocks, h.end + granted * PAGE_SIZE, h.lost + granted * PAGE_SIZE), 0)
      else
        MallocResult(HeapState(Take(Grown(h, bytes), |h.blocks|, size), h.end + bytes, h.lost), h.end + HEADER_SIZE)
  }

  /** malloc. */
  function Malloc(h: HeapState, size: int, granted: nat): MallocResult {
    if size == 0 then MallocResult(h, 0) else MallocAligned(h, AlignUp(size, 8), granted)
  }

  /** The index of the block with payload ptr, |bs| if there is none. */
  function IndexFrom(bs: seq<Block>, ptr: int, i: nat): (r: nat)
    requires i <= |bs|
    ensures i <= r <= |bs|
    ensures r < |bs| ==> bs[r].Payload() == ptr
    ensures forall k :: i <= k < r ==> bs[k].Payload() != ptr
    decreases |bs| - i
  {
    if i == |bs| || bs[i].Payload() == ptr then i else IndexFrom(bs, ptr, i + 1)
  }

  /** ptr is what malloc returned for a block not freed since. */
  predicate IsLive(bs: seq<Block>, ptr: int) {
    var i := IndexFrom(bs, ptr, 0);
    i < |bs| && !bs[i].free
  }

  /** free of a null or live pointer. */
  function Free(h: HeapState, ptr: int): HeapState
    requires ptr == 0 || IsLive(h.blocks, ptr)
  {
    if ptr == 0 then h else h.(blocks := Release(h.blocks, IndexFrom(h.blocks, ptr, 0)))
  }

  /** The blocks in use. */
  ghost function Live(bs: seq<Block>): set<Block> {
    set b | b in bs && !b.free
  }

  // ---- Replacing a stretch of blocks by another of the same extent --------------------------

  /** mid covers exactly the extent of the blocks i up to j. */
  ghost predicate SameExtent(bs: seq<Block>, i: nat, j: nat, mid: seq<Block>) {
    && i < j <= |bs| && |mid| > 0
    && mid[0].addr == bs[i].addr && mid[|mid| - 1].End() == bs[j - 1].End()
    && (forall k :: 0 <= k < |mid| ==> BlockOk(mid[k]) && mid[k].End() <= bs[j - 1].End())
    && (forall k, l :: 0 <= k < l < |mid| ==> mid[k].End() <= mid[l].addr)
  }

  lemma EndBehindStart(bs: seq<Block>, end: int)
    requires Ordered(bs, end)
    ensures HEAP_START < end && |bs| > 0 && bs[0].addr == HEAP_START
    ensures forall i :: 0 <= i < |bs| ==> BlockOk(bs[i])
  {
    assert bs[0].End() <= end;
  }

  lemma GrownOrdered(bs: seq<Block>, end: int, b: Block)
    requires Ordered(bs, end) && BlockOk(b) && b.addr == end
    ensures Ordered(bs + [b], b.End())
  {
    EndBehindStart(bs, end);
  }

  lemma ReplaceAt(bs: seq<Block>, i: nat, j: nat, mid: seq<Block>)
    requires i <= j <= |bs|
    ensures var r := Replace(bs, i, j, mid);
            && |r| == |bs| - (j - i) + |mid|
            && (forall k :: 0 <= k < i ==> r[k] == bs[k])
            && (forall k :: i <= k < i + |mid| ==> r[k] == mid[k - i])
            && (forall k :: i + |mid| <= k < |r| ==> r[k] == bs[k - |mid| + (j - i)])
  {
  }

  lemma ReplaceOrdered(bs: seq<Block>, end: int, i: nat, j: nat, mid: seq<Block>)
    requires Ordered(bs, end) && SameExtent(bs, i, j, mid)
    ensures Ordered(Replace(bs, i, j, mid), end)
  {
    var r := Replace(bs, i, j, mid);
    ReplaceAt(bs, i, j, mid);
    forall k | i <= k < i + |mid|
      ensures bs[i].addr <= r[k].addr && r[k].End() <= bs[j - 1].End()
    {
      assert k > i ==> mid[0].End() <= mid[k - i].addr;
    }
    forall k, l | 0 <= k < l < |r|
      ensures r[k].End() <= r[l].addr
    {
      if k < i && l >= i {
        assert bs[k].End() <= bs[i].addr;
        if l >= i + |mid| {
          assert bs[k].End() <= bs[l - |mid| + (j - i)].addr;
        }
      } else if k >= i && l >= i + |mid| && k < i + |mid| {
        assert bs[j - 1].End() <= bs[l - |mid| + (j - i)].addr;
      }
    }
  }

  lemma {:induction false} BytesAppend(a: seq<Block>, b: seq<Block>)
    ensures Bytes(a + b) == Bytes(a) + Bytes(b)
  {
    if b == [] {
      assert a + b == a;
    } else {
      BytesAppend(a, b[..|b| - 1]);
      assert (a + b)[..|a + b| - 1] == a + b[..|b| - 1];
    }
  }

  lemma ReplaceBytes(bs: seq<Block>, i: nat, j: nat, mid: seq<Block>)
    requires i <= j <= |bs|
    ensures Bytes(Replace(bs, i, j, mid)) == Bytes(bs) - Bytes(bs[i..j]) + Bytes(mid)
  {
    BytesAppend(bs[..i] + mid, bs[j..]);
    BytesAppend(bs[..i], mid);
    BytesAppend(bs[..i] + bs[i..j], bs[j..]);
    BytesAppend(bs[..i], bs[i..j]);
    assert bs == bs[..i] + bs[i..j] + bs[j..];
  }

  lemma BytesOne(b: Block)
    ensures Bytes([b]) == HEADER_SIZE + b.size
  {
    assert [b][..0] == [];
  }

  lemma BytesTwo(a: Block, b: Block)
    ensures Bytes([a, b]) == 2 * HEADER_SIZE + a.size + b.size
  {
    assert [a, b] == [a] + [b];
    BytesAppend([a], [b]);
    BytesOne(a);
    BytesOne(b);
  }

  /** Block b belongs to the list before or after the replaced stretch. */
  lemma ReplaceMembers(bs: seq<Block>, i: nat, j: nat, mid: seq<Block>, b: Block)
    requires i <= j <= |bs|
    ensures b in Replace(bs, i, j, mid) <==> b in bs[..i] || b in mid || b in bs[j..]
    ensures b in bs <==> b in bs[..i] || b in bs[i..j] || b in bs[j..]
  {
    assert bs == bs[..i] + bs[i..j] + bs[j..];
  }

  /** The blocks in use change by those of the stretch. */
  lemma ReplaceLive(bs: seq<Block>, end: int, i: nat, j: nat, mid: seq<Block>)
    requires Ordered(bs, end) && i <= j <= |bs|
    ensures Live(Replace(bs, i, j, mid)) == Live(bs) - Live(bs[i..j]) + Live(mid)
  {
    forall b
      ensures b in Live(Replace(bs, i, j, mid)) <==> b in Live(bs) - Live(bs[i..j]) + Live(mid)
    {
      ReplaceMembers(bs, i, j, mid, b);
      assert b in bs[i..j] ==> b !in bs[..i] && b !in bs[j..] by {
        if b in bs[i..j] {
          var k :| i <= k < j && bs[k] == b;
          assert forall l :: 0 <= l < |bs| && l != k ==> bs[l].addr != b.addr;
        }
      }
    }
  }

  // ---- Each operation keeps the invariants ----------------------------------------------------

  lemma CutBytes(b: Block, size: int)
    ensures Bytes(Cut(b, size)) == Bytes([b])
  {
    BytesOne(b);
    if b.size - size < HEADER_SIZE + 16 {
      BytesOne(b.(free := false));
    } else {
      BytesTwo(Block(b.addr, size, false), Block(b.addr + HEADER_SIZE + size, b.size - size - HEADER_SIZE, true));
    }
  }

  lemma CutExtent(bs: seq<Block>, end: int, i: nat, size: int)
    requires Ordered(bs, end) && i < |bs|
    requires 8 <= size <= bs[i].size && size % 8 == 0
    ensures SameExtent(bs, i, i + 1, Cut(bs[i], size))
    ensures Bytes(Cut(bs[i], size)) == Bytes(bs[i..i + 1])
  {
    hide Bytes;
    CutBytes(bs[i], size);
    assert bs[i..i + 1] == [bs[i]];
    assert BlockOk(bs[i]);
    Aligned8Sum(bs[i].size, size);
    Aligned8Sum(bs[i].size - size, HEADER_SIZE);
    Aligned8Sum(bs[i].addr, HEADER_SIZE);
    Aligned8Sum(bs[i].addr + HEADER_SIZE, size);
  }

  /** Taking block i keeps order and space. */
  lemma TakeKeepsLayout(bs: seq<Block>, end: int, i: nat, size: int)
    requires Ordered(bs, end) && i < |bs|
    requires 8 <= size <= bs[i].size && size % 8 == 0
    ensures Ordered(Take(bs, i, size), end)
    ensures Bytes(Take(bs, i, size)) == Bytes(bs)
  {
    CutExtent(bs, end, i, size);
    ReplaceOrdered(bs, end, i, i + 1, Cut(bs[i], size));
    ReplaceBytes(bs, i, i + 1, Cut(bs[i], size));
  }

  lemma TakeIsMarked(bs: seq<Block>, i: nat, size: int)
    requires i < |bs|
    ensures var t := Take(bs, i, size);
            i < |t| && t[i] == Cut(bs[i], size)[0] && t[i].addr == bs[i].addr && !t[i].free
  {
    ReplaceAt(bs, i, i + 1, Cut(bs[i], size));
  }

  /** Taking block i leaves no mergeable pair, if there was none but in front of i. */
  lemma TakeKeepsCoalesced(bs: seq<Block>, end: int, i: nat, size: int)
    requires Ordered(bs, end) && i < |bs| && bs[i].free
    requires 8 <= size <= bs[i].size && size % 8 == 0
    requires forall k :: Mergeable(bs, k) ==> k == i - 1
    ensures Coalesced(Take(bs, i, size))
  {
    var t := Take(bs, i, size);
    var c := Cut(bs[i], size);
    ReplaceAt(bs, i, i + 1, c);
    forall k
      ensures !Mergeable(t, k)
    {
      if k < i {
        assert Mergeable(t, k) ==> Mergeable(bs, k);
      } else if k >= i + |c| - 1 {
        assert Mergeable(t, k) ==> Mergeable(bs, k - |c| + 1);
      }
    }
  }

  /** Taking a free block adds exactly one block to those in use: at its address, at least as large
      as asked for and at most 24 bytes larger. */
  lemma TakeAddsOne(bs: seq<Block>, end: int, i: nat, size: int)
    requires Ordered(bs, end) && i < |bs| && bs[i].free
    requires 8 <= size <= bs[i].size && size % 8 == 0
    ensures var b := Cut(bs[i], size)[0];
            && b.addr == bs[i].addr && !b.free
            && size <= b.size <= size + 24
            && b !in Live(bs)
            && Live(Take(bs, i, size)) == Live(bs) + {b}
  {
    var c := Cut(bs[i], size);
    ReplaceLive(bs, end, i, i + 1, c);
    assert Live(bs[i..i + 1]) == {};
    assert Live(c) == {c[0]};
    assert forall k :: 0 <= k < |bs| && k != i ==> bs[k].addr != bs[i].addr;
  }

  lemma MergeExtent(bs: seq<Block>, end: int, i: nat)
    requires Ordered(bs, end) && Mergeable(bs, i)
    ensures SameExtent(bs, i, i + 2, [bs[i].(size := bs[i].size + HEADER_SIZE + bs[i + 1].size)])
  {
    assert BlockOk(bs[i]) && BlockOk(bs[i + 1]);
    Aligned8Sum(bs[i].size, HEADER_SIZE);
    Aligned8Sum(bs[i].size + HEADER_SIZE, bs[i + 1].size);
  }

  lemma MergeKeepsLayout(bs: seq<Block>, end: int, i: nat)
    requires Ordered(bs, end) && Mergeable(bs, i)
    ensures Ordered(Merge(bs, i), end)
    ensures Bytes(Merge(bs, i)) == Bytes(bs)
    ensures Live(Merge(bs, i)) == Live(bs)
  {
    hide Ordered, Bytes;
    var m := bs[i].(size := bs[i].size + HEADER_SIZE + bs[i + 1].size);
    MergeExtent(bs, end, i);
    ReplaceOrdered(bs, end, i, i + 2, [m]);
    ReplaceBytes(bs, i, i + 2, [m]);
    ReplaceLive(bs, end, i, i + 2, [m]);
    assert bs[i..i + 2] == [bs[i], bs[i + 1]];
    BytesOne(m);
    BytesTwo(bs[i], bs[i + 1]);
    assert Live([m]) == {} && Live([bs[i], bs[i + 1]]) == {};
  }

  function Freed(bs: seq<Block>, i: nat): seq<Block>
    requires i < |bs|
  {
    bs[i := bs[i].(free := true)]
  }

  lemma FreedKeepsLayout(bs: seq<Block>, end: int, i: nat)
    requires Ordered(bs, end) && i < |bs| && !bs[i].free
    ensures Ordered(Freed(bs, i), end)
    ensures Bytes(Freed(bs, i)) == Bytes(bs)
    ensures Live(Freed(bs, i)) == Live(bs) - {bs[i]}
  {
    hide Bytes, Ordered;
    var f := bs[i].(free := true);
    assert Freed(bs, i) == Replace(bs, i, i + 1, [f]);
    FreedExtent(bs, end, i);
    ReplaceOrdered(bs, end, i, i + 1, [f]);
    ReplaceBytes(bs, i, i + 1, [f]);
    ReplaceLive(bs, end, i, i + 1, [f]);
    assert bs[i..i + 1] == [bs[i]];
    BytesOne(bs[i]);
    BytesOne(f);
    assert Live([f]) == {} && Live([bs[i]]) == {bs[i]};
  }

  lemma FreedExtent(bs: seq<Block>, end: int, i: nat)
    requires Ordered(bs, end) && i < |bs|
    ensures SameExtent(bs, i, i + 1, [bs[i].(free := true)])
  {
    assert BlockOk(bs[i]);
  }

  lemma MergeIfKeepsLayout(bs: seq<Block>, end: int, i: int)
    requires Ordered(bs, end)
    ensures Ordered(MergeIf(bs, i), end)
    ensures Bytes(MergeIf(bs, i)) == Bytes(bs)
    ensures Live(MergeIf(bs, i)) == Live(bs)
  {
    if Mergeable(bs, i) {
      MergeKeepsLayout(bs, end, i);
    }
  }

  /** free keeps order and space and takes exactly the freed block from those in use. */
  lemma ReleaseKeepsLayout(bs: seq<Block>, end: int, i: nat)
    requires Ordered(bs, end) && i < |bs| && !bs[i].free
    ensures Ordered(Release(bs, i), end)
    ensures Bytes(Release(bs, i)) == Bytes(bs)
    ensures Live(Release(bs, i)) == Live(bs) - {bs[i]}
  {
    FreedKeepsLayout(bs, end, i);
    MergeIfKeepsLayout(Freed(bs, i), end, i);
    MergeIfKeepsLayout(MergeIf(Freed(bs, i), i), end, i - 1);
  }

  /** Merging at i removes the pair i and creates none. */
  lemma MergePairs(bs: seq<Block>, i: nat, k: int)
    requires Mergeable(bs, i) && Mergeable(Merge(bs, i), k)
    ensures if k < i then Mergeable(bs, k) else Mergeable(bs, k + 1)
  {
    ReplaceAt(bs, i, i + 2, [bs[i].(size := bs[i].size + HEADER_SIZE + bs[i + 1].size)]);
  }

  /** Coalescing is maximal. */
  lemma ReleaseKeepsCoalesced(bs: seq<Block>, i: nat)
    requires i < |bs| && Coalesced(bs)
    ensures Coalesced(Release(bs, i))
  {
    var s0 := Freed(bs, i);
    var s1 := MergeIf(s0, i);
    var s2 := MergeIf(s1, i - 1);
    assert forall k :: Mergeable(s0, k) && k != i && k != i - 1 ==> Mergeable(bs, k);
    forall k | Mergeable(s1, k)
      ensures k == i - 1
    {
      if Mergeable(s0, i) {
        MergePairs(s0, i, k);
      }
    }
    forall k
      ensures !Mergeable(s2, k)
    {
      if Mergeable(s1, i - 1) && Mergeable(s2, k) {
        MergePairs(s1, i - 1, k);
      }
    }
  }
}
