/** How the heap's block list is stored: a 16-byte header of four words in front of each payload, the
    list doubly linked through the headers, all in the memory the heap hands out. */
module HeapMemory {

  import opened Machine
  import opened HeapBlocks

  /** Heap memory: words by virtual address. */
  type Memory = map<int, int>

  const SIZE: int := 0
  const FREE: int := 4
  const NEXT: int := 8
  const PREV: int := 12

  function Flag(free: bool): int {
    if free then 1 else 0
  }

  /** The header of b, linked to next and prev. */
  ghost predicate HeaderIs(mem: Memory, b: Block, next: int, prev: int) {
    && b.addr + SIZE in mem && mem[b.addr + SIZE] == b.size
    && b.addr + FREE in mem && mem[b.addr + FREE] == Flag(b.free)
    && b.addr + NEXT in mem && mem[b.addr + NEXT] == next
    && b.addr + PREV in mem && mem[b.addr + PREV] == prev
  }

  /** The address of block i, NULL outside the list. */
  function AddrOf(bs: seq<Block>, i: int): int {
    if 0 <= i < |bs| then bs[i].addr else 0
  }

  ghost predicate HeaderAt(mem: Memory, bs: seq<Block>, i: int) {
    0 <= i < |bs| && HeaderIs(mem, bs[i], AddrOf(bs, i + 1), AddrOf(bs, i - 1))
  }

  /** Memory holds the list: every header with the addresses of its neighbours, so that next and
      prev are each other's inverses. */
  ghost predicate Represents(mem: Memory, bs: seq<Block>) {
    forall i {:trigger HeaderAt(mem, bs, i)} :: 0 <= i < |bs| ==> HeaderAt(mem, bs, i)
  }

  /** Every word below end is mapped. */
  ghost predicate Mapped(mem: Memory, end: int) {
    forall a :: HEAP_START <= a < end && a % 4 == 0 ==> a in mem
  }

  /** The payload of b is the same in both memories. */
  ghost predicate PayloadKept(mem: Memory, mem': Memory, b: Block) {
    forall a :: b.Payload() <= a < b.End() && a in mem ==> a in mem' && mem'[a] == mem[a]
  }

  /** No byte of a block in use changes. */
  ghost predicate LiveKept(mem: Memory, mem': Memory, bs: seq<Block>) {
    forall i :: 0 <= i < |bs| && !bs[i].free ==> PayloadKept(mem, mem', bs[i])
  }

  /** Two blocks without a common address. */
  predicate Apart(b: Block, c: Block) {
    8 <= b.size && 8 <= c.size && (b.End() <= c.addr || c.End() <= b.addr)
  }

  lemma BlocksApart(bs: seq<Block>, end: int, i: int, j: int)
    requires Ordered(bs, end) && 0 <= i < |bs| && 0 <= j < |bs| && i != j
    ensures Apart(bs[i], bs[j]) && bs[i].addr > 0 && bs[j].addr > 0
  {
    assert BlockOk(bs[i]) && BlockOk(bs[j]);
  }

  /** Where a header has its four words, for a used block at the start of the heap and a free one behind it. */
  lemma TwoHeaders(mem: Memory)
    requires Represents(mem, [Block(0xD0000000, 104, false), Block(0xD0000078, 65400, true)])
    ensures 0xD0000000 in mem && 0xD0000004 in mem && 0xD0000008 in mem && 0xD000000C in mem
    ensures mem[0xD0000000] == 104 && mem[0xD0000004] == 0 && mem[0xD0000008] == 0xD0000078 && mem[0xD000000C] == 0
    ensures 0xD0000078 in mem && 0xD000007C in mem && 0xD0000080 in mem && 0xD0000084 in mem
    ensures mem[0xD0000078] == 65400 && mem[0xD000007C] == 1 && mem[0xD0000080] == 0 && mem[0xD0000084] == 0xD0000000
  {
    var bs := [Block(0xD0000000, 104, false), Block(0xD0000078, 65400, true)];
    assert HeaderAt(mem, bs, 0) && HeaderAt(mem, bs, 1);
  }

  // ---- Single header words -----------------------------------------------------------------

  lemma FlagElsewhere(mem: Memory, b: Block, free: bool, c: Block, next: int, prev: int)
    requires HeaderIs(mem, c, next, prev) && Apart(b, c)
    ensures var mem' := mem[b.addr + FREE := Flag(free)];
            HeaderIs(mem', c, next, prev) && PayloadKept(mem, mem', c)
  {
  }

  lemma FlagAt(mem: Memory, bs: seq<Block>, end: int, i: nat, free: bool, k: nat)
    requires Ordered(bs, end) && Represents(mem, bs) && i < |bs| && k < |bs|
    ensures var mem', bs' := mem[bs[i].addr + FREE := Flag(free)], bs[i := bs[i].(free := free)];
            && HeaderAt(mem', bs', k)
            && PayloadKept(mem, mem', bs[k])
  {
    var bs' := bs[i := bs[i].(free := free)];
    assert HeaderAt(mem, bs, k);
    assert AddrOf(bs', k + 1) == AddrOf(bs, k + 1) && AddrOf(bs', k - 1) == AddrOf(bs, k - 1);
    if k != i {
      BlocksApart(bs, end, i, k);
      FlagElsewhere(mem, bs[i], free, bs[k], AddrOf(bs, k + 1), AddrOf(bs, k - 1));
    }
  }

  /** Writing a free flag. */
  lemma FlagWritten(mem: Memory, bs: seq<Block>, end: int, i: nat, free: bool)
    requires Ordered(bs, end) && Represents(mem, bs) && i < |bs|
    ensures var mem' := mem[bs[i].addr + FREE := Flag(free)];
            && Represents(mem', bs[i := bs[i].(free := free)])
            && LiveKept(mem, mem', bs)
  {
    forall k | 0 <= k < |bs| {
      FlagAt(mem, bs, end, i, free, k);
    }
  }

  // ---- Splitting ---------------------------------------------------------------------------

  /** The rest split_block cuts off behind the first size bytes of b. */
  function Rest(b: Block, size: int): Block {
    Block(b.addr + HEADER_SIZE + size, b.size - size - HEADER_SIZE, true)
  }

  function NewHeader(mem: Memory, b: Block, next: int, prev: int): Memory {
    mem[b.addr + SIZE := b.size][b.addr + FREE := Flag(b.free)][b.addr + NEXT := next][b.addr + PREV := prev]
  }

  /** The back link of the block at address a, unless a is NULL. */
  function BackLink(mem: Memory, a: int, prev: int): Memory {
    if a != 0 then mem[a + PREV := prev] else mem
  }

  /** The writes of split_block on a block b followed by the one at next. */
  function SplitWrites(mem: Memory, b: Block, size: int, next: int): Memory {
    var n := Rest(b, size);
    BackLink(NewHeader(mem, n, next, b.addr), next, n.addr)[b.addr + NEXT := n.addr][b.addr + SIZE := size]
  }

  /** What split_block leaves of a block c other than b; d is the block behind b. */
  lemma SplitElsewhere(mem: Memory, b: Block, size: int, next: int, c: Block, cNext: int, cPrev: int)
    requires HeaderIs(mem, c, cNext, cPrev) && Apart(b, c)
    requires 8 <= size && b.size - size >= HEADER_SIZE + 16
    requires next == 0 || next == c.addr || next >= c.End() || next + HEADER_SIZE + 8 <= c.addr
    requires c.addr > 0
    ensures var mem' := SplitWrites(mem, b, size, next);
            && HeaderIs(mem', c, cNext, if next == c.addr then Rest(b, size).addr else cPrev)
            && PayloadKept(mem, mem', c)
  {
  }

  lemma SplitHere(mem: Memory, b: Block, size: int, next: int, prev: int)
    requires HeaderIs(mem, b, next, prev)
    requires 8 <= size && b.size - size >= HEADER_SIZE + 16
    requires next == 0 || next >= b.End()
    ensures var mem' := SplitWrites(mem, b, size, next);
            && HeaderIs(mem', b.(size := size), Rest(b, size).addr, prev)
            && HeaderIs(mem', Rest(b, size), next, b.addr)
  {
  }

  /** Where a header that keeps its place stands in the list after the split. */
  lemma SplitShift(mem: Memory, bs: seq<Block>, i: nat, size: int, k: nat)
    requires i < |bs| && k < |bs| && k != i
    requires HeaderIs(mem, bs[k], AddrOf(bs, k + 1), if k == i + 1 then Rest(bs[i], size).addr else AddrOf(bs, k - 1))
    ensures HeaderAt(mem, Replace(bs, i, i + 1, [bs[i].(size := size), Rest(bs[i], size)]), if k < i then k else k + 1)
  {
    SplitLinks(bs, i, size, if k < i then k else k + 1);
  }

  lemma SplitCut(mem: Memory, bs: seq<Block>, i: nat, size: int)
    requires i < |bs|
    requires HeaderIs(mem, bs[i].(size := size), Rest(bs[i], size).addr, AddrOf(bs, i - 1))
    requires HeaderIs(mem, Rest(bs[i], size), AddrOf(bs, i + 1), bs[i].addr)
    ensures var bs' := Replace(bs, i, i + 1, [bs[i].(size := size), Rest(bs[i], size)]);
            HeaderAt(mem, bs', i) && HeaderAt(mem, bs', i + 1)
  {
    SplitLinks(bs, i, size, i);
    SplitLinks(bs, i, size, i + 1);
  }

  lemma NextBehind(bs: seq<Block>, end: int, i: nat)
    requires Ordered(bs, end) && i < |bs|
    ensures AddrOf(bs, i + 1) == 0 || AddrOf(bs, i + 1) >= bs[i].End()
    ensures AddrOf(bs, i + 2) == 0 || AddrOf(bs, i + 2) >= bs[i].End()
    ensures 8 <= bs[i].size
  {
    assert BlockOk(bs[i]);
  }

  lemma SplitBoth(mem: Memory, bs: seq<Block>, end: int, i: nat, size: int)
    requires Ordered(bs, end) && Represents(mem, bs) && i < |bs|
    requires 8 <= size && bs[i].size - size >= HEADER_SIZE + 16
    ensures var mem' := SplitWrites(mem, bs[i], size, AddrOf(bs, i + 1));
            var bs' := Replace(bs, i, i + 1, [bs[i].(size := size), Rest(bs[i], size)]);
            HeaderAt(mem', bs', i) && HeaderAt(mem', bs', i + 1)
  {
    hide Ordered, SplitWrites, HeaderIs, AddrOf;
    assert HeaderAt(mem, bs, i);
    NextBehind(bs, end, i);
    SplitHere(mem, bs[i], size, AddrOf(bs, i + 1), AddrOf(bs, i - 1));
    SplitCut(SplitWrites(mem, bs[i], size, AddrOf(bs, i + 1)), bs, i, size);
  }

  lemma SplitAt(mem: Memory, bs: seq<Block>, end: int, i: nat, size: int, k: nat)
    requires Ordered(bs, end) && Represents(mem, bs) && i < |bs| && k <= |bs|
    requires 8 <= size && bs[i].size - size >= HEADER_SIZE + 16
    ensures HeaderAt(SplitWrites(mem, bs[i], size, AddrOf(bs, i + 1)),
                     Replace(bs, i, i + 1, [bs[i].(size := size), Rest(bs[i], size)]), k)
  {
    hide Ordered, Represents, SplitWrites, HeaderIs, HeaderAt, AddrOf;
    var mem' := SplitWrites(mem, bs[i], size, AddrOf(bs, i + 1));
    if k == i || k == i + 1 {
      SplitBoth(mem, bs, end, i, size);
    } else {
      var j := if k < i then k else k - 1;
      SplitOther(mem, bs, end, i, size, j);
      SplitShift(mem', bs, i, size, j);
    }
  }

  /** split_block, when the rest is large enough. */
  lemma SplitWritten(mem: Memory, bs: seq<Block>, end: int, i: nat, size: int)
    requires Ordered(bs, end) && Represents(mem, bs) && i < |bs| && bs[i].free
    requires 8 <= size && bs[i].size - size >= HEADER_SIZE + 16
    ensures var mem' := SplitWrites(mem, bs[i], size, AddrOf(bs, i + 1));
            && Represents(mem', Replace(bs, i, i + 1, [bs[i].(size := size), Rest(bs[i], size)]))
            && LiveKept(mem, mem', bs)
  {
    var mem' := SplitWrites(mem, bs[i], size, AddrOf(bs, i + 1));
    var bs' := Replace(bs, i, i + 1, [bs[i].(size := size), Rest(bs[i], size)]);
    forall k | 0 <= k <= |bs|
      ensures HeaderAt(mem', bs', k)
    {
      SplitAt(mem, bs, end, i, size, k);
    }
    forall k | 0 <= k < |bs| && k != i {
      SplitOther(mem, bs, end, i, size, k);
    }
  }

  lemma SplitOther(mem: Memory, bs: seq<Block>, end: int, i: nat, size: int, k: nat)
    requires Ordered(bs, end) && Represents(mem, bs) && i < |bs| && k < |bs| && k != i
    requires 8 <= size && bs[i].size - size >= HEADER_SIZE + 16
    ensures var mem' := SplitWrites(mem, bs[i], size, AddrOf(bs, i + 1));
            && HeaderIs(mem', bs[k], AddrOf(bs, k + 1), if k == i + 1 then Rest(bs[i], size).addr else AddrOf(bs, k - 1))
            && PayloadKept(mem, mem', bs[k])
  {
    assert HeaderAt(mem, bs, k);
    BlocksApart(bs, end, i, k);
    if i + 1 < |bs| && k != i + 1 {
      BlocksApart(bs, end, i + 1, k);
    }
    SplitElsewhere(mem, bs[i], size, AddrOf(bs, i + 1), bs[k], AddrOf(bs, k + 1), AddrOf(bs, k - 1));
  }

  lemma SplitLinks(bs: seq<Block>, i: nat, size: int, k: nat)
    requires i < |bs| && k <= |bs|
    ensures var bs' := Replace(bs, i, i + 1, [bs[i].(size := size), Rest(bs[i], size)]);
            var n := Rest(bs[i], size);
            && |bs'| == |bs| + 1
            && bs'[k] == (if k < i then bs[k] else if k == i then bs[i].(size := size) else if k == i + 1 then n else bs[k - 1])
            && AddrOf(bs', k + 1) == (if k == i then n.addr else if k < i then AddrOf(bs, k + 1) else AddrOf(bs, k))
            && AddrOf(bs', k - 1) == (if k == i + 2 then n.addr else if k <= i + 1 then AddrOf(bs, k - 1) else AddrOf(bs, k - 2))
  {
    ReplaceAt(bs, i, i + 1, [bs[i].(size := size), Rest(bs[i], size)]);
  }

  // ---- Merging -----------------------------------------------------------------------------

  /** Blocks b and c as one. */
  function Joined(b: Block, c: Block): Block {
    b.(size := b.size + HEADER_SIZE + c.size)
  }

  /** The writes that merge c into b: the size, the next link, the back link. */
  function MergeWrites(mem: Memory, b: Block, c: Block, next: int): Memory {
    BackLink(mem[b.addr + SIZE := b.size + HEADER_SIZE + c.size][b.addr + NEXT := next], next, b.addr)
  }

  lemma MergeElsewhere(mem: Memory, b: Block, c: Block, next: int, d: Block, dNext: int, dPrev: int)
    requires HeaderIs(mem, d, dNext, dPrev) && Apart(b, d)
    requires next == 0 || next == d.addr || next >= d.End() || next + HEADER_SIZE + 8 <= d.addr
    requires d.addr > 0
    ensures var mem' := MergeWrites(mem, b, c, next);
            && HeaderIs(mem', d, dNext, if next == d.addr then b.addr else dPrev)
            && PayloadKept(mem, mem', d)
  {
  }

  lemma MergeHere(mem: Memory, b: Block, c: Block, next: int, bNext: int, bPrev: int)
    requires HeaderIs(mem, b, bNext, bPrev)
    requires next == 0 || next >= b.End()
    requires 8 <= b.size
    ensures HeaderIs(MergeWrites(mem, b, c, next), Joined(b, c), next, bPrev)
  {
  }

  lemma MergeShift(mem: Memory, bs: seq<Block>, i: nat, k: nat)
    requires i + 1 < |bs| && k < |bs| && k != i && k != i + 1
    requires HeaderIs(mem, bs[k], AddrOf(bs, k + 1), if k == i + 2 then bs[i].addr else AddrOf(bs, k - 1))
    ensures HeaderAt(mem, Merge(bs, i), if k < i then k else k - 1)
  {
    MergeLinks(bs, i, if k < i then k else k - 1);
  }

  lemma MergeAt(mem: Memory, bs: seq<Block>, end: int, i: nat, k: nat)
    requires Ordered(bs, end) && Represents(mem, bs) && i + 1 < |bs| && k < |bs| - 1
    ensures HeaderAt(MergeWrites(mem, bs[i], bs[i + 1], AddrOf(bs, i + 2)), Merge(bs, i), k)
  {
    var mem' := MergeWrites(mem, bs[i], bs[i + 1], AddrOf(bs, i + 2));
    hide Ordered, MergeWrites, HeaderIs, AddrOf;
    if k == i {
      assert HeaderAt(mem, bs, i);
      NextBehind(bs, end, i);
      MergeHere(mem, bs[i], bs[i + 1], AddrOf(bs, i + 2), AddrOf(bs, i + 1), AddrOf(bs, i - 1));
      MergeLinks(bs, i, i);
    } else {
      var j := if k < i then k else k + 1;
      MergeOther(mem, bs, end, i, j);
      MergeShift(mem', bs, i, j);
    }
  }

  /** free's merge of a block with the next one. */
  lemma MergeWritten(mem: Memory, bs: seq<Block>, end: int, i: nat)
    requires Ordered(bs, end) && Represents(mem, bs) && Mergeable(bs, i)
    ensures var mem' := MergeWrites(mem, bs[i], bs[i + 1], AddrOf(bs, i + 2));
            && Represents(mem', Merge(bs, i))
            && LiveKept(mem, mem', bs)
  {
    var mem', bs' := MergeWrites(mem, bs[i], bs[i + 1], AddrOf(bs, i + 2)), Merge(bs, i);
    forall k | 0 <= k < |bs| - 1
      ensures HeaderAt(mem', bs', k)
    {
      MergeAt(mem, bs, end, i, k);
    }
    forall k | 0 <= k < |bs| && k != i {
      MergeOther(mem, bs, end, i, k);
    }
  }

  lemma MergeOther(mem: Memory, bs: seq<Block>, end: int, i: nat, k: nat)
    requires Ordered(bs, end) && Represents(mem, bs) && i + 1 < |bs| && k < |bs| && k != i
    ensures var mem' := MergeWrites(mem, bs[i], bs[i + 1], AddrOf(bs, i + 2));
            && HeaderIs(mem', bs[k], AddrOf(bs, k + 1), if k == i + 2 then bs[i].addr else AddrOf(bs, k - 1))
            && PayloadKept(mem, mem', bs[k])
  {
    assert HeaderAt(mem, bs, k);
    BlocksApart(bs, end, i, k);
    if i + 2 < |bs| && k != i + 2 {
      BlocksApart(bs, end, i + 2, k);
    }
    MergeElsewhere(mem, bs[i], bs[i + 1], AddrOf(bs, i + 2), bs[k], AddrOf(bs, k + 1), AddrOf(bs, k - 1));
  }

  lemma MergeLinks(bs: seq<Block>, i: nat, k: nat)
    requires i + 1 < |bs| && k < |bs| - 1
    ensures var bs' := Merge(bs, i);
            && |bs'| == |bs| - 1
            && bs'[k] == (if k < i then bs[k] else if k == i then Joined(bs[i], bs[i + 1]) else bs[k + 1])
            && AddrOf(bs', k + 1) == (if k < i then AddrOf(bs, k + 1) else AddrOf(bs, k + 2))
            && AddrOf(bs', k - 1) == (if k <= i + 1 then AddrOf(bs, k - 1) else AddrOf(bs, k))
  {
    ReplaceAt(bs, i, i + 2, [Joined(bs[i], bs[i + 1])]);
  }

  // ---- Growing -----------------------------------------------------------------------------

  /** The writes of heap_grow: the new header, the old tail's next link, the back link. */
  function GrowWrites(mem: Memory, b: Block, tail: int): Memory {
    NewHeader(mem, b, 0, 0)[tail + NEXT := b.addr][b.addr + PREV := tail]
  }

  lemma GrowElsewhere(mem: Memory, b: Block, tail: Block, c: Block, next: int, prev: int)
    requires HeaderIs(mem, c, next, prev) && c.End() <= b.addr && 8 <= c.size
    requires c == tail || Apart(tail, c)
    ensures var mem' := GrowWrites(mem, b, tail.addr);
            && HeaderIs(mem', c, if c == tail then b.addr else next, prev)
            && PayloadKept(mem, mem', c)
  {
  }

  lemma GrowAt(mem: Memory, bs: seq<Block>, end: int, b: Block, k: nat)
    requires Ordered(bs, end) && Represents(mem, bs) && b.addr == end && k < |bs|
    ensures var mem' := GrowWrites(mem, b, bs[|bs| - 1].addr);
            HeaderAt(mem', bs + [b], k) && PayloadKept(mem, mem', bs[k])
  {
    var last := |bs| - 1;
    assert HeaderAt(mem, bs, k);
    assert BlockOk(bs[k]) && bs[k].End() <= end;
    if k != last {
      BlocksApart(bs, end, last, k);
    }
    GrowElsewhere(mem, b, bs[last], bs[k], AddrOf(bs, k + 1), AddrOf(bs, k - 1));
  }

  lemma GrowWritten(mem: Memory, bs: seq<Block>, end: int, b: Block)
    requires Ordered(bs, end) && Represents(mem, bs) && b.addr == end
    ensures var mem' := GrowWrites(mem, b, bs[|bs| - 1].addr);
            && Represents(mem', bs + [b])
            && LiveKept(mem, mem', bs)
  {
    EndBehindStart(bs, end);
    hide Ordered, GrowWrites, HeaderAt, PayloadKept;
    var mem' := GrowWrites(mem, b, bs[|bs| - 1].addr);
    forall k | 0 <= k < |bs|
      ensures HeaderAt(mem', bs + [b], k) && PayloadKept(mem, mem', bs[k])
    {
      GrowAt(mem, bs, end, b, k);
    }
    GrowLast(mem, bs, end, b);
  }

  lemma GrowLast(mem: Memory, bs: seq<Block>, end: int, b: Block)
    requires Ordered(bs, end) && b.addr == end
    ensures HeaderAt(GrowWrites(mem, b, bs[|bs| - 1].addr), bs + [b], |bs|)
  {
    var tail := bs[|bs| - 1];
    assert BlockOk(tail) && tail.End() <= end;
    hide Ordered;
    assert HeaderIs(GrowWrites(mem, b, tail.addr), b, 0, tail.addr);
  }

  // ---- Memory that grows ----------------------------------------------------------------------

  /** Words below end stay as they were. */
  ghost predicate SameBelow(mem: Memory, mem': Memory, end: int) {
    forall a :: HEAP_START <= a < end && a in mem ==> a in mem' && mem'[a] == mem[a]
  }

  lemma RepresentsBelow(mem: Memory, mem': Memory, bs: seq<Block>, end: int)
    requires Ordered(bs, end) && Represents(mem, bs) && SameBelow(mem, mem', end)
    ensures Represents(mem', bs) && LiveKept(mem, mem', bs)
  {
    forall k | 0 <= k < |bs|
      ensures HeaderAt(mem', bs, k)
      ensures PayloadKept(mem, mem', bs[k])
    {
      assert HeaderAt(mem, bs, k);
      assert BlockOk(bs[k]) && bs[k].End() <= end;
    }
  }
}
