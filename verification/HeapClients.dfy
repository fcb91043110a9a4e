/** The kernel heap in use: calls of malloc and free, page faults, and stores of clients into the memory they
    were given, in any order. */
module HeapClients {

  import opened Machine
  import opened HeapBlocks
  import opened HeapMemory
  import HeapRuns

  datatype ClientState = ClientState(heap: HeapState, mem: Memory)

  datatype Event = HeapCall(call: HeapRuns.Call) | Store(addr: int, word: int) | Fault

  ghost predicate StateOk(s: ClientState) {
    Good(s.heap) && Represents(s.mem, s.heap.blocks) && Mapped(s.mem, s.heap.end)
  }

  /** a is the address of a word of b's payload. */
  predicate InPayload(b: Block, a: int) {
    b.Payload() <= a < b.End() && a % 4 == 0
  }

  /** A client may store to the words of the blocks in use. */
  ghost predicate Writable(bs: seq<Block>, a: int) {
    exists b :: b in Live(bs) && InPayload(b, a)
  }

  ghost predicate Enabled(s: ClientState, e: Event) {
    match e
    case HeapCall(c) => HeapRuns.Allowed(s.heap, c)
    case Store(a, word) => Writable(s.heap.blocks, a) && 0 <= word < WORD_LIMIT
    case Fault => true
  }

  /** The blocks in use before and after keep their payloads. */
  ghost predicate PayloadsKept(s: ClientState, r: ClientState) {
    forall b :: b in Live(s.heap.blocks) && b in Live(r.heap.blocks) ==> PayloadKept(s.mem, r.mem, b)
  }

  /** What an event makes of the state; KernelHeap's methods are proved to do this. The allocator looks after its
      headers; a client's store changes its word and nothing else, whether the headers survive it or not. */
  ghost predicate Transition(s: ClientState, e: Event, r: ClientState)
    requires Enabled(s, e)
  {
    match e
    case HeapCall(c) =>
      && r.heap == HeapRuns.Step(s.heap, c) && PayloadsKept(s, r)
      && Represents(r.mem, r.heap.blocks) && Mapped(r.mem, r.heap.end)
    case Store(a, word) => r == s.(mem := s.mem[a := word])
    case Fault => r.heap == s.heap && SameBelow(s.mem, r.mem, s.heap.end)
  }

  lemma CallDone(s: ClientState, c: HeapRuns.Call, r: ClientState)
    requires HeapRuns.Allowed(s.heap, c) && r.heap == HeapRuns.Step(s.heap, c)
    requires Represents(r.mem, r.heap.blocks) && Mapped(r.mem, r.heap.end)
    requires LiveKept(s.mem, r.mem, s.heap.blocks)
    ensures Transition(s, HeapCall(c), r)
  {
  }

  // ---- One store ----------------------------------------------------------------------------

  lemma StoreElsewhere(mem: Memory, bs: seq<Block>, end: int, i: nat, a: int, word: int, k: nat)
    requires Ordered(bs, end) && Represents(mem, bs) && i < |bs| && k < |bs| && InPayload(bs[i], a)
    ensures HeaderAt(mem[a := word], bs, k)
    ensures k != i ==> PayloadKept(mem, mem[a := word], bs[k])
  {
    assert HeaderAt(mem, bs, k);
    assert BlockOk(bs[i]) && BlockOk(bs[k]);
    if k != i {
      BlocksApart(bs, end, i, k);
    }
  }

  /** A store into a payload in use leaves every header and every other payload alone. */
  lemma StoreKeepsHeap(mem: Memory, bs: seq<Block>, end: int, b: Block, a: int, word: int)
    requires Ordered(bs, end) && Represents(mem, bs) && Mapped(mem, end)
    requires b in Live(bs) && InPayload(b, a)
    ensures a in mem && Represents(mem[a := word], bs) && Mapped(mem[a := word], end)
    ensures forall c :: c in bs && c != b ==> PayloadKept(mem, mem[a := word], c)
  {
    var i :| 0 <= i < |bs| && bs[i] == b;
    assert BlockOk(b) && b.End() <= end;
    hide Ordered, HeaderAt, PayloadKept, BlockOk;
    forall k | 0 <= k < |bs|
      ensures HeaderAt(mem[a := word], bs, k)
      ensures bs[k] != b ==> PayloadKept(mem, mem[a := word], bs[k])
    {
      StoreElsewhere(mem, bs, end, i, a, word, k);
    }
  }

  // ---- Every run ----------------------------------------------------------------------------

  /** The states a run of events goes through. */
  ghost predicate IsTrace(states: seq<ClientState>, events: seq<Event>) {
    && |states| == |events| + 1
    && forall i {:trigger events[i]} :: 0 <= i < |events| ==>
         Enabled(states[i], events[i]) && Transition(states[i], events[i], states[i + 1])
  }

  lemma TransitionKeepsOk(s: ClientState, e: Event, r: ClientState)
    requires StateOk(s) && Enabled(s, e) && Transition(s, e, r)
    ensures StateOk(r)
  {
    hide Good, Represents, Mapped, Ordered;
    match e
    case HeapCall(c) =>
      match c {
        case Alloc(size, granted) => HeapRuns.MallocMeetsItsContract(s.heap, size, granted);
        case Dealloc(ptr) => HeapRuns.FreeMeetsItsContract(s.heap, ptr);
      }
    case Store(a, word) =>
      var b :| b in Live(s.heap.blocks) && InPayload(b, a);
      GoodIsOrdered(s.heap);
      StoreKeepsHeap(s.mem, s.heap.blocks, s.heap.end, b, a, word);
    case Fault =>
      GoodIsOrdered(s.heap);
      RepresentsBelow(s.mem, r.mem, s.heap.blocks, s.heap.end);
      MappedBelow(s.mem, r.mem, s.heap.end);
  }

  lemma GoodIsOrdered(h: HeapState)
    requires Good(h)
    ensures Ordered(h.blocks, h.end)
  {
  }

  lemma MappedBelow(mem: Memory, mem': Memory, end: int)
    requires Mapped(mem, end) && SameBelow(mem, mem', end)
    ensures Mapped(mem', end)
  {
  }

  /** However the clients use their memory, the list in memory stays linked, ordered and coalesced. */
  lemma {:induction false} TracesStayOk(states: seq<ClientState>, events: seq<Event>, k: nat)
    requires IsTrace(states, events) && StateOk(states[0]) && k <= |events|
    ensures StateOk(states[k])
  {
    if k > 0 {
      TracesStayOk(states, events, k - 1);
      assert Transition(states[k - 1], events[k - 1], states[k]);
      TransitionKeepsOk(states[k - 1], events[k - 1], states[k]);
    }
  }

  /** The word last stored at a in the first k events, initial if there was none. */
  function LastStored(events: seq<Event>, k: nat, a: int, initial: int): int
    requires k <= |events|
  {
    if k == 0 then initial
    else if events[k - 1].Store? && events[k - 1].addr == a then events[k - 1].word
    else LastStored(events, k - 1, a, initial)
  }

  lemma WordAfter(s: ClientState, e: Event, r: ClientState, b: Block, a: int)
    requires StateOk(s) && Enabled(s, e) && Transition(s, e, r)
    requires b in Live(s.heap.blocks) && b in Live(r.heap.blocks) && InPayload(b, a)
    ensures a in s.mem && a in r.mem
    ensures r.mem[a] == if e.Store? && e.addr == a then e.word else s.mem[a]
  {
    GoodIsOrdered(s.heap);
    var i :| 0 <= i < |s.heap.blocks| && s.heap.blocks[i] == b;
    assert BlockOk(b) && b.End() <= s.heap.end;
    assert a in s.mem;
    match e
    case HeapCall(c) => assert PayloadKept(s.mem, r.mem, b);
    case _ =>
  }

  /** As long as a block stays in use, each word of it holds what was last stored there: no other client, no
      call of malloc or free, no growth and no page fault ever changes it. */
  lemma {:induction false} ClientsReadWhatTheyStored(states: seq<ClientState>, events: seq<Event>, b: Block, a: int, k: nat)
    requires IsTrace(states, events) && StateOk(states[0]) && k <= |events| && InPayload(b, a)
    requires forall i :: 0 <= i <= k ==> b in Live(states[i].heap.blocks)
    ensures a in states[0].mem && a in states[k].mem
    ensures states[k].mem[a] == LastStored(events, k, a, states[0].mem[a])
  {
    if k == 0 {
      LiveIsMapped(states[0], b, a);
    } else {
      ClientsReadWhatTheyStored(states, events, b, a, k - 1);
      TracesStayOk(states, events, k - 1);
      hide StateOk;
      assert Transition(states[k - 1], events[k - 1], states[k]);
      WordAfter(states[k - 1], events[k - 1], states[k], b, a);
    }
  }

  lemma LiveIsMapped(s: ClientState, b: Block, a: int)
    requires StateOk(s) && b in Live(s.heap.blocks) && InPayload(b, a)
    ensures a in s.mem
  {
    var i :| 0 <= i < |s.heap.blocks| && s.heap.blocks[i] == b;
    assert BlockOk(b) && b.End() <= s.heap.end;
  }
}
