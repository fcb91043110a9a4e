/** Whole runs of the frame allocator, over the set of used frames its bitmap stands for. */
module FrameRuns {

  import opened Machine
  import opened Frames

  /** pmm_alloc_frame, or pmm_free_frame of one frame. */
  datatype FrameOp = Take | Give(frame: int)

  datatype Outcome = Outcome(used: set<int>, taken: seq<int>)

  /** Performs ops in order; taken lists the frames handed out, failed requests left out. */
  function Run(used: set<int>, capacity: int, ops: seq<FrameOp>): Outcome
    decreases |ops|
  {
    if ops == [] then Outcome(used, [])
    else match ops[0]
      case Give(f) => Run(used - {f}, capacity, ops[1..])
      case Take =>
        match LowestFree(used, capacity)
        case None => Run(used, capacity, ops[1..])
        case Some(f) =>
          var rest := Run(used + {f}, capacity, ops[1..]);
          Outcome(rest.used, [f] + rest.taken)
  }

  /** What is reserved and never given back stays used and is never handed out. */
  lemma {:induction false} ReservedNeverHandedOut(used: set<int>, capacity: int, ops: seq<FrameOp>, reserved: set<int>)
    requires reserved <= used
    requires forall i :: 0 <= i < |ops| && ops[i].Give? ==> ops[i].frame !in reserved
    ensures reserved <= Run(used, capacity, ops).used
    ensures forall f :: f in Run(used, capacity, ops).taken ==> 0 <= f < capacity && f !in reserved
    decreases |ops|
  {
    if ops != [] {
      match ops[0]
      case Give(f) => ReservedNeverHandedOut(used - {f}, capacity, ops[1..], reserved);
      case Take =>
        match LowestFree(used, capacity) {
          case None => ReservedNeverHandedOut(used, capacity, ops[1..], reserved);
          case Some(f) => ReservedNeverHandedOut(used + {f}, capacity, ops[1..], reserved);
        }
    }
  }

  /** Without releases no frame is handed out twice, and each frame handed out was free at the start. */
  lemma {:induction false} TakenFramesDistinct(used: set<int>, capacity: int, ops: seq<FrameOp>)
    requires forall i :: 0 <= i < |ops| ==> ops[i].Take?
    ensures var r := Run(used, capacity, ops);
            && r.used == used + (set f | f in r.taken)
            && (forall f :: f in r.taken ==> f !in used)
            && (forall i, j :: 0 <= i < j < |r.taken| ==> r.taken[i] < r.taken[j])
    decreases |ops|
  {
    if ops != [] {
      match LowestFree(used, capacity) {
        case None => TakenFramesDistinct(used, capacity, ops[1..]);
        case Some(f) =>
          var rest := Run(used + {f}, capacity, ops[1..]);
          TakenFramesDistinct(used + {f}, capacity, ops[1..]);
          var r := Run(used, capacity, ops);
          assert r.taken == [f] + rest.taken;
          ReservedNeverHandedOut(used + {f}, capacity, ops[1..], used + {f});
          forall j | 1 <= j < |r.taken|
            ensures f < r.taken[j]
          {
            assert r.taken[j] in rest.taken;
          }
      }
    }
  }

  /** Releasing a used frame makes the next request return it, unless a lower frame is free. */
  lemma ReleasedFrameComesBack(used: set<int>, capacity: int, frame: int)
    requires 0 <= frame < capacity && frame in used
    ensures LowestFree(used - {frame}, capacity) ==
            match LowestFree(used, capacity)
            case Some(f) => Some(if f < frame then f else frame)
            case None => Some(frame)
  {
    match LowestFree(used, capacity)
    case Some(f) => LowestFreeIs(used - {frame}, capacity, if f < frame then f else frame);
    case None => LowestFreeIs(used - {frame}, capacity, frame);
  }

  /** Allocate, free, allocate returns the same frame. */
  lemma AllocFreeAlloc(used: set<int>, capacity: int)
    requires LowestFree(used, capacity).Some?
    ensures Run(used, capacity, [Take, Give(LowestFree(used, capacity).value), Take]).taken
            == [LowestFree(used, capacity).value, LowestFree(used, capacity).value]
  {
    var f := LowestFree(used, capacity).value;
    var ops := [Take, Give(f), Take];
    assert ops[1..] == [Give(f), Take] && ops[1..][1..] == [Take] && ops[1..][1..][1..] == [];
    assert used + {f} - {f} == used;
    assert Run(used, capacity, [Take]).taken == [f] + Run(used + {f}, capacity, []).taken;
    assert Run(used + {f}, capacity, [Give(f), Take]) == Run(used, capacity, [Take]);
  }

  /** As many requests in a row hand out any given free frame. */
  lemma {:induction false} EveryFreeFrameIsReached(used: set<int>, capacity: nat, frame: int) returns (ops: seq<FrameOp>)
    requires 0 <= frame < capacity && frame !in used
    ensures forall i :: 0 <= i < |ops| ==> ops[i].Take?
    ensures frame in Run(used, capacity, ops).taken
    decreases CountFree(used, capacity)
  {
    assert !Exhausted(used, capacity);
    var f := LowestFree(used, capacity).value;
    if f == frame {
      ops := [Take];
    } else {
      CountAfterTake(used, capacity, f);
      FreeFramesAvailable(used, capacity);
      var rest := EveryFreeFrameIsReached(used + {f}, capacity, frame);
      ops := [Take] + rest;
      assert ops[1..] == rest;
    }
  }
}
