/** src/kernel/history.c: the ring of the last sixteen commands, navigated with a cursor, and the list of
    all commands it stands for. */
module History {

  import opened CStrings
  import opened Machine

  const CAPACITY: int := 16
  const ENTRY_SIZE: int := 256
  /** strlcpy is called with ENTRY_SIZE - 1 and keeps one character less than that. */
  const KEPT: int := ENTRY_SIZE - 2

  // ---- The list the ring stands for -------------------------------------------------------------

  /** Every command pushed so far, oldest first, cut to 254 characters; the navigation position; the line
      put aside while navigating. */
  datatype Log = Log(pushes: seq<string>, cursor: nat, draft: string)

  function Reachable(log: Log): nat {
    if |log.pushes| < CAPACITY then |log.pushes| else CAPACITY
  }

  function Push(log: Log, cmd: string): Log {
    if cmd == "" then log else Log(log.pushes + [Cut(cmd, KEPT)], 0, "")
  }

  function Prev(log: Log, current: string): Log {
    Log(log.pushes,
        if log.cursor < Reachable(log) then log.cursor + 1 else log.cursor,
        if log.cursor == 0 then Cut(current, KEPT) else log.draft)
  }

  function Next(log: Log): Log {
    log.(cursor := if log.cursor > 0 then log.cursor - 1 else 0)
  }

  /** The line the navigation shows: the draft, or the cursor-th most recent command. */
  function Current(log: Log): string {
    if log.cursor == 0 || log.cursor > |log.pushes| then log.draft else log.pushes[|log.pushes| - log.cursor]
  }

  /** k times Up from a line, the editor passing what it shows. */
  function PrevTimes(log: Log, line: string, k: nat): Log {
    if k == 0 then log
    else
      var before := PrevTimes(log, line, k - 1);
      Prev(before, if k == 1 then line else Current(before))
  }

  /** k times Down. */
  function NextTimes(log: Log, k: nat): Log {
    if k == 0 then log else Next(NextTimes(log, k - 1))
  }

  lemma CutTwice(s: string)
    ensures Cut(Cut(s, KEPT), KEPT) == Cut(s, KEPT)
  {
  }

  /** Up moves the cursor back as far as the ring reaches and keeps the line. */
  lemma {:induction false} PrevTimesIs(log: Log, line: string, k: nat)
    requires log.cursor == 0
    ensures PrevTimes(log, line, k) == if k == 0 then log else Log(log.pushes, Min(k, Reachable(log)), Cut(line, KEPT))
  {
    if k > 0 {
      PrevTimesIs(log, line, k - 1);
      CutTwice(line);
    }
  }

  lemma {:induction false} NextTimesIs(log: Log, k: nat)
    ensures NextTimes(log, k) == log.(cursor := if k < log.cursor then log.cursor - k else 0)
  {
    if k > 0 {
      NextTimesIs(log, k - 1);
    }
  }

  /** Any number of Ups shows the matching recent command; the same number of Downs brings back the line
      that was being edited exactly when it has at most 254 characters. */
  lemma NavigationReturnsTheLine(log: Log, line: string, k: nat)
    requires log.cursor == 0 && k > 0
    ensures var up := PrevTimes(log, line, k);
            && (Reachable(log) > 0 ==> Current(up) == log.pushes[|log.pushes| - Min(k, Reachable(log))])
            && Current(NextTimes(up, k)) == Cut(line, KEPT)
            && (Current(NextTimes(up, k)) == line <==> |line| <= KEPT)
  {
    PrevTimesIs(log, line, k);
    NextTimesIs(PrevTimes(log, line, k), k);
  }

  // ---- The ring itself --------------------------------------------------------------------------

  /** `slot` over head and a distance back. */
  function SlotOf(head: int, back: int): int {
    (head - back + CAPACITY) % CAPACITY
  }

  class Ring {
    const entries: array<string>
    var head: int
    var count: int
    var cursor: nat
    var draft: string
    /** All commands pushed, as they were stored. */
    ghost var pushes: seq<string>

    ghost predicate Valid()
      reads this, entries
    {
      && entries.Length == CAPACITY
      && head == |pushes| % CAPACITY
      && count == (if |pushes| < CAPACITY then |pushes| else CAPACITY)
      && cursor <= count
      && NUL !in draft && |draft| <= KEPT
      && (forall k :: 0 <= k < |pushes| ==> NUL !in pushes[k] && 0 < |pushes[k]| <= KEPT)
      && (forall k :: 1 <= k <= count ==> entries[SlotOf(head, k)] == pushes[|pushes| - k])
    }

    ghost function State(): Log
      reads this
    {
      Log(pushes, cursor, draft)
    }

    /** history_init. */
    constructor ()
      ensures Valid() && fresh(entries) && State() == Log([], 0, "")
    {
      entries := new string[CAPACITY](_ => "");
      head, count, cursor := 0, 0, 0;
      draft := "";
      pushes := [];
    }

    function Slot(back: int): (s: int)
      reads this
      requires 0 <= head < CAPACITY && 0 <= back <= CAPACITY
      ensures 0 <= s < CAPACITY
    {
      SlotOf(head, back)
    }

    /** history_push. */
    method PushCommand(cmd: string)
      requires Valid() && NUL !in cmd
      modifies this, entries
      ensures Valid() && State() == Push(old(State()), cmd)
    {
      if cmd == "" {
        return;
      }
      ghost var n := |pushes|;
      RingStep(n, head, count);
      entries[head] := Cut(cmd, KEPT);
      count := if count < CAPACITY then count + 1 else CAPACITY;
      head := (head + 1) % CAPACITY;
      cursor := 0;
      draft := "";
      pushes := pushes + [Cut(cmd, KEPT)];
      forall k | 1 <= k <= count
        ensures entries[SlotOf(head, k)] == pushes[|pushes| - k]
      {
        if k > 1 {
          assert SlotOf(head, k) == SlotOf(old(head), k - 1) != old(head);
        }
      }
    }

    /** history_prev, with a line. */
    method PrevCommand(current: string) returns (r: string)
      requires Valid() && NUL !in current
      modifies this`cursor, this`draft
      ensures Valid() && State() == Prev(old(State()), current) && r == Current(State())
    {
      hide SlotOf;
      if cursor == 0 {
        draft := Cut(current, KEPT);
      }
      if cursor < count {
        cursor := cursor + 1;
      }
      r := GetCurrentCommand();
    }

    /** history_next. */
    method NextCommand() returns (r: string)
      requires Valid()
      modifies this`cursor
      ensures Valid() && State() == Next(old(State())) && r == Current(State())
    {
      hide SlotOf;
      if cursor > 0 {
        cursor := cursor - 1;
      }
      r := GetCurrentCommand();
    }

    /** history_getcurrentcommand. */
    method GetCurrentCommand() returns (r: string)
      requires Valid()
      ensures r == Current(State()) && NUL !in r && |r| <= KEPT
    {
      r := if cursor == 0 then draft else entries[Slot(cursor)];
    }
  }

  /** The slot a push overwrites is that of the command that falls out of the ring. */
  lemma RingStep(n: nat, head: int, count: int)
    requires head == n % CAPACITY && count == if n < CAPACITY then n else CAPACITY
    ensures SlotOf((head + 1) % CAPACITY, 1) == head
    ensures forall k :: 1 <= k <= count && k < CAPACITY ==>
              SlotOf((head + 1) % CAPACITY, k + 1) == SlotOf(head, k) && SlotOf(head, k) != head
    ensures (head + 1) % CAPACITY == (n + 1) % CAPACITY
  {
  }
}
