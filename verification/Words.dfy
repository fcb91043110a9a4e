/** shell_parse of src/kernel/shell.c, with str_trim: a command line cut into words in place. */
module Words {

  import opened CStrings

  const MAX_CMD_ARGS: int := 16

  predicate IsBlank(c: char) {
    c == ' ' || c == '\t'
  }

  // ---- The words of a line -----------------------------------------------------------------

  /** Where the word at the start of s ends. */
  function WordEnd(s: string): (n: nat)
    ensures n <= |s|
    ensures forall k :: 0 <= k < n ==> s[k] != ' '
    ensures n < |s| ==> s[n] == ' '
  {
    if s == "" || s[0] == ' ' then 0
    else
      var n := WordEnd(s[1..]);
      assert forall k :: 1 <= k < n + 1 ==> s[k] == s[1..][k - 1];
      n + 1
  }

  /** The maximal space-free words of s, in order. */
  function WordsOf(s: string): seq<string>
    decreases |s|
  {
    if s == "" then []
    else if s[0] == ' ' then WordsOf(s[1..])
    else [s[..WordEnd(s)]] + WordsOf(s[WordEnd(s)..])
  }

  predicate IsWord(w: string) {
    w != "" && ' ' !in w
  }

  lemma {:induction false} WordsAreWords(s: string)
    ensures forall k :: 0 <= k < |WordsOf(s)| ==> IsWord(WordsOf(s)[k])
    decreases |s|
  {
    if s != "" {
      if s[0] == ' ' {
        WordsAreWords(s[1..]);
      } else {
        WordsAreWords(s[WordEnd(s)..]);
      }
    }
  }

  /** The words separated by single spaces. */
  function JoinWords(ws: seq<string>): string {
    if ws == [] then "" else if |ws| == 1 then ws[0] else ws[0] + " " + JoinWords(ws[1..])
  }

  lemma {:induction false} WordEndIs(w: string, rest: string)
    requires ' ' !in w && (rest == "" || rest[0] == ' ')
    ensures WordEnd(w + rest) == |w|
  {
    if w == "" {
      assert w + rest == rest;
    } else {
      assert w[0] in w;
      assert (w + rest)[1..] == w[1..] + rest;
      WordEndIs(w[1..], rest);
    }
  }

  /** Words joined by single spaces are read back. */
  lemma {:induction false} WordsOfJoined(ws: seq<string>)
    requires forall k :: 0 <= k < |ws| ==> IsWord(ws[k])
    ensures WordsOf(JoinWords(ws)) == ws
  {
    if ws != [] {
      var w := ws[0];
      assert w[0] in w;
      if |ws| == 1 {
        WordEndIs(w, "");
        assert w + "" == w && w[..|w|] == w && w[|w|..] == "";
        assert ws == [w];
      } else {
        var rest := JoinWords(ws[1..]);
        WordsOfJoined(ws[1..]);
        var s := w + (" " + rest);
        assert JoinWords(ws) == s;
        WordEndIs(w, " " + rest);
        assert s[..|w|] == w && s[|w|..] == " " + rest && (" " + rest)[1..] == rest;
        assert ws == [w] + ws[1..];
      }
    }
  }

  /** What a line is cut into, whatever it holds: blanks add nothing, and a run of other characters up to the next blank
      is a word. */
  lemma WordByWord(blanks: string, w: string, rest: string)
    requires (forall k :: 0 <= k < |blanks| ==> blanks[k] == ' ') && ' ' !in w && (rest != "" ==> rest[0] == ' ')
    ensures WordsOf(blanks + w + rest) == (if w == "" then [] else [w]) + WordsOf(rest)
  {
    BlanksSkipped(blanks, w + rest);
    assert blanks + w + rest == blanks + (w + rest);
    if w == "" {
      assert w + rest == rest;
    } else {
      assert w[0] in w;
      WordEndIs(w, rest);
      assert (w + rest)[..|w|] == w && (w + rest)[|w|..] == rest;
    }
  }

  lemma {:induction false} BlanksSkipped(blanks: string, s: string)
    requires forall k :: 0 <= k < |blanks| ==> blanks[k] == ' '
    ensures WordsOf(blanks + s) == WordsOf(s)
  {
    if blanks == "" {
      assert blanks + s == s;
    } else {
      assert (blanks + s)[1..] == blanks[1..] + s;
      BlanksSkipped(blanks[1..], s);
    }
  }

  /** Trimming takes blanks and tabs off both ends, as many as there are, and nothing else. */
  lemma TrimIs(front: string, s: string, back: string)
    requires forall k :: 0 <= k < |front| ==> front[k] == ' ' || front[k] == '\t'
    requires forall k :: 0 <= k < |back| ==> back[k] == ' ' || back[k] == '\t'
    requires s != "" ==> s[0] != ' ' && s[0] != '\t' && s[|s| - 1] != ' ' && s[|s| - 1] != '\t'
    ensures s != "" || back == "" ==> Trim(front + s + back) == s
  {
    if s != "" || back == "" {
      assert front + s + back == front + (s + back);
      TrimmedLeft(front, s + back);
      TrimmedRight(s, back);
    }
  }

  lemma {:induction false} TrimmedLeft(front: string, s: string)
    requires forall k :: 0 <= k < |front| ==> IsBlank(front[k])
    requires s != "" ==> !IsBlank(s[0])
    ensures TrimLeft(front + s) == s
  {
    if front == "" {
      assert front + s == s;
    } else {
      assert (front + s)[1..] == front[1..] + s;
      TrimmedLeft(front[1..], s);
    }
  }

  lemma {:induction false} TrimmedRight(s: string, back: string)
    requires forall k :: 0 <= k < |back| ==> IsBlank(back[k])
    requires s != "" ==> !IsBlank(s[|s| - 1])
    ensures TrimRight(s + back) == s
  {
    if back == "" {
      assert s + back == s;
    } else {
      assert (s + back)[..|s + back| - 1] == s + back[..|back| - 1];
      TrimmedRight(s, back[..|back| - 1]);
    }
  }

  /** The arguments are the first sixteen words, or all. */
  lemma ArgsAreSixteen(text: string)
    ensures Args(text) <= WordsOf(Trim(text)) && (|Args(text)| == 16 || Args(text) == WordsOf(Trim(text)))
  {
  }

  /** The words a line is cut into: the first sixteen. */
  function Args(text: string): (ws: seq<string>)
    ensures |ws| <= MAX_CMD_ARGS
  {
    var ws := WordsOf(Trim(text));
    if |ws| <= MAX_CMD_ARGS then ws else ws[..MAX_CMD_ARGS]
  }

  /** Parsing the words found, joined by single spaces, finds the same words. */
  lemma ReparsingGivesTheSameWords(text: string)
    requires '\t' !in text
    ensures Args(JoinWords(Args(text))) == Args(text)
  {
    var ws := Args(text);
    WordsAreWords(Trim(text));
    WordsOfJoined(ws);
    TrimMembers(text);
    JoinMembers(ws, '\t');
    forall k | 0 <= k < |ws|
      ensures '\t' !in ws[k]
    {
      WordMembers(Trim(text), k);
    }
    TrimKeepsWords(JoinWords(ws));
  }

  lemma {:induction false} JoinMembers(ws: seq<string>, c: char)
    requires c != ' '
    ensures (forall k :: 0 <= k < |ws| ==> c !in ws[k]) ==> c !in JoinWords(ws)
  {
    if |ws| > 1 {
      JoinMembers(ws[1..], c);
    }
  }

  lemma {:induction false} WordMembers(s: string, k: nat)
    requires k < |WordsOf(s)|
    ensures forall c :: c in WordsOf(s)[k] ==> c in s
    decreases |s|
  {
    if s[0] == ' ' {
      WordMembers(s[1..], k);
    } else if k > 0 {
      WordMembers(s[WordEnd(s)..], k - 1);
    }
  }

  // ---- Trimming ----------------------------------------------------------------------------

  function TrimLeft(s: string): string {
    if s != "" && IsBlank(s[0]) then TrimLeft(s[1..]) else s
  }

  function TrimRight(s: string): string {
    if s != "" && IsBlank(s[|s| - 1]) then TrimRight(s[..|s| - 1]) else s
  }

  function Trim(s: string): string {
    TrimRight(TrimLeft(s))
  }

  lemma TrimMembers(s: string)
    ensures forall c :: c in Trim(s) ==> c in s
  {
    TrimLeftMembers(s);
    TrimRightMembers(TrimLeft(s));
  }

  lemma {:induction false} TrimLeftMembers(s: string)
    ensures forall c :: c in TrimLeft(s) ==> c in s
  {
    if s != "" && IsBlank(s[0]) {
      TrimLeftMembers(s[1..]);
    }
  }

  lemma {:induction false} TrimRightMembers(s: string)
    ensures TrimRight(s) <= s
  {
    if s != "" && IsBlank(s[|s| - 1]) {
      TrimRightMembers(s[..|s| - 1]);
    }
  }

  lemma {:induction false} SpaceBehind(s: string)
    ensures WordsOf(s + " ") == WordsOf(s)
    decreases |s|
  {
    if s == "" {
      assert ("" + " ")[1..] == "";
    } else if s[0] == ' ' {
      assert (s + " ")[1..] == s[1..] + " ";
      SpaceBehind(s[1..]);
    } else {
      var n := WordEnd(s);
      assert s == s[..n] + s[n..] && s + " " == s[..n] + (s[n..] + " ");
      WordEndIs(s[..n], s[n..] + " ");
      assert (s + " ")[..n] == s[..n] && (s + " ")[n..] == s[n..] + " ";
      SpaceBehind(s[n..]);
    }
  }

  /** In a line without tabs trimming loses no word. */
  lemma TrimKeepsWords(s: string)
    requires '\t' !in s
    ensures WordsOf(Trim(s)) == WordsOf(s)
  {
    TrimLeftKeepsWords(s);
    TrimLeftMembers(s);
    TrimRightKeepsWords(TrimLeft(s));
  }

  lemma {:induction false} TrimLeftKeepsWords(s: string)
    requires '\t' !in s
    ensures WordsOf(TrimLeft(s)) == WordsOf(s)
  {
    if s != "" && IsBlank(s[0]) {
      assert s[0] in s;
      TrimLeftKeepsWords(s[1..]);
    }
  }

  lemma {:induction false} TrimRightKeepsWords(s: string)
    requires '\t' !in s
    ensures WordsOf(TrimRight(s)) == WordsOf(s)
  {
    if s != "" && IsBlank(s[|s| - 1]) {
      var init := s[..|s| - 1];
      assert s[|s| - 1] in s;
      assert s == init + " ";
      TrimRightKeepsWords(init);
      SpaceBehind(init);
    }
  }

  // ---- In place ------------------------------------------------------------------------------

  /** str_trim: where the trimmed line starts; blanks behind it become NULs. */
  method StrTrim(buf: array<char>, ghost text: string) returns (start: nat)
    requires HoldsAt(buf[..], 0, text)
    modifies buf
    ensures start <= |text| && HoldsAt(buf[..], start, Trim(text))
    ensures Trim(text) != "" ==> !IsBlank(Trim(text)[0])
  {
    start := SkipBlanks(buf, text);
    ghost var t := TrimLeft(text);
    HeldString(buf[..], start, t);
    if buf[start] == NUL {
      return;
    }
    assert buf[start..] == buf[..][start..];
    var len := StrLen(buf, start);
    TrimEnd(buf, start, len, t);
    TrimRightMembers(t);
  }

  /** str_trim's second loop. */
  method TrimEnd(buf: array<char>, start: nat, len: nat, ghost t: string)
    requires HoldsAt(buf[..], start, t) && len == |t| > 0 && !IsBlank(t[0])
    modifies buf
    ensures HoldsAt(buf[..], start, TrimRight(t)) && TrimRight(t) != ""
  {
    hide TrimRight;
    var end := start + len - 1;
    ghost var s := t;
    while end > start && IsBlank(buf[end])
      invariant start <= end && s <= t && |s| == end + 1 - start
      invariant HoldsAt(buf[..], start, s)
      invariant TrimRight(s) == TrimRight(t)
      decreases end
    {
      HeldTail(buf[..], start, s, |s| - 1);
      HeldCut(buf[..], start, s, |s| - 1);
      TrimRightStep(s);
      ghost var before := buf[..];
      buf[end] := NUL;
      assert buf[..] == before[end := NUL];
      s := s[..|s| - 1];
      end := end - 1;
    }
    HeldTail(buf[..], start, s, |s| - 1);
    TrimRightStep(s);
  }

  lemma TrimRightStep(s: string)
    requires s != ""
    ensures TrimRight(s) == if IsBlank(s[|s| - 1]) then TrimRight(s[..|s| - 1]) else s
  {
  }

  /** str_trim's first loop. */
  method SkipBlanks(buf: array<char>, ghost text: string) returns (start: nat)
    requires HoldsAt(buf[..], 0, text)
    ensures start <= |text| && HoldsAt(buf[..], start, TrimLeft(text))
    ensures TrimLeft(text) != "" ==> !IsBlank(TrimLeft(text)[0])
  {
    start := 0;
    while IsBlank(buf[start])
      invariant start <= |text| && TrimLeft(text[start..]) == TrimLeft(text)
      decreases |text| - start
    {
      HeldTail(buf[..], 0, text, start);
      assert text[start..][1..] == text[start + 1..];
      start := start + 1;
    }
    HeldTail(buf[..], 0, text, start);
    assert TrimLeft(text) == text[start..];
  }

  /** shell_parse's inner loop to the end of a word. */
  method FindWordEnd(cmd: array<char>, pos: nat, ghost s: string) returns (e: nat)
    requires HoldsAt(cmd[..], pos, s)
    ensures e == pos + WordEnd(s)
  {
    e := pos;
    while cmd[e] != NUL && cmd[e] != ' '
      invariant pos <= e <= pos + |s|
      invariant forall k :: 0 <= k < e - pos ==> s[k] != ' '
      decreases pos + |s| - e
    {
      HeldTail(cmd[..], pos, s, e - pos);
      e := e + 1;
    }
    HeldTail(cmd[..], pos, s, e - pos);
  }

  /** shell_parse's inner loop over the spaces behind a word. */
  method SkipSpaces(cmd: array<char>, pos: nat, ghost s: string) returns (next: nat)
    requires HoldsAt(cmd[..], pos, s)
    ensures pos <= next <= pos + |s| && HoldsAt(cmd[..], next, s[next - pos..])
    ensures WordsOf(s[next - pos..]) == WordsOf(s)
    ensures next < pos + |s| ==> s[next - pos] != ' '
  {
    hide WordsOf, WordEnd, HoldsAt;
    next := pos;
    assert s[0..] == s;
    HeldFirst(cmd[..], pos, s);
    while cmd[next] == ' '
      invariant pos <= next <= pos + |s| && next < cmd.Length
      invariant HoldsAt(cmd[..], next, s[next - pos..])
      invariant WordsOf(s[next - pos..]) == WordsOf(s)
      decreases pos + |s| - next
    {
      HeldFirst(cmd[..], next, s[next - pos..]);
      SpaceSkipped(s, next - pos);
      next := next + 1;
      HeldTail(cmd[..], pos, s, next - pos);
      HeldFirst(cmd[..], next, s[next - pos..]);
    }
    HeldFirst(cmd[..], next, s[next - pos..]);
  }

  /** A space in front adds no word. */
  lemma SpaceSkipped(s: string, i: nat)
    requires i < |s| && s[i] == ' '
    ensures WordsOf(s[i..]) == WordsOf(s[i + 1..])
  {
    assert s[i..][1..] == s[i + 1..];
  }

  /** The word a non-blank line starts with, and the rest of the line. */
  lemma FirstWord(s: string)
    requires s != "" && s[0] != ' '
    ensures WordEnd(s) > 0 && WordsOf(s) == [s[..WordEnd(s)]] + WordsOf(s[WordEnd(s)..])
    ensures WordEnd(s) < |s| ==> WordsOf(s[WordEnd(s)..]) == WordsOf(s[WordEnd(s) + 1..])
  {
    var n := WordEnd(s);
    assert n > 0;
    hide WordEnd;
    if n < |s| {
      assert s[n..][0] == ' ' && s[n..][1..] == s[n + 1..];
    }
  }

  /** One word: terminated in place, at its end or by the end of the line; and where the next one starts. */
  method NextWord(cmd: array<char>, pos: nat, ghost s: string) returns (next: nat)
    requires HoldsAt(cmd[..], pos, s) && s != "" && s[0] != ' '
    modifies cmd
    ensures HoldsAt(cmd[..], pos, s[..WordEnd(s)])
    ensures pos + WordEnd(s) <= next <= pos + |s| && HoldsAt(cmd[..], next, s[next - pos..])
    ensures WordsOf(s) == [s[..WordEnd(s)]] + WordsOf(s[next - pos..])
    ensures next < pos + |s| ==> s[next - pos] != ' ' && pos + WordEnd(s) < next
    ensures WordEnd(s) > 0
    ensures forall k :: 0 <= k < cmd.Length && k != pos + WordEnd(s) ==> cmd[k] == old(cmd[k])
  {
    hide WordsOf, WordEnd, HoldsAt;
    FirstWord(s);
    ghost var n := WordEnd(s);
    var i := FindWordEnd(cmd, pos, s);
    HeldTail(cmd[..], pos, s, n);
    HeldFirst(cmd[..], i, s[n..]);
    if cmd[i] == ' ' {
      HeldCut(cmd[..], pos, s, n);
      PutNul(cmd, i);
      next := SkipSpaces(cmd, i + 1, s[n + 1..]);
      BehindWord(cmd[..], pos, s, n + 1, next);
    } else {
      WholeWord(s, n);
      next := SkipSpaces(cmd, i, s[n..]);
      BehindWord(cmd[..], pos, s, n, next);
    }
  }

  lemma WholeWord(s: string, n: nat)
    requires n <= |s| && s[n..] == ""
    ensures n == |s| && s[..n] == s
  {
  }

  /** What starts at next, m characters of s and some spaces behind pos, seen as a part of s. */
  lemma BehindWord(buf: seq<char>, pos: nat, s: string, m: nat, next: nat)
    requires m <= |s| && pos + m <= next <= pos + |s|
    requires HoldsAt(buf, next, s[m..][next - pos - m..]) && WordsOf(s[m..][next - pos - m..]) == WordsOf(s[m..])
    ensures HoldsAt(buf, next, s[next - pos..]) && WordsOf(s[next - pos..]) == WordsOf(s[m..])
    ensures next < pos + |s| ==> s[next - pos] == s[m..][next - pos - m]
  {
    hide WordsOf, HoldsAt;
    assert s[m..][next - pos - m..] == s[next - pos..];
  }

  /** `cmd[i] = '\0'`. */
  method PutNul(cmd: array<char>, i: nat)
    requires i < cmd.Length
    modifies cmd
    ensures cmd[..] == old(cmd[..])[i := NUL]
  {
    cmd[i] := NUL;
  }

  /** Each of the arguments is a terminated word in the buffer. */
  ghost predicate ArgsHeld(buf: seq<char>, args: seq<int>, ws: seq<string>) {
    |ws| <= |args| && forall k :: 0 <= k < |ws| ==> 0 <= args[k] && HoldsAt(buf, args[k], ws[k])
  }

  /** They all end in front of place. */
  ghost predicate ArgsBefore(args: seq<int>, ws: seq<string>, place: int) {
    |ws| <= |args| && forall k :: 0 <= k < |ws| ==> args[k] + |ws[k]| < place
  }

  /** shell_parse: args gets the places of the first sixteen words, each terminated in the buffer, and a
      NULL (-1) behind them. */
  method ShellParse(cmd: array<char>, args: array<int>, ghost text: string) returns (argc: nat)
    requires HoldsAt(cmd[..], 0, text) && args.Length == MAX_CMD_ARGS + 1
    modifies cmd, args
    ensures argc == |Args(text)| && ArgsHeld(cmd[..], args[..], Args(text))
    ensures argc > 0 ==> args[argc] == -1
  {
    hide WordsOf, WordEnd, HoldsAt, Trim, ArgsHeld, ArgsBefore;
    var pos := StrTrim(cmd, text);
    ghost var t := Trim(text);
    argc := 0;
    HeldString(cmd[..], pos, t);
    NoArgs(cmd[..], args[..], pos);
    if cmd[pos] == NUL {
      return;
    }
    ghost var done: seq<string> := [];
    ghost var s := t;
    while cmd[pos] != NUL && argc < MAX_CMD_ARGS
      invariant 0 <= pos < cmd.Length && HoldsAt(cmd[..], pos, s)
      invariant s != "" ==> s[0] != ' '
      invariant |done| == argc <= MAX_CMD_ARGS && WordsOf(t) == done + WordsOf(s)
      invariant argc == 0 ==> s != ""
      invariant ArgsHeld(cmd[..], args[..], done)
      invariant ArgsBefore(args[..], done, pos) || s == ""
      decreases |s|
    {
      HeldString(cmd[..], pos, s);
      ghost var before, argsBefore := cmd[..], args[..];
      ghost var w := s[..WordEnd(s)];
      args[argc] := pos;
      var next := NextWord(cmd, pos, s);
      assert args[..] == argsBefore[argc := pos];
      ArgAdded(before, cmd[..], argsBefore, pos, done, w, next);
      done := done + [w];
      argc := argc + 1;
      s := s[next - pos..];
      pos := next;
      HeldString(cmd[..], pos, s);
    }
    HeldString(cmd[..], pos, s);
    ghost var argsBefore := args[..];
    args[argc] := -1;
    assert args[..] == argsBefore[argc := -1];
    ArgsEnded(cmd[..], argsBefore, done, argc);
    WordsDone(text, done, s);
  }

  lemma NoArgs(buf: seq<char>, args: seq<int>, pos: int)
    ensures ArgsHeld(buf, args, []) && ArgsBefore(args, [], pos) && WordsOf("") == []
  {
  }

  /** The words found are the first sixteen, or all if the line is at its end. */
  lemma WordsDone(text: string, done: seq<string>, s: string)
    requires WordsOf(Trim(text)) == done + WordsOf(s) && |done| <= MAX_CMD_ARGS
    requires s == "" || |done| == MAX_CMD_ARGS
    ensures Args(text) == done
  {
    assert WordsOf(Trim(text))[..|done|] == done;
  }

  lemma ArgsEnded(buf: seq<char>, args: seq<int>, ws: seq<string>, argc: nat)
    requires ArgsHeld(buf, args, ws) && |ws| == argc < |args|
    ensures ArgsHeld(buf, args[argc := -1], ws)
  {
  }

  /** Words that end before the place just terminated stay; the new one joins them. */
  lemma ArgAdded(buf: seq<char>, buf': seq<char>, args: seq<int>, pos: nat, ws: seq<string>, w: string, next: nat)
    requires ArgsHeld(buf, args, ws) && ArgsBefore(args, ws, pos) && |ws| < |args| && |buf'| == |buf|
    requires forall k :: 0 <= k < |buf| && k != pos + |w| ==> buf'[k] == buf[k]
    requires HoldsAt(buf', pos, w)
    ensures ArgsHeld(buf', args[|ws| := pos], ws + [w])
    ensures pos + |w| < next ==> ArgsBefore(args[|ws| := pos], ws + [w], next)
  {
    forall k | 0 <= k < |ws|
      ensures HoldsAt(buf', args[k], ws[k])
    {
      assert HoldsAt(buf, args[k], ws[k]);
    }
  }
}
