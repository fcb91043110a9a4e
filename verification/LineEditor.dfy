/** The line editor and the completion of src/kernel/shell.c as values: a text with a cursor, and what each
    key makes of it. */
module LineEditor {

  import opened CStrings

  const BUFFER_SIZE: int := 256
  const MAX_TEXT: int := 255
  const MAX_MATCHES: int := 32

  datatype Line = Line(text: string, cursor: nat)

  predicate LineOk(l: Line) {
    l.cursor <= |l.text| <= MAX_TEXT
  }

  const EMPTY: Line := Line("", 0)

  /** A key that inserts itself: not one of the editing keys, and neither NUL nor the escape character. */
  predicate IsPlain(c: char) {
    c != NUL && c != '\n' && c != '\U{08}' && c != '\t' && c != '\U{0c}' && c != '\U{1b}'
  }

  predicate PlainText(s: string) {
    forall i :: 0 <= i < |s| ==> IsPlain(s[i])
  }

  function Insert(l: Line, c: char): (r: Line)
    requires LineOk(l)
    ensures LineOk(r)
  {
    if |l.text| < MAX_TEXT then Line(l.text[..l.cursor] + [c] + l.text[l.cursor..], l.cursor + 1) else l
  }

  function Erase(l: Line): (r: Line)
    requires LineOk(l)
    ensures LineOk(r)
  {
    if l.cursor > 0 then Line(l.text[..l.cursor - 1] + l.text[l.cursor..], l.cursor - 1) else l
  }

  function Left(l: Line): Line {
    if l.cursor > 0 then l.(cursor := l.cursor - 1) else l
  }

  function Right(l: Line): Line {
    if l.cursor < |l.text| then l.(cursor := l.cursor + 1) else l
  }

  /** Typing a character and erasing it leaves the line as it was. */
  lemma EraseUndoesInsert(l: Line, c: char)
    requires LineOk(l) && |l.text| < MAX_TEXT
    ensures Erase(Insert(l, c)) == l
  {
    assert Insert(l, c).text[..l.cursor] == l.text[..l.cursor];
    assert Insert(l, c).text[l.cursor + 1..] == l.text[l.cursor..];
    assert l.text[..l.cursor] + l.text[l.cursor..] == l.text;
  }

  // ---- Completion -----------------------------------------------------------------------------

  /** The commands that start with prefix, in list order. */
  function Matches(commands: seq<string>, prefix: string): (ms: seq<string>)
    ensures forall k :: 0 <= k < |ms| ==> prefix <= ms[k]
  {
    if commands == [] then []
    else
      var ms := Matches(commands[..|commands| - 1], prefix);
      var c := commands[|commands| - 1];
      if prefix <= c then ms + [c] else ms
  }

  lemma MatchStep(commands: seq<string>, prefix: string, i: nat)
    requires i < |commands|
    ensures Matches(commands[..i + 1], prefix)
            == Matches(commands[..i], prefix) + (if prefix <= commands[i] then [commands[i]] else [])
  {
    assert commands[..i + 1][..i] == commands[..i];
  }

  /** Commands are plain and leave room for the space behind them. */
  predicate CommandsOk(commands: seq<string>) {
    forall k :: 0 <= k < |commands| ==> PlainText(commands[k]) && |commands[k]| <= BUFFER_SIZE - 2
  }

  lemma {:induction false} MatchesOk(commands: seq<string>, prefix: string)
    requires CommandsOk(commands)
    ensures CommandsOk(Matches(commands, prefix))
  {
    if commands != [] {
      MatchesOk(commands[..|commands| - 1], prefix);
    }
  }

  /** command_recognition: how many first characters a and b share. */
  function CommonPrefix(a: string, b: string): (n: nat)
    ensures n <= |a| && n <= |b| && a[..n] == b[..n]
    ensures n < |a| && n < |b| ==> a[n] != b[n]
  {
    if a == "" || b == "" || a[0] != b[0] then 0
    else
      var n := CommonPrefix(a[1..], b[1..]);
      assert a[..n + 1] == [a[0]] + a[1..][..n] && b[..n + 1] == [b[0]] + b[1..][..n];
      n + 1
  }

  /** The length the completion loop computes: the least common prefix with the first match. */
  function Lcp(ms: seq<string>): (n: nat)
    requires |ms| > 0
    ensures n <= |ms[0]|
  {
    if |ms| == 1 then |ms[0]|
    else
      var n := Lcp(ms[..|ms| - 1]);
      var k := CommonPrefix(ms[0], ms[|ms| - 1]);
      if k < n then k else n
  }

  lemma {:induction false} CommonPrefixIsGreatest(a: string, b: string, p: string)
    requires p <= a && p <= b
    ensures |p| <= CommonPrefix(a, b)
  {
    if p != "" {
      assert a[0] == p[0] == b[0];
      CommonPrefixIsGreatest(a[1..], b[1..], p[1..]);
    }
  }

  /** Every match starts with those characters. */
  lemma {:induction false} LcpIsCommon(ms: seq<string>, k: nat)
    requires k < |ms|
    ensures ms[0][..Lcp(ms)] <= ms[k]
  {
    if |ms| > 1 {
      var init := ms[..|ms| - 1];
      if k < |init| {
        LcpIsCommon(init, k);
        assert ms[0][..Lcp(ms)] <= ms[0][..Lcp(init)];
      } else {
        var n := CommonPrefix(ms[0], ms[k]);
        assert ms[0][..Lcp(ms)] == ms[0][..n][..Lcp(ms)] == ms[k][..n][..Lcp(ms)];
      }
    }
  }

  /** No longer text is a prefix of every match. */
  lemma {:induction false} LcpIsGreatest(ms: seq<string>, p: string)
    requires |ms| > 0 && forall k :: 0 <= k < |ms| ==> p <= ms[k]
    ensures |p| <= Lcp(ms)
  {
    if |ms| > 1 {
      var init := ms[..|ms| - 1];
      assert forall k :: 0 <= k < |init| ==> init[k] == ms[k];
      LcpIsGreatest(init, p);
      CommonPrefixIsGreatest(ms[0], ms[|ms| - 1], p);
    }
  }

  /** A text between the prefix and the longest common prefix is matched by the same commands. */
  lemma {:induction false} SameMatches(commands: seq<string>, prefix: string, longer: string)
    requires prefix <= longer
    requires forall k :: 0 <= k < |Matches(commands, prefix)| ==> longer <= Matches(commands, prefix)[k]
    ensures Matches(commands, longer) == Matches(commands, prefix)
  {
    if commands != [] {
      var init, c := commands[..|commands| - 1], commands[|commands| - 1];
      var ms := Matches(commands, prefix);
      if prefix <= c {
        assert ms == Matches(init, prefix) + [c];
        assert ms[|ms| - 1] == c;
        assert forall k :: 0 <= k < |Matches(init, prefix)| ==> Matches(init, prefix)[k] == ms[k];
      }
      SameMatches(init, prefix, longer);
    }
  }

  /** Tab on a line: nothing if the text in front of the cursor holds a space or no command starts with it;
      the command and a space if there is only one; else the longest common prefix, if that is longer.
      What stood behind the cursor is lost whenever something is inserted. */
  function Complete(l: Line, commands: seq<string>): Line
    requires l.cursor <= |l.text|
  {
    var prefix := l.text[..l.cursor];
    var ms := Matches(commands, prefix);
    if ' ' in prefix || ms == [] then l
    else if |ms| == 1 then Line(ms[0] + " ", |ms[0]| + 1)
    else if Lcp(ms) > |prefix| then Line(ms[0][..Lcp(ms)], Lcp(ms))
    else l
  }

  /** Several commands match and have no longer start in common: Tab lists them. */
  predicate Listed(l: Line, commands: seq<string>)
    requires l.cursor <= |l.text|
  {
    var prefix := l.text[..l.cursor];
    var ms := Matches(commands, prefix);
    ' ' !in prefix && |ms| > 1 && Lcp(ms) <= |prefix|
  }

  /** The matches as they are listed, each with two blanks behind it. */
  function Listing(ms: seq<string>): string {
    if ms == [] then "" else Listing(ms[..|ms| - 1]) + ms[|ms| - 1] + "  "
  }

  /** What Tab prints: the rest of the completion, or a row of matches, the prompt and the line again. */
  function CompletionOutput(l: Line, commands: seq<string>, prompt: string): string
    requires l.cursor <= |l.text|
  {
    var prefix := l.text[..l.cursor];
    var ms := Matches(commands, prefix);
    if ' ' in prefix || ms == [] then ""
    else if |ms| == 1 then ms[0][l.cursor..] + " "
    else if Lcp(ms) > |prefix| then ms[0][l.cursor..Lcp(ms)]
    else "\n" + Listing(if |ms| <= MAX_MATCHES then ms else ms[..MAX_MATCHES]) + "\n" + prompt + l.text
  }

  /** Unless it lists, Tab prints nothing and leaves the line as it is, or prints what takes the place of the line
      from the cursor on. */
  lemma OutputIsWritten(l: Line, commands: seq<string>, prompt: string)
    requires l.cursor <= |l.text| && !Listed(l, commands)
    ensures var more := CompletionOutput(l, commands, prompt);
            Complete(l, commands) == if more == "" then l
                                     else Line(l.text[..l.cursor] + more, l.cursor + |more|)
  {
    hide Matches, Lcp;
    var prefix := l.text[..l.cursor];
    var ms := Matches(commands, prefix);
    if ms != [] {
      assert prefix <= ms[0];
      assert ms[0] == prefix + ms[0][l.cursor..];
      if |ms| > 1 && Lcp(ms) > |prefix| {
        assert ms[0][..Lcp(ms)] == prefix + ms[0][l.cursor..Lcp(ms)];
      }
    }
  }

  /** Tab at the end of the line only appends: the one matching command and a space, or up to the longest
      common prefix of the matches, which then stay the same matches. */
  lemma CompletionAppends(l: Line, commands: seq<string>)
    requires l.cursor == |l.text|
    ensures l.text <= Complete(l, commands).text && Complete(l, commands).cursor == |Complete(l, commands).text|
    ensures ' ' !in l.text && |Matches(commands, l.text)| == 1
            ==> Complete(l, commands).text == Matches(commands, l.text)[0] + " "
    ensures ' ' !in l.text && |Matches(commands, l.text)| > 1
            ==> && Matches(commands, Complete(l, commands).text) == Matches(commands, l.text)
                && |Complete(l, commands).text| == Lcp(Matches(commands, l.text))
  {
    hide Matches, Lcp;
    var ms := Matches(commands, l.text);
    assert l.text[..l.cursor] == l.text;
    if |ms| == 1 {
      assert l.text <= ms[0];
    } else if |ms| > 1 {
      LcpExtends(commands, l.text);
    }
  }

  lemma LcpExtends(commands: seq<string>, prefix: string)
    requires |Matches(commands, prefix)| > 0
    ensures var ms := Matches(commands, prefix);
            && |prefix| <= Lcp(ms) && prefix <= ms[0][..Lcp(ms)]
            && (|prefix| == Lcp(ms) ==> ms[0][..Lcp(ms)] == prefix)
            && Matches(commands, ms[0][..Lcp(ms)]) == ms
  {
    var ms := Matches(commands, prefix);
    hide Matches, Lcp;
    LcpIsGreatest(ms, prefix);
    assert prefix <= ms[0];
    var longer := ms[0][..Lcp(ms)];
    forall k | 0 <= k < |ms|
      ensures longer <= ms[k]
    {
      LcpIsCommon(ms, k);
    }
    SameMatches(commands, prefix, longer);
  }

  /** When Tab inserts something, what stood behind the cursor plays no part: it is lost. */
  lemma CompletionIgnoresTail(l: Line, commands: seq<string>)
    requires l.cursor <= |l.text| && ' ' !in l.text[..l.cursor]
    requires var ms := Matches(commands, l.text[..l.cursor]); |ms| == 1 || (|ms| > 1 && Lcp(ms) > l.cursor)
    ensures Complete(l, commands) == Complete(Line(l.text[..l.cursor], l.cursor), commands)
    ensures l.text[..l.cursor] <= Complete(l, commands).text && Complete(l, commands).text != l.text[..l.cursor]
  {
    assert l.text[..l.cursor][..l.cursor] == l.text[..l.cursor];
    LcpExtends(commands, l.text[..l.cursor]);
  }

  /** The kernel's commands. */
  const COMMAND_LIST: seq<string> := [
    "help", "fetch", "clear", "uptime", "memdump", "memtest", "mia", "mmap", "peek", "poke", "echo", "reboot", "exit",
    "crash", "setprompt"]

  lemma CommandListOk()
    ensures CommandsOk(COMMAND_LIST)
  {
  }

  lemma {:induction false} MatchesAppend(a: seq<string>, b: seq<string>, prefix: string)
    ensures Matches(a + b, prefix) == Matches(a, prefix) + Matches(b, prefix)
  {
    if b == [] {
      assert a + b == a;
    } else {
      MatchesAppend(a, b[..|b| - 1], prefix);
      assert (a + b)[..|a + b| - 1] == a + b[..|b| - 1];
    }
  }

  lemma {:induction false} NoMatches(commands: seq<string>, prefix: string)
    requires prefix != "" && forall k :: 0 <= k < |commands| ==> commands[k] == "" || commands[k][0] != prefix[0]
    ensures Matches(commands, prefix) == []
  {
    if commands != [] {
      NoMatches(commands[..|commands| - 1], prefix);
    }
  }

  /** The commands in front of and behind "uptime". */
  lemma OnlyUptime()
    ensures Matches(COMMAND_LIST, "up") == ["uptime"]
  {
    var before := ["help", "fetch", "clear"];
    var behind := ["memdump", "memtest", "mia", "mmap", "peek", "poke", "echo", "reboot", "exit", "crash", "setprompt"];
    assert COMMAND_LIST == before + ["uptime"] + behind;
    hide Matches;
    NoMatches(before, "up");
    NoMatches(behind, "up");
    MatchesAppend(before + ["uptime"], behind, "up");
    MatchesAppend(before, ["uptime"], "up");
    OneMatch("uptime", "up");
  }

  lemma OneMatch(command: string, prefix: string)
    ensures Matches([command], prefix) == if prefix <= command then [command] else []
  {
    assert [command][..0] == [];
  }

  /** Tab behind the first two characters of "upxyz" gives "uptime " and drops "xyz". */
  lemma TabInMidLineDropsTheTail()
    ensures Complete(Line("upxyz", 2), COMMAND_LIST) == Line("uptime ", 7)
  {
    OnlyUptime();
    hide Matches;
    assert "upxyz"[..2] == "up";
  }
}
