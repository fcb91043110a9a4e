/** What the keys of the line editor leave, said of the text and of the lines entered, over single keys and runs. */
module EditorLaws {

  import opened CStrings
  import opened LineEditor
  import opened EditorRuns
  import Words

  // ---- One key ----------------------------------------------------------------------------------

  /** A line is the text in front of the cursor and the text behind it. Typing adds to the first unless 255 characters
      are there, Backspace takes its last character, the arrows move one character across the cursor, Enter and
      Ctrl-L leave nothing. */
  lemma KeyOnLine(e: Editor, k: Key, front: string, back: string, commands: seq<string>)
    requires EditorOk(e) && e.line == Line(front + back, |front|)
    ensures var r := Press(e, k, commands).line;
            match k
            case Type(c) => r == if |front| + |back| < 255 then Line(front + [c] + back, |front| + 1) else e.line
            case Erasing => r == if front == "" then e.line else Line(front[..|front| - 1] + back, |front| - 1)
            case MoveLeft => r == if front == "" then e.line else Line(front + back, |front| - 1)
            case MoveRight => r == if back == "" then e.line else Line(front + back, |front| + 1)
            case Enter => r == Line("", 0)
            case ClearScreen => r == Line("", 0)
            case _ => true
    ensures !k.Up? && !k.Down? && !k.Enter? ==> Press(e, k, commands).log == e.log
  {
    var l := e.line;
    assert l.text[..l.cursor] == front && l.text[l.cursor..] == back;
    if front != "" {
      assert l.text[..l.cursor - 1] == front[..|front| - 1];
    }
  }

  /** Enter on an empty line changes nothing; any other line joins the history, and navigation starts afresh. */
  lemma EnterOnLog(e: Editor, commands: seq<string>)
    requires EditorOk(e)
    ensures var r := Press(e, Enter, commands).log;
            && (e.line.text == "" ==> r == e.log)
            && (e.line.text != "" ==> |r.pushes| == |e.log.pushes| + 1 && r.cursor == 0 && r.draft == "")
  {
  }

  // ---- Runs -------------------------------------------------------------------------------------

  function Typed(t: string): (keys: seq<Key>)
    ensures |keys| == |t|
  {
    seq(|t|, i requires 0 <= i < |t| => Type(t[i]))
  }

  function Times(k: Key, n: nat): (keys: seq<Key>)
    ensures |keys| == n
  {
    seq(n, _ => k)
  }

  lemma OneMoreKey(keys: seq<Key>, k: Key, commands: seq<string>)
    requires KeysOk(keys) && CommandsOk(commands) && (k.Type? ==> IsPlain(k.c))
    ensures KeysOk(keys + [k]) && AfterKeys(keys + [k], commands) == Press(AfterKeys(keys, commands), k, commands)
    ensures Entered(keys + [k], commands) ==
            if k.Enter? && AfterKeys(keys, commands).line.text != ""
            then Entered(keys, commands) + [AfterKeys(keys, commands).line.text] else Entered(keys, commands)
  {
    assert (keys + [k])[..|keys + [k]| - 1] == keys;
  }

  /** Keys that may be struck, and what more may be. */
  lemma KeysAppend(keys: seq<Key>, more: seq<Key>)
    requires KeysOk(keys) && KeysOk(more)
    ensures KeysOk(keys + more)
  {
  }

  lemma TypedOk(t: string)
    requires PlainText(t)
    ensures KeysOk(Typed(t))
    ensures t != "" ==> PlainText(t[..|t| - 1]) && IsPlain(t[|t| - 1]) && Typed(t) == Typed(t[..|t| - 1]) + [Type(t[|t| - 1])]
  {
  }

  /** Typing a text, whatever was done before, puts it at the cursor. */
  lemma {:induction false} TypingInserts(keys: seq<Key>, front: string, back: string, t: string, commands: seq<string>)
    requires KeysOk(keys) && CommandsOk(commands) && PlainText(t) && |front| + |t| + |back| <= 255
    requires AfterKeys(keys, commands).line == Line(front + back, |front|)
    ensures KeysOk(keys + Typed(t))
    ensures AfterKeys(keys + Typed(t), commands).line == Line(front + t + back, |front| + |t|)
    decreases |t|
  {
    hide AfterKeys, Press, EditorOk, CommandsOk, KeysOk, PlainText, Typed;
    TypedOk(t);
    KeysAppend(keys, Typed(t));
    if t == "" {
      assert keys + Typed(t) == keys && front + t == front;
    } else {
      var init, c := t[..|t| - 1], t[|t| - 1];
      TypingInserts(keys, front, back, init, commands);
      var before := keys + Typed(init);
      assert keys + Typed(t) == before + [Type(c)];
      OneMoreKey(before, Type(c), commands);
      KeyOnLine(AfterKeys(before, commands), Type(c), front + init, back, commands);
      assert front + init + [c] == front + t;
    }
  }

  function Least(a: int, b: int): int {
    if a < b then a else b
  }

  /** The p-th most recent line, as far as the history keeps it, with the cursor at its end. */
  predicate ShowsEntered(l: Line, entered: seq<string>, p: int) {
    0 < p <= |entered| && l == Line(Cut(entered[|entered| - p], 254), |Cut(entered[|entered| - p], 254)|)
  }

  lemma OneMoreTime(keys: seq<Key>, k: Key, n: nat)
    requires n > 0 && KeysOk(keys) && !k.Type?
    ensures keys + Times(k, n) == keys + Times(k, n - 1) + [k] && keys + Times(k, 0) == keys
    ensures KeysOk(keys + Times(k, n)) && KeysOk(keys + Times(k, n - 1))
  {
    assert Times(k, n) == Times(k, n - 1) + [k];
  }

  /** r is e after n Ups: from position j they show the line entered j + n lines ago, or the oldest of the sixteen kept;
      if none was ever entered, the line itself, cut to 254 characters. A line left at position 0 is put aside. */
  predicate UpTo(e: Editor, r: Editor, entered: seq<string>, n: nat) {
    var p, cut := Least(e.log.cursor + n, Least(|entered|, 16)), Cut(e.line.text, 254);
    && r.log.cursor == p
    && (if p > 0 then ShowsEntered(r.line, entered, p) else r.line == Line(cut, |cut|))
    && r.log.draft == if e.log.cursor == 0 then cut else e.log.draft
  }

  /** r is e after n Downs: from position j they show the line entered j - n lines ago, or what was put aside. */
  predicate DownTo(e: Editor, r: Editor, entered: seq<string>, n: nat) {
    var p := if n < e.log.cursor then e.log.cursor - n else 0;
    && r.log.cursor == p && r.log.draft == e.log.draft
    && (if p > 0 then ShowsEntered(r.line, entered, p) else r.line == Line(e.log.draft, |e.log.draft|))
  }

  lemma UpOnce(e: Editor, entered: seq<string>, commands: seq<string>)
    requires EditorOk(e) && Stored(e.log.pushes, entered)
    ensures UpTo(e, Press(e, Up, commands), entered, 1)
    ensures e.log.cursor <= Least(|entered|, 16)
  {
  }

  lemma DownOnce(e: Editor, entered: seq<string>, commands: seq<string>)
    requires EditorOk(e) && Stored(e.log.pushes, entered)
    ensures DownTo(e, Press(e, Down, commands), entered, 1)
  {
  }

  lemma UpMore(e: Editor, m: Editor, r: Editor, entered: seq<string>, n: nat)
    requires UpTo(e, m, entered, n) && UpTo(m, r, entered, 1) && e.log.cursor <= Least(|entered|, 16)
    ensures UpTo(e, r, entered, n + 1)
  {
    hide ShowsEntered;
  }

  lemma DownMore(e: Editor, m: Editor, r: Editor, entered: seq<string>, n: nat)
    requires DownTo(e, m, entered, n) && DownTo(m, r, entered, 1)
    ensures DownTo(e, r, entered, n + 1)
  {
    hide ShowsEntered;
  }

  /** n Ups in any run. */
  lemma {:induction false} UpsShow(keys: seq<Key>, n: nat, commands: seq<string>)
    requires KeysOk(keys) && CommandsOk(commands) && n > 0
    ensures KeysOk(keys + Times(Up, n)) && Entered(keys + Times(Up, n), commands) == Entered(keys, commands)
    ensures UpTo(AfterKeys(keys, commands), AfterKeys(keys + Times(Up, n), commands), Entered(keys, commands), n)
  {
    var before := keys + Times(Up, n - 1);
    OneMoreTime(keys, Up, n);
    hide Times, AfterKeys, Entered, Press, EditorOk, Stored, KeysOk, CommandsOk, UpTo;
    OneMoreKey(before, Up, commands);
    EnteredIsStored(before, commands);
    UpOnce(AfterKeys(before, commands), Entered(before, commands), commands);
    if n > 1 {
      UpsShow(keys, n - 1, commands);
      EnteredIsStored(keys, commands);
      UpOnce(AfterKeys(keys, commands), Entered(keys, commands), commands);
      UpMore(AfterKeys(keys, commands), AfterKeys(before, commands), AfterKeys(before + [Up], commands),
             Entered(keys, commands), n - 1);
    }
  }

  /** n Downs in any run. */
  lemma {:induction false} DownsShow(keys: seq<Key>, n: nat, commands: seq<string>)
    requires KeysOk(keys) && CommandsOk(commands) && n > 0
    ensures KeysOk(keys + Times(Down, n)) && Entered(keys + Times(Down, n), commands) == Entered(keys, commands)
    ensures DownTo(AfterKeys(keys, commands), AfterKeys(keys + Times(Down, n), commands), Entered(keys, commands), n)
  {
    var before := keys + Times(Down, n - 1);
    OneMoreTime(keys, Down, n);
    hide Times, AfterKeys, Entered, Press, EditorOk, Stored, KeysOk, CommandsOk, DownTo;
    OneMoreKey(before, Down, commands);
    EnteredIsStored(before, commands);
    DownOnce(AfterKeys(before, commands), Entered(before, commands), commands);
    if n > 1 {
      DownsShow(keys, n - 1, commands);
      DownMore(AfterKeys(keys, commands), AfterKeys(before, commands), AfterKeys(before + [Down], commands),
               Entered(keys, commands), n - 1);
    }
  }

  /** Up right after Enter: on a line that was not empty it shows that line. */
  lemma UpShowsTheLineEntered(keys: seq<Key>, commands: seq<string>)
    requires KeysOk(keys) && CommandsOk(commands) && AfterKeys(keys, commands).line.text != ""
    ensures var line, r := AfterKeys(keys, commands).line.text, AfterKeys(keys + [Enter] + [Up], commands).line;
            r == Line(Cut(line, 254), |Cut(line, 254)|)
  {
    assert Times(Up, 1) == [Up];
    hide AfterKeys, Entered, Press, EditorOk, KeysOk, CommandsOk, Times;
    OneMoreKey(keys, Enter, commands);
    EnterOnLog(AfterKeys(keys, commands), commands);
    UpsShow(keys + [Enter], 1, commands);
  }

  /** Up right after Enter goes to the line entered last exactly when Enter was pressed on a line that was not empty or
      from position 0, or when there is only that line: an empty line leaves the navigation where it was. */
  lemma UpAfterEnterIff(keys: seq<Key>, commands: seq<string>)
    requires KeysOk(keys) && CommandsOk(commands) && Entered(keys + [Enter], commands) != []
    ensures var e := AfterKeys(keys, commands);
            AfterKeys(keys + [Enter] + [Up], commands).log.cursor == 1
            <==> e.line.text != "" || e.log.cursor == 0 || |Entered(keys, commands)| == 1
  {
    assert Times(Up, 1) == [Up];
    hide AfterKeys, Entered, Press, EditorOk, KeysOk, CommandsOk, Stored, Times, ShowsEntered;
    OneMoreKey(keys, Enter, commands);
    EnterOnLog(AfterKeys(keys, commands), commands);
    EnteredIsStored(keys, commands);
    UpOnce(AfterKeys(keys, commands), Entered(keys, commands), commands);
    UpsShow(keys + [Enter], 1, commands);
  }

  /** From position 0 as many Downs as Ups bring the line back, cut to 254 characters: the same line exactly when it
      is no longer. */
  lemma DownsUndoUps(keys: seq<Key>, n: nat, commands: seq<string>)
    requires KeysOk(keys) && CommandsOk(commands) && n > 0 && AfterKeys(keys, commands).log.cursor == 0
    ensures var line, r := AfterKeys(keys, commands).line.text, AfterKeys(keys + Times(Up, n) + Times(Down, n), commands).line;
            r == Line(Cut(line, 254), |Cut(line, 254)|) && (r.text == line <==> |line| <= 254)
  {
    hide AfterKeys, Entered, EditorOk, KeysOk, CommandsOk;
    UpsShow(keys, n, commands);
    DownsShow(keys + Times(Up, n), n, commands);
  }

  // ---- Completion -------------------------------------------------------------------------------

  /** A command is among the matches exactly when it is in the list and starts with the text. */
  lemma {:induction false} MatchesAre(commands: seq<string>, prefix: string, c: string)
    ensures c in Matches(commands, prefix) <==> c in commands && prefix <= c
  {
    if commands != [] {
      var init, last := commands[..|commands| - 1], commands[|commands| - 1];
      assert commands == init + [last];
      MatchesAre(init, prefix, c);
    }
  }

  /** Behind a name, two blanks and another text are read as that name and the words of the text. */
  lemma NameRead(name: string, rest: string)
    requires Words.IsWord(name)
    ensures Words.WordsOf(name + "  " + rest) == [name] + Words.WordsOf(rest)
  {
    assert name[0] in name;
    var behind := "  " + rest;
    var s := name + behind;
    assert name + "  " + rest == s;
    Words.WordEndIs(name, behind);
    assert s[..|name|] == name && s[|name|..] == behind;
    assert behind[1..] == " " + rest && behind[1..][1..] == rest;
    assert Words.WordsOf(behind) == Words.WordsOf(behind[1..]) == Words.WordsOf(rest);
  }

  lemma {:induction false} ListingAppend(ms: seq<string>, name: string)
    ensures Listing([name] + ms) == name + "  " + Listing(ms)
  {
    if ms == [] {
      assert [name] + ms == [name] && [name][..0] == [];
    } else {
      var init := ms[..|ms| - 1];
      ListingAppend(init, name);
      var all := [name] + ms;
      assert all[..|ms|] == [name] + init && all[|ms|] == ms[|ms| - 1];
      assert Listing(all) == name + "  " + Listing(init) + ms[|ms| - 1] + "  ";
    }
  }

  /** The listing is read back as the names, in order. */
  lemma {:induction false} ListingNames(ms: seq<string>)
    requires forall k :: 0 <= k < |ms| ==> Words.IsWord(ms[k])
    ensures Words.WordsOf(Listing(ms)) == ms
  {
    if ms != [] {
      ListingNames(ms[1..]);
      assert ms == [ms[0]] + ms[1..];
      ListingAppend(ms[1..], ms[0]);
      NameRead(ms[0], Listing(ms[1..]));
    }
  }

  /** A listing Tab prints a row that is read as the first 32 matching commands, then the prompt and the line. */
  lemma ListingOutput(l: Line, commands: seq<string>, prompt: string) returns (names: string)
    requires l.cursor <= |l.text| && Listed(l, commands)
    requires forall k :: 0 <= k < |commands| ==> Words.IsWord(commands[k])
    ensures CompletionOutput(l, commands, prompt) == "\n" + names + "\n" + prompt + l.text
    ensures var ms := Matches(commands, l.text[..l.cursor]);
            Words.WordsOf(names) == if |ms| <= 32 then ms else ms[..32]
  {
    var ms := Matches(commands, l.text[..l.cursor]);
    var shown := if |ms| <= MAX_MATCHES then ms else ms[..MAX_MATCHES];
    names := Listing(shown);
    forall k | 0 <= k < |shown|
      ensures Words.IsWord(shown[k])
    {
      assert ms[k] in ms;
      MatchesAre(commands, l.text[..l.cursor], ms[k]);
    }
    ListingNames(shown);
    hide Matches, Lcp, Listing;
  }

  /** Tab with a space in front of the cursor, or text that no command starts with, does nothing. */
  lemma TabDoesNothing(l: Line, commands: seq<string>, prompt: string)
    requires l.cursor <= |l.text|
    requires ' ' in l.text[..l.cursor] || forall k :: 0 <= k < |commands| ==> !(l.text[..l.cursor] <= commands[k])
    ensures Complete(l, commands) == l && CompletionOutput(l, commands, prompt) == "" && !Listed(l, commands)
  {
    var ms := Matches(commands, l.text[..l.cursor]);
    if ms != [] {
      assert ms[0] in ms;
      MatchesAre(commands, l.text[..l.cursor], ms[0]);
    }
    hide Matches, Lcp;
  }
}
