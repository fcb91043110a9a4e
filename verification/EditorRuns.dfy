/** Whole runs of the line editor with its history, and what a key that edits in place does to the screen, over
    the values the shell's keys are proved to compute. */
module EditorRuns {

  import opened Machine
  import opened CStrings
  import opened LineEditor
  import opened Screen
  import opened Display
  import History

  datatype Key = Type(c: char) | Erasing | MoveLeft | MoveRight | Up | Down | Tab | Enter | ClearScreen

  datatype Editor = Editor(line: Line, log: History.Log)

  const START: Editor := Editor(EMPTY, History.Log([], 0, ""))

  function ShowEntry(log: History.Log): Editor {
    Editor(Line(History.Current(log), |History.Current(log)|), log)
  }

  /** What each key does; LineShell's methods are proved to do this to buffer and history. */
  function Press(e: Editor, k: Key, commands: seq<string>): Editor
    requires LineOk(e.line)
  {
    match k
    case Type(c) => e.(line := Insert(e.line, c))
    case Erasing => e.(line := Erase(e.line))
    case MoveLeft => e.(line := Left(e.line))
    case MoveRight => e.(line := Right(e.line))
    case Up => ShowEntry(History.Prev(e.log, e.line.text))
    case Down => ShowEntry(History.Next(e.log))
    case Tab => e.(line := Complete(e.line, commands))
    case Enter => Editor(EMPTY, History.Push(e.log, e.line.text))
    case ClearScreen => e.(line := EMPTY)
  }

  /** At most 255 plain characters with the cursor among them; every stored line plain, at most 254 long. */
  predicate EditorOk(e: Editor) {
    && LineOk(e.line) && PlainText(e.line.text)
    && e.log.cursor <= History.Reachable(e.log)
    && PlainText(e.log.draft) && |e.log.draft| <= History.KEPT
    && forall k :: 0 <= k < |e.log.pushes| ==>
         PlainText(e.log.pushes[k]) && 0 < |e.log.pushes[k]| <= History.KEPT
  }

  predicate KeysOk(keys: seq<Key>) {
    forall k :: 0 <= k < |keys| && keys[k].Type? ==> IsPlain(keys[k].c)
  }

  lemma PressKeepsOk(e: Editor, k: Key, commands: seq<string>)
    requires EditorOk(e) && CommandsOk(commands) && (k.Type? ==> IsPlain(k.c))
    ensures EditorOk(Press(e, k, commands))
  {
    match k
    case Tab =>
      var prefix := e.line.text[..e.line.cursor];
      var ms := Matches(commands, prefix);
      MatchesOk(commands, prefix);
      hide Matches, Lcp;
      assert |ms| > 1 ==> PlainText(ms[0][..Lcp(ms)]);
      assert |ms| == 1 ==> PlainText(ms[0] + " ");
    case _ =>
  }

  /** The editor after a run of keys. */
  function AfterKeys(keys: seq<Key>, commands: seq<string>): (e: Editor)
    requires KeysOk(keys) && CommandsOk(commands)
    ensures EditorOk(e)
  {
    if keys == [] then START
    else
      var e := AfterKeys(keys[..|keys| - 1], commands);
      PressKeepsOk(e, keys[|keys| - 1], commands);
      Press(e, keys[|keys| - 1], commands)
  }

  /** The non-empty lines entered in a run of keys, oldest first. */
  function Entered(keys: seq<Key>, commands: seq<string>): seq<string>
    requires KeysOk(keys) && CommandsOk(commands)
  {
    if keys == [] then []
    else
      var init := keys[..|keys| - 1];
      var line := AfterKeys(init, commands).line.text;
      if keys[|keys| - 1].Enter? && line != "" then Entered(init, commands) + [line] else Entered(init, commands)
  }

  /** The stored commands are the entered lines, each cut to 254 characters. */
  predicate Stored(pushes: seq<string>, entered: seq<string>) {
    |pushes| == |entered| && forall k :: 0 <= k < |entered| ==> pushes[k] == Cut(entered[k], History.KEPT)
  }

  lemma {:induction false} EnteredIsStored(keys: seq<Key>, commands: seq<string>)
    requires KeysOk(keys) && CommandsOk(commands)
    ensures Stored(AfterKeys(keys, commands).log.pushes, Entered(keys, commands))
  {
    if keys != [] {
      hide Press, EditorOk, CommandsOk, IsPlain;
      EnteredIsStored(keys[..|keys| - 1], commands);
      var e := AfterKeys(keys[..|keys| - 1], commands);
      AfterKeysLine(keys[..|keys| - 1], commands);
      PressLog(e, keys[|keys| - 1], commands);
    }
  }

  lemma AfterKeysLine(keys: seq<Key>, commands: seq<string>)
    requires KeysOk(keys) && CommandsOk(commands)
    ensures var e := AfterKeys(keys, commands); LineOk(e.line) && e.log.cursor <= |e.log.pushes|
  {
  }

  /** After any run the history holds exactly the non-empty lines entered, each cut to 254 characters, and
      navigation position k shows the k-th most recent of them. */
  lemma HistoryHoldsWhatWasEntered(keys: seq<Key>, commands: seq<string>)
    requires KeysOk(keys) && CommandsOk(commands)
    ensures var entered, log := Entered(keys, commands), AfterKeys(keys, commands).log;
            && Stored(log.pushes, entered)
            && (log.cursor > 0 ==> log.cursor <= |entered|
                                   && History.Current(log) == Cut(entered[|entered| - log.cursor], History.KEPT))
  {
    hide AfterKeys, Entered, Stored, EditorOk, KeysOk, CommandsOk, History.Current, Cut;
    EnteredIsStored(keys, commands);
    AfterKeysLine(keys, commands);
    CurrentIsStored(AfterKeys(keys, commands).log, Entered(keys, commands));
  }

  lemma CurrentIsStored(log: History.Log, entered: seq<string>)
    requires Stored(log.pushes, entered) && log.cursor <= |log.pushes|
    ensures log.cursor <= |entered|
    ensures log.cursor > 0 ==> History.Current(log) == Cut(entered[|entered| - log.cursor], History.KEPT)
  {
  }

  /** Down with nothing newer to show replaces the line by what was put aside last: the line survives exactly when
      that is the same text. */
  lemma DownKeepsTheLineIff(e: Editor, commands: seq<string>)
    requires EditorOk(e) && e.log.cursor == 0
    ensures Press(e, Down, commands).line.text == e.line.text <==> e.line.text == e.log.draft
    ensures Press(e, Down, commands).log == e.log
  {
  }

  /** Typing "a" and then Down, with nothing entered before, gives an empty line. */
  lemma DownLosesTheLine()
    ensures AfterKeys([Type('a')], []).line == Line("a", 1)
    ensures AfterKeys([Type('a'), Down], []).line == EMPTY
  {
    assert [Type('a')][..0] == [] && [Type('a'), Down][..1] == [Type('a')];
    assert AfterKeys([], []) == START;
    assert AfterKeys([Type('a')], []) == Press(START, Type('a'), []);
  }

  /** Only Enter on a non-empty line adds to the history. */
  lemma PressLog(e: Editor, k: Key, commands: seq<string>)
    requires LineOk(e.line)
    ensures Press(e, k, commands).log.pushes ==
            if k.Enter? && e.line.text != "" then e.log.pushes + [Cut(e.line.text, History.KEPT)] else e.log.pushes
  {
  }

  // ---- The screen of a key ----------------------------------------------------------------------

  /** A key that edits the line where it stands. */
  predicate InPlace(k: Key) {
    !k.Enter? && !k.ClearScreen? && !k.Tab? && (k.Type? ==> IsPlain(k.c))
  }

  /** What such a key does to the screen; LineShell's methods are proved to do this to the terminal. */
  function Draw(g: Grid, e: Editor, k: Key, commands: seq<string>): (r: Grid)
    requires GridOk(g) && LineOk(e.line)
    ensures GridOk(r)
  {
    match k
    case Type(c) => DrawInsert(g, e.line, c)
    case Erasing => DrawErase(g, e.line)
    case MoveLeft => DrawLeft(g, e.line)
    case MoveRight => DrawRight(g, e.line)
    case Up => DrawReplace(g, e.line, Press(e, Up, commands).line.text)
    case Down => DrawReplace(g, e.line, Press(e, Down, commands).line.text)
    case _ => g
  }

  /** The line is redrawn across wraps and scrolls: the new line is shown, the cells in front of it are what they
      were, and if nothing stood behind the line nothing stands behind it afterwards. */
  lemma KeyRedraws(g: Grid, origin: int, e: Editor, k: Key, commands: seq<string>) returns (n: nat)
    requires EditorOk(e) && CommandsOk(commands) && InPlace(k) && Displays(g, origin, e.line)
    ensures Redrawn(g, origin, e.line, Draw(g, e, k, commands), Press(e, k, commands).line, n)
  {
    PressKeepsOk(e, k, commands);
    hide Redrawn, Displays, DrawInsert, DrawErase, DrawReplace, DrawLeft, DrawRight;
    n := 0;
    match k
    case Type(c) => n := InsertDisplayed(g, origin, e.line, c);
    case Erasing => EraseDisplayed(g, origin, e.line);
    case MoveLeft => LeftDisplayed(g, origin, e.line);
    case MoveRight => RightDisplayed(g, origin, e.line);
    case Up => n := ReplaceDisplayed(g, origin, e.line, Press(e, Up, commands).line.text);
    case Down => n := ReplaceDisplayed(g, origin, e.line, Press(e, Down, commands).line.text);
    case _ =>
  }
}
