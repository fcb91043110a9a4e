/** What stays on the screen behind the edited line. */
module Remains {

  import opened LineEditor
  import opened Screen
  import opened Display
  import opened EditorRuns
  import opened ConsoleRuns
  import opened Prompts
  import opened CStrings
  import Ansi
  import History
  import Words

  /** The cells behind the line are blank. */
  predicate NothingBehind(s: Shell) {
    BlankFrom(s.console.grid, s.console.grid.pos - s.editor.line.cursor + |s.editor.line.text|)
  }

  /** The line's text from place n of the screen on is blank. */
  predicate LineBlankFrom(g: Grid, l: Line, n: int) {
    forall i :: 0 <= i < |l.text| && n <= g.pos - l.cursor + i ==> l.text[i] == ' '
  }

  /** The place below the cursor's row. */
  function RowBelow(g: Grid): int {
    (g.pos / WIDTH + 1) * WIDTH
  }

  // ---- One key --------------------------------------------------------------------------------

  /** From a blank rest of the screen a newline finds blank rows exactly when the text below the cursor's row is
      blank. */
  lemma NewLineLeavesNothingIff(g: Grid, origin: int, l: Line)
    requires Displays(g, origin, l) && BlankFrom(g, origin + |l.text|)
    ensures var r := PutRaw(g, '\n'); BlankFrom(r, r.pos) <==> LineBlankFrom(g, l, RowBelow(g))
  {
    BlankCellsIff(g, origin, l, RowBelow(g));
  }

  /** Behind a place on the screen there is nothing exactly when the text there is blank. */
  lemma BlankCellsIff(g: Grid, origin: int, l: Line, n: int)
    requires Displays(g, origin, l) && BlankFrom(g, origin + |l.text|) && 0 <= n
    ensures l.cursor <= |l.text| && (n >= origin ==> (BlankFrom(g, n) <==> LineBlankFrom(g, l, n)))
  {
    if n >= origin && LineBlankFrom(g, l, n) {
      forall j | n <= j < |g.cells|
        ensures g.cells[j].ch == ' '
      {
        if j < origin + |l.text| {
          assert g.cells[origin + (j - origin)].ch == l.text[j - origin];
        }
      }
    }
    if n >= origin && BlankFrom(g, n) {
      forall i | 0 <= i < |l.text| && n <= origin + i
        ensures l.text[i] == ' '
      {
        assert g.cells[origin + i].ch == l.text[i];
      }
    }
  }

  /** Text without newlines covers its own cells and no others. */
  lemma WriteLeavesNothingIff(g: Grid, text: string)
    requires GridOk(g) && '\n' !in text
    ensures BlankFrom(PutAll(g, text), PutAll(g, text).pos) <==> BlankFrom(g, g.pos + |text|)
  {
    var k := WriteKeeps(g, text, g.pos + |text|);
    if g.pos + |text| < CELLS {
      WriteKeepsBehind(g, text);
    }
  }

  /** Enter on a line whose command prints nothing leaves nothing behind the new prompt exactly when the text of the
      line beyond the place where that prompt ends was blank. */
  lemma SilentEnterLeavesNothingIff(s: Shell, origin: int, k: Stroke, commands: seq<string>, plain: string)
    requires ShellOk(s) && k.key.Enter? && (Executes(s, k) ==> k.output == "")
    requires Reads(PromptAfter(s, k), plain) && '\n' !in plain
    requires Displays(s.console.grid, origin, s.editor.line) && NothingBehind(s)
    ensures NothingBehind(After(s, k, commands))
            <==> LineBlankFrom(s.console.grid, s.editor.line, RowBelow(s.console.grid) + |plain|)
  {
    var c, g := s.console, s.console.grid;
    var h := PutRaw(g, '\n');
    assert "\n" + "" == "\n";
    Ansi.FeedAppend(c, "\n", PromptAfter(s, k));
    Ansi.FeedOne(c, '\n');
    hide Ansi.Feed, PutAll;
    var r := ConsoleAfter(s, k, commands).grid;
    assert SameText(r, PutAll(h, plain));
    WriteLeavesNothingIff(h, plain);
    BlankCellsIff(g, origin, s.editor.line, RowBelow(g) + |plain|);
    assert BlankFrom(h, h.pos + |plain|) <==> BlankFrom(g, RowBelow(g) + |plain|);
  }

  /** A Tab that lists nothing leaves nothing behind the line exactly when the line's text beyond the completion was
      blank. */
  lemma CompletionLeavesNothingIff(s: Shell, origin: int, k: Stroke, commands: seq<string>)
    requires ShellOk(s) && CommandsOk(commands) && k.key.Tab? && !Listed(s.editor.line, commands)
    requires Displays(s.console.grid, origin, s.editor.line) && NothingBehind(s)
    ensures NothingBehind(After(s, k, commands)) <==> CompletionCovers(s.editor.line, commands)
  {
    var l, q := s.editor.line, Complete(s.editor.line, commands);
    var r := ConsoleAfter(s, k, commands).grid;
    hide Ansi.Feed, CompletionOutput, Listed, Complete, Overwritten;
    var n := CompletionShows(s, origin, commands);
    OverwrittenDisplays(View(s.console.grid, origin, l), View(r, origin - n * WIDTH, q), n);
    OverwrittenLeavesNothingIff(View(s.console.grid, origin, l), View(r, origin - n * WIDTH, q), n);
  }

  /** What the completed line does not cover of the line is blank. */
  predicate CompletionCovers(l: Line, commands: seq<string>)
    requires l.cursor <= |l.text|
  {
    forall i :: |Complete(l, commands).text| <= i < |l.text| ==> l.text[i] == ' '
  }

  /** A key behind which nothing stays: no text of the line below the cursor's row when it is entered, none beyond
      the completion; outputs and prompts that leave nothing themselves. */
  ghost predicate Tidy(s: Shell, k: Stroke, commands: seq<string>)
    requires LineOk(s.editor.line)
  {
    match k.key
    case Enter =>
      && LineBlankFrom(s.console.grid, s.editor.line, RowBelow(s.console.grid))
      && (Executes(s, k) ==> LeavesBlank(k.output)) && LeavesBlank(PromptAfter(s, k))
    case ClearScreen => LeavesBlank(s.prompt)
    case Tab => if Listed(s.editor.line, commands) then LeavesBlank(s.prompt) else CompletionCovers(s.editor.line, commands)
    case _ => true
  }

  lemma FeedLeavesBlank(c: Ansi.Console, a: string, b: string)
    requires Ansi.ConsoleOk(c) && Ansi.Feed(c, a).parser == Ansi.Normal && LeavesBlank(b)
    requires var r := Ansi.Feed(c, a).grid; BlankFrom(r, r.pos)
    ensures var r := Ansi.Feed(c, a + b).grid; BlankFrom(r, r.pos)
  {
    Ansi.FeedAppend(c, a, b);
  }

  lemma TidyEnter(s: Shell, origin: int, k: Stroke, commands: seq<string>)
    requires ShellOk(s) && StrokeOk(s, k) && k.key.Enter? && Tidy(s, k, commands)
    requires Displays(s.console.grid, origin, s.editor.line) && NothingBehind(s)
    ensures NothingBehind(After(s, k, commands))
  {
    var c := s.console;
    var output := if Executes(s, k) then k.output else "";
    NewLineLeavesNothingIff(c.grid, origin, s.editor.line);
    Ansi.FeedOne(c, '\n');
    NewLineReturns(c);
    assert "\n" + "" == "\n";
    Ansi.FeedAppend(c, "\n", output);
    if Executes(s, k) {
      FeedLeavesBlank(c, "\n", output);
      FeedReturns(Ansi.Feed(c, "\n"), output);
    }
    hide LeavesBlank, Ansi.ReturnsToNormal, Ansi.Feed, BlankFrom;
    FeedLeavesBlank(c, "\n" + output, PromptAfter(s, k));
  }

  lemma TidyListing(s: Shell, origin: int, k: Stroke, commands: seq<string>)
    requires ShellOk(s) && CommandsOk(commands) && k.key.Tab? && Listed(s.editor.line, commands)
    requires Tidy(s, k, commands) && KeepsShown(s, k, commands)
    requires Displays(s.console.grid, origin, s.editor.line) && NothingBehind(s)
    ensures NothingBehind(After(s, k, commands))
  {
    var c, l := s.console, s.editor.line;
    var listing := ListedIsPlain(l, commands, s.prompt);
    ListingLeavesBlank(c, origin, l, listing, s.prompt);
    var n := ListingShows(s, commands);
    assert Complete(l, commands) == l == Line(l.text, |l.text|);
    hide Ansi.Feed, Relisting, Listed, Complete, CompletionOutput, LeavesBlank;
  }

  /** The newline, the matches, another newline and the prompt, from the end of the line on. */
  lemma ListingLeavesBlank(c: Ansi.Console, origin: int, l: Line, listing: string, prompt: string)
    requires Ansi.ConsoleOk(c) && c.parser == Ansi.Normal && PlainText(listing) && LeavesBlank(prompt)
    requires Displays(c.grid, origin, l) && l.cursor == |l.text| && BlankFrom(c.grid, origin + |l.text|)
    ensures var r := Ansi.Feed(c, "\n" + listing + "\n" + prompt).grid; BlankFrom(r, r.pos)
  {
    PlainHasNoNewline(listing);
    var printed := "\n" + listing + "\n";
    Ansi.FeedPlain(c, printed);
    PutAllLeavesBlank(c.grid, printed);
    FeedLeavesBlank(c, printed, prompt);
  }

  /** Such a key keeps the screen behind the line blank. */
  lemma TidyLeavesNothing(s: Shell, origin: int, k: Stroke, commands: seq<string>)
    requires ShellOk(s) && CommandsOk(commands) && StrokeOk(s, k) && KeepsShown(s, k, commands) && Tidy(s, k, commands)
    requires Displays(s.console.grid, origin, s.editor.line) && NothingBehind(s)
    ensures NothingBehind(After(s, k, commands))
  {
    match k.key
    case Enter => TidyEnter(s, origin, k, commands);
    case ClearScreen =>
      var c := s.console.(grid := Clear(s.console.grid));
      assert BlankFrom(c.grid, c.grid.pos);
    case Tab =>
      if Listed(s.editor.line, commands) {
        TidyListing(s, origin, k, commands);
      } else {
        CompletionLeavesNothingIff(s, origin, k, commands);
      }
    case _ =>
      hide Draw, Press;
      var n := KeyRedraws(s.console.grid, origin, s.editor, k.key, commands);
  }

  // ---- Every run --------------------------------------------------------------------------------

  /** Every key of the run is tidy when its turn comes. */
  ghost predicate TidyRun(s: Shell, strokes: seq<Stroke>, commands: seq<string>)
    requires ShellOk(s) && CommandsOk(commands) && IsRun(s, strokes, commands)
    decreases |strokes|
  {
    strokes == []
    || (Tidy(s, strokes[0], commands)
        && (StrokeKeepsOk(s, strokes[0], commands); TidyRun(After(s, strokes[0], commands), strokes[1..], commands)))
  }

  /** Over every run of such keys the screen shows the line behind the last prompt and nothing else behind that
      prompt. */
  lemma {:induction false} ScreenShowsNothingElse(s: Shell, base: Grid, n: nat, strokes: seq<Stroke>, commands: seq<string>)
      returns (m: nat)
    requires ShellOk(s) && CommandsOk(commands) && IsRun(s, strokes, commands) && TidyRun(s, strokes, commands)
    requires Stands(base, s.console.grid, s.editor.line, n) && NothingBehind(s)
    ensures var r := Run(s, strokes, commands);
            Stands(PromptOfRun(s, base, strokes, commands), r.console.grid, r.editor.line, m) && NothingBehind(r)
    decreases |strokes|
  {
    m := n;
    if strokes != [] {
      TidyLeavesNothing(s, base.pos - n * WIDTH, strokes[0], commands);
      hide ShellOk, After, Stands, StrokeOk, CommandsOk, LastPrompt, Tidy, NothingBehind;
      m := StrokeShows(s, base, n, strokes[0], commands);
      StrokeKeepsOk(s, strokes[0], commands);
      m := ScreenShowsNothingElse(After(s, strokes[0], commands), LastPrompt(s, base, strokes[0], commands), m,
                                  strokes[1..], commands);
    }
  }

  // ---- An instance ------------------------------------------------------------------------------

  const SHORT_PROMPT: string := "[root@auri-os ~]$ "

  /** "mmap" and 95 characters behind it. */
  function LongText(): (t: string)
    ensures |t| == 100 && PlainText(t) && forall i :: 5 <= i < 100 ==> t[i] == 'x'
  {
    "mmap " + seq(95, _ => 'x')
  }

  function LongGrid(): (g: Grid)
    ensures GridOk(g)
  {
    MoveCursor(PutAll(Clear(Grid([], 0, 7)), SHORT_PROMPT + LongText()), -100)
  }

  /** The long line behind the first prompt of a cleared screen, the cursor moved back to its start. */
  function LongLine(): Shell {
    Shell(Editor(Line(LongText(), 0), History.Log([], 0, "")), Ansi.Console(Ansi.Normal, Ansi.INITIAL_COLOR, LongGrid()),
          Prompt("root", "auri-os"))
  }

  /** Enter there, where the command prints nothing: the line is empty, and behind the new prompt stand twenty
      characters of the old one. */
  lemma EnterLeavesTheTail()
    ensures var s, k := LongLine(), Stroke(Enter, "", Prompt("root", "auri-os"));
            && ShellOk(s) && StrokeOk(s, k) && Displays(s.console.grid, 18, s.editor.line) && NothingBehind(s)
            && var r := After(s, k, COMMAND_LIST);
            && r.editor.line == EMPTY && r.console.grid.pos == 98
            && (forall i :: 98 <= i < 118 ==> r.console.grid.cells[i].ch == 'x') && !NothingBehind(r)
  {
    hide LongGrid, LongText, Prompt, Reads, LeavesBlank, Displays, Ansi.Feed, Ansi.ReturnsToNormal, Words.Args, ShellOk, Shows;
    var s, k := LongLine(), Stroke(Enter, "", Prompt("root", "auri-os"));
    LongLineOk();
    TailStaysBehind(s.console, LongText(), s.prompt, SHORT_PROMPT);
    assert "\n" + "" + s.prompt == "\n" + s.prompt;
    assert ConsoleAfter(s, k, COMMAND_LIST).grid.cells[98].ch == 'x';
  }

  lemma LongLineOk()
    ensures var s, k := LongLine(), Stroke(Enter, "", Prompt("root", "auri-os"));
            && ShellOk(s) && StrokeOk(s, k) && Displays(s.console.grid, 18, s.editor.line) && NothingBehind(s)
            && Ansi.ConsoleOk(s.console) && s.console.grid.pos == 18 && Shows(s.console.grid, 18, LongText())
            && Reads(s.prompt, SHORT_PROMPT) && '\n' !in SHORT_PROMPT
  {
    hide LongGrid, Prompt, Reads, LeavesBlank, Ansi.Feed;
    PromptReads("root", "auri-os");
    assert "[" + "root" + "@" + "auri-os" + " ~]$ " == SHORT_PROMPT;
    LongGridShows();
    PlainReads("");
    ReadableText("", "");
  }

  /** A line from place 18 on, a newline and a prompt of 18 characters. */
  lemma TailStaysBehind(c: Ansi.Console, text: string, prompt: string, plain: string)
    requires Ansi.ConsoleOk(c) && c.parser == Ansi.Normal && c.grid.pos == 18 && Shows(c.grid, 18, text) && |text| == 100
    requires Reads(prompt, plain) && |plain| == 18 && '\n' !in plain
    ensures var r := Ansi.Feed(c, "\n" + prompt).grid;
            r.pos == 98 && forall i :: 98 <= i < 118 ==> r.cells[i].ch == text[i - 18]
  {
    var g, h := c.grid, PutRaw(c.grid, '\n');
    Ansi.FeedAppend(c, "\n", prompt);
    Ansi.FeedOne(c, '\n');
    hide Ansi.Feed, PutAll;
    assert SameText(Ansi.Feed(c, "\n" + prompt).grid, PutAll(h, plain));
    WriteKeepsBehind(h, plain);
    forall i | 98 <= i < 118
      ensures g.cells[i].ch == text[i - 18]
    {
      assert g.cells[18 + (i - 18)].ch == text[i - 18];
    }
  }

  lemma LongGridShows()
    ensures Displays(LongGrid(), 18, Line(LongText(), 0)) && LongGrid().pos == 18 && BlankFrom(LongGrid(), 118)
  {
    hide PutAll, LongText;
    var g := Clear(Grid([], 0, 7));
    var text := SHORT_PROMPT + LongText();
    var o, j := WriteShows(g, 0, "", text);
    assert "" + text == text;
    var k := WriteKeeps(g, text, 0);
    LaterShows(PutAll(g, text), SHORT_PROMPT, LongText());
  }

  lemma LaterShows(g: Grid, a: string, b: string)
    requires Shows(g, 0, a + b)
    ensures Shows(g, |a|, b)
  {
    forall i | 0 <= i < |b|
      ensures g.cells[|a| + i].ch == b[i]
    {
      assert g.cells[0 + (|a| + i)].ch == (a + b)[|a| + i];
    }
  }
}
