/** Whole runs of the shell's console: every key with its effect on line, history, prompt and screen. */
module ConsoleRuns {

  import opened CStrings
  import opened LineEditor
  import opened Screen
  import opened Display
  import opened EditorRuns
  import Ansi
  import History
  import Words

  /** A key, and should it execute a line, what the command prints and the prompt it leaves. */
  datatype Stroke = Stroke(key: Key, output: string, newPrompt: string)

  datatype Shell = Shell(editor: Editor, console: Ansi.Console, prompt: string)

  ghost predicate ShellOk(s: Shell) {
    && EditorOk(s.editor)
    && Ansi.ConsoleOk(s.console) && s.console.parser == Ansi.Normal
    && Ansi.ReturnsToNormal(s.prompt)
  }

  /** Keys insert plain characters, and what commands print is complete. */
  ghost predicate StrokeOk(s: Shell, k: Stroke) {
    && LineOk(s.editor.line)
    && (k.key.Type? ==> IsPlain(k.key.c))
    && Ansi.ReturnsToNormal(k.output) && Ansi.ReturnsToNormal(k.newPrompt)
  }

  /** The one key after which screen and line disagree is a Tab that lists its matches with the cursor inside the
      line (LineShell.TabKey says what the screen shows then). */
  predicate KeepsShown(s: Shell, k: Stroke, commands: seq<string>)
    requires LineOk(s.editor.line)
  {
    k.key.Tab? && Listed(s.editor.line, commands) ==> s.editor.line.cursor == |s.editor.line.text|
  }

  /** A line without words executes nothing. */
  predicate Executes(s: Shell, k: Stroke) {
    k.key.Enter? && Words.Args(s.editor.line.text) != []
  }

  function PromptAfter(s: Shell, k: Stroke): string {
    if Executes(s, k) then k.newPrompt else s.prompt
  }

  /** The console after a key. */
  ghost function ConsoleAfter(s: Shell, k: Stroke, commands: seq<string>): Ansi.Console
    requires ShellOk(s)
  {
    match k.key
    case Enter => Ansi.Feed(s.console, "\n" + (if Executes(s, k) then k.output else "") + PromptAfter(s, k))
    case ClearScreen => Ansi.Feed(s.console.(grid := Clear(s.console.grid)), s.prompt)
    case Tab => Ansi.Feed(s.console, CompletionOutput(s.editor.line, commands, s.prompt))
    case _ => s.console.(grid := Draw(s.console.grid, s.editor, k.key, commands))
  }

  /** What a key makes of the shell; LineShell's methods are proved to do this. */
  ghost function After(s: Shell, k: Stroke, commands: seq<string>): Shell
    requires ShellOk(s)
  {
    Shell(Press(s.editor, k.key, commands), ConsoleAfter(s, k, commands), PromptAfter(s, k))
  }

  // ---- One key --------------------------------------------------------------------------------

  lemma FeedReturns(c: Ansi.Console, text: string)
    requires Ansi.ConsoleOk(c) && c.parser == Ansi.Normal && Ansi.ReturnsToNormal(text)
    ensures Ansi.ConsoleOk(Ansi.Feed(c, text)) && Ansi.Feed(c, text).parser == Ansi.Normal
  {
  }

  lemma NewLineReturns(c: Ansi.Console)
    requires Ansi.ConsoleOk(c) && c.parser == Ansi.Normal
    ensures Ansi.ConsoleOk(Ansi.Feed(c, "\n")) && Ansi.Feed(c, "\n").parser == Ansi.Normal
  {
    Ansi.FeedOne(c, '\n');
  }

  lemma EnterReturns(s: Shell, k: Stroke)
    requires ShellOk(s) && Ansi.ReturnsToNormal(k.output) && Ansi.ReturnsToNormal(k.newPrompt)
    ensures var printed := "\n" + (if Executes(s, k) then k.output else "") + PromptAfter(s, k);
            Ansi.Feed(s.console, printed).parser == Ansi.Normal
  {
    hide Ansi.Feed, Ansi.ConsoleOk, Ansi.ReturnsToNormal, EditorOk, Words.Args;
    var c := s.console;
    var output := if Executes(s, k) then k.output else "";
    NewLineReturns(c);
    Ansi.FeedAppend(c, "\n", output);
    Ansi.FeedAppend(c, "\n" + output, PromptAfter(s, k));
    if Executes(s, k) {
      FeedReturns(Ansi.Feed(c, "\n"), output);
    } else {
      assert "\n" + "" == "\n";
    }
    FeedReturns(Ansi.Feed(c, "\n" + output), PromptAfter(s, k));
  }

  lemma {:induction false} ListingIsPlain(ms: seq<string>)
    requires CommandsOk(ms)
    ensures PlainText(Listing(ms))
  {
    if ms != [] {
      ListingIsPlain(ms[..|ms| - 1]);
    }
  }

  /** Plain text goes through the parser to the screen unchanged. */
  lemma PlainFeed(c: Ansi.Console, text: string)
    requires Ansi.ConsoleOk(c) && c.parser == Ansi.Normal && PlainText(text)
    ensures Ansi.Feed(c, text) == c.(grid := PutAll(c.grid, text))
  {
    PlainHasNoNewline(text);
    Ansi.FeedPlain(c, text);
  }

  /** What a listing Tab prints in front of the line. */
  function Relisting(l: Line, commands: seq<string>, prompt: string): string
    requires l.cursor <= |l.text|
  {
    var ms := Matches(commands, l.text[..l.cursor]);
    "\n" + Listing(if |ms| <= MAX_MATCHES then ms else ms[..MAX_MATCHES]) + "\n" + prompt
  }

  lemma ListingReturns(c: Ansi.Console, listing: string, prompt: string)
    requires Ansi.ConsoleOk(c) && c.parser == Ansi.Normal && PlainText(listing) && Ansi.ReturnsToNormal(prompt)
    ensures Ansi.Feed(c, "\n" + listing + "\n" + prompt).parser == Ansi.Normal
  {
    hide Ansi.Feed, PlainText, Ansi.ReturnsToNormal, PutAll;
    NewLineReturns(c);
    var c1 := Ansi.Feed(c, "\n");
    PlainFeed(c1, listing);
    Ansi.FeedAppend(c, "\n", listing);
    var c2 := Ansi.Feed(c, "\n" + listing);
    NewLineReturns(c2);
    Ansi.FeedAppend(c, "\n" + listing, "\n");
    var c3 := Ansi.Feed(c, "\n" + listing + "\n");
    FeedReturns(c3, prompt);
    Ansi.FeedAppend(c, "\n" + listing + "\n", prompt);
  }

  /** The matches listed are plain. */
  lemma ListedIsPlain(l: Line, commands: seq<string>, prompt: string) returns (listing: string)
    requires l.cursor <= |l.text| && CommandsOk(commands)
    ensures PlainText(listing) && Relisting(l, commands, prompt) == "\n" + listing + "\n" + prompt
  {
    var ms := Matches(commands, l.text[..l.cursor]);
    var shown := if |ms| <= MAX_MATCHES then ms else ms[..MAX_MATCHES];
    MatchesOk(commands, l.text[..l.cursor]);
    ListingIsPlain(shown);
    listing := Listing(shown);
  }

  /** A listing Tab prints the line last, so that it is shown from the new prompt's end on. */
  lemma ListingShows(s: Shell, commands: seq<string>) returns (k: nat)
    requires ShellOk(s) && CommandsOk(commands) && Listed(s.editor.line, commands)
    ensures var text := s.editor.line.text;
            var c := Ansi.Feed(s.console, Relisting(s.editor.line, commands, s.prompt));
            var r := Ansi.Feed(s.console, CompletionOutput(s.editor.line, commands, s.prompt));
            && c.parser == r.parser == Ansi.Normal
            && Redrawn(c.grid, c.grid.pos, EMPTY, r.grid, Line(text, |text|), k)
  {
    var l := s.editor.line;
    var listing := ListedIsPlain(l, commands, s.prompt);
    assert CompletionOutput(l, commands, s.prompt) == Relisting(l, commands, s.prompt) + l.text;
    assert PlainText(l.text) && |l.text| <= MAX_TEXT;
    hide Ansi.Feed, PlainText, Ansi.ReturnsToNormal, Redrawn, PutAll, Relisting, CompletionOutput, Listed;
    ListingReturns(s.console, listing, s.prompt);
    var c := Ansi.Feed(s.console, Relisting(l, commands, s.prompt));
    PlainFeed(c, l.text);
    Ansi.FeedAppend(s.console, Relisting(l, commands, s.prompt), l.text);
    k := WriteDisplayed(c.grid, l.text);
  }

  lemma NothingFed(c: Ansi.Console)
    requires Ansi.ConsoleOk(c)
    ensures Ansi.Feed(c, "") == c
  {
  }

  lemma CompletionIsPlain(e: Editor, commands: seq<string>)
    requires EditorOk(e) && CommandsOk(commands)
    ensures LineOk(e.line) && PlainText(e.line.text)
    ensures LineOk(Complete(e.line, commands)) && PlainText(Complete(e.line, commands).text)
  {
    PressKeepsOk(e, Tab, commands);
  }

  lemma TailIsPlain(s: string, n: nat)
    requires PlainText(s)
    ensures n <= |s| ==> PlainText(s[n..])
  {
  }

  /** Tab, unless it lists, prints plain text that takes the place of the line from the cursor on. */
  lemma CompletionIsDrawn(s: Shell, commands: seq<string>)
    requires ShellOk(s) && CommandsOk(commands) && !Listed(s.editor.line, commands)
    ensures var l, more := s.editor.line, CompletionOutput(s.editor.line, commands, s.prompt);
            && PlainText(more)
            && Ansi.Feed(s.console, more) == s.console.(grid := PutAll(s.console.grid, more))
            && Complete(l, commands) == (if more == "" then l else Line(l.text[..l.cursor] + more, l.cursor + |more|))
            && LineOk(Complete(l, commands)) && PlainText(l.text)
  {
    hide Ansi.Feed, Ansi.ReturnsToNormal, Matches, Lcp, Complete, CompletionOutput, Listed, PutAll;
    var l, more := s.editor.line, CompletionOutput(s.editor.line, commands, s.prompt);
    CompletionIsPlain(s.editor, commands);
    OutputIsWritten(l, commands, s.prompt);
    hide EditorOk, CommandsOk;
    if more != "" {
      TailIsPlain(Complete(l, commands).text, l.cursor);
      assert more == Complete(l, commands).text[l.cursor..];
    }
    PlainFeed(s.console, more);
  }

  lemma CompletionShows(s: Shell, origin: int, commands: seq<string>) returns (k: nat)
    requires ShellOk(s) && CommandsOk(commands) && !Listed(s.editor.line, commands)
    requires Displays(s.console.grid, origin, s.editor.line)
    ensures var c := Ansi.Feed(s.console, CompletionOutput(s.editor.line, commands, s.prompt));
            Overwritten(View(s.console.grid, origin, s.editor.line),
                        View(c.grid, origin - k * WIDTH, Complete(s.editor.line, commands)), k)
  {
    hide Ansi.Feed, Complete, CompletionOutput, Listed, Displays, Overwritten, PlainText, Ansi.ReturnsToNormal;
    var l, more := s.editor.line, CompletionOutput(s.editor.line, commands, s.prompt);
    CompletionIsDrawn(s, commands);
    k := 0;
    if more == "" {
      OverwrittenSelf(View(s.console.grid, origin, l));
      assert PutAll(s.console.grid, "") == s.console.grid;
    } else {
      k := OverwriteDisplayed(s.console.grid, origin, l, more);
    }
  }

  lemma EmptyShows(g: Grid)
    requires GridOk(g)
    ensures Displays(g, g.pos, EMPTY)
  {
  }

  lemma ConsoleStaysOk(s: Shell, k: Stroke, commands: seq<string>)
    requires ShellOk(s) && CommandsOk(commands) && StrokeOk(s, k)
    ensures Ansi.ConsoleOk(ConsoleAfter(s, k, commands)) && ConsoleAfter(s, k, commands).parser == Ansi.Normal
    ensures Ansi.ReturnsToNormal(PromptAfter(s, k))
  {
    hide Complete, CompletionOutput, Listed, Draw, Ansi.Feed, Ansi.ReturnsToNormal, Words.Args, Displays;
    match k.key
    case Enter => EnterReturns(s, k);
    case ClearScreen => FeedReturns(s.console.(grid := Clear(s.console.grid)), s.prompt);
    case Tab =>
      if Listed(s.editor.line, commands) {
        var n := ListingShows(s, commands);
      } else {
        CompletionIsDrawn(s, commands);
      }
    case _ =>
  }

  lemma StrokeKeepsOk(s: Shell, k: Stroke, commands: seq<string>)
    requires ShellOk(s) && CommandsOk(commands) && StrokeOk(s, k)
    ensures ShellOk(After(s, k, commands))
  {
    PressKeepsOk(s.editor, k.key, commands);
    ConsoleStaysOk(s, k, commands);
    hide EditorOk, ConsoleAfter, Press, StrokeOk, Ansi.ReturnsToNormal;
  }

  /** The line is shown from the place where the prompt ended when the screen was base, moved up by the n rows the
      screen has scrolled since, and the cells in front of it are what they were. */
  ghost predicate Stands(base: Grid, g: Grid, l: Line, n: nat) {
    Displays(g, base.pos - n * WIDTH, l) && KeptBefore(base, g, base.pos - n * WIDTH, n)
  }

  /** The screen as the last prompt left it: Enter, Ctrl-L and a listing print a new one. */
  ghost function LastPrompt(s: Shell, base: Grid, k: Stroke, commands: seq<string>): Grid
    requires ShellOk(s)
  {
    match k.key
    case Enter => ConsoleAfter(s, k, commands).grid
    case ClearScreen => ConsoleAfter(s, k, commands).grid
    case Tab =>
      if Listed(s.editor.line, commands) then Ansi.Feed(s.console, Relisting(s.editor.line, commands, s.prompt)).grid else base
    case _ => base
  }

  lemma StandsOn(base: Grid, g: Grid, l: Line, n: nat, r: Grid, q: Line, k: nat)
    requires Stands(base, g, l, n)
    requires Displays(r, base.pos - n * WIDTH - k * WIDTH, q) && KeptBefore(g, r, base.pos - n * WIDTH - k * WIDTH, k)
    ensures Stands(base, r, q, n + k)
  {
    var place := base.pos - (n + k) * WIDTH;
    assert place == base.pos - n * WIDTH - k * WIDTH;
    KeptTwice(base, g, r, place, n, k);
  }

  /** A prompt with nothing behind it shows the empty line. */
  lemma PromptShowsNothing(s: Shell, base: Grid, k: Stroke, commands: seq<string>)
    requires ShellOk(s) && CommandsOk(commands) && StrokeOk(s, k) && (k.key.Enter? || k.key.ClearScreen?)
    ensures var r := After(s, k, commands); Stands(LastPrompt(s, base, k, commands), r.console.grid, r.editor.line, 0)
  {
    ConsoleStaysOk(s, k, commands);
    hide ConsoleAfter, StrokeOk, Displays;
    var g := ConsoleAfter(s, k, commands).grid;
    EmptyShows(g);
    KeptSelf(g, g.pos);
  }

  lemma TabShows(s: Shell, base: Grid, n: nat, k: Stroke, commands: seq<string>) returns (m: nat)
    requires ShellOk(s) && CommandsOk(commands) && StrokeOk(s, k) && k.key.Tab? && KeepsShown(s, k, commands)
    requires Stands(base, s.console.grid, s.editor.line, n)
    ensures var r := After(s, k, commands); Stands(LastPrompt(s, base, k, commands), r.console.grid, r.editor.line, m)
  {
    hide Displays, CompletionOutput, Matches, Lcp, Ansi.Feed, Ansi.ReturnsToNormal, Relisting;
    var l := s.editor.line;
    if Listed(l, commands) {
      m := ListingShows(s, commands);
      assert Complete(l, commands) == l == Line(l.text, |l.text|);
    } else {
      hide Listed, Complete, Follows;
      m := CompletionShows(s, base.pos - n * WIDTH, commands);
      StandsOn(base, s.console.grid, l, n, ConsoleAfter(s, k, commands).grid, Complete(l, commands), m);
      m := n + m;
    }
  }

  lemma EditShows(s: Shell, base: Grid, n: nat, k: Stroke, commands: seq<string>) returns (m: nat)
    requires ShellOk(s) && CommandsOk(commands) && StrokeOk(s, k) && InPlace(k.key)
    requires Stands(base, s.console.grid, s.editor.line, n)
    ensures var r := After(s, k, commands); Stands(base, r.console.grid, r.editor.line, m)
  {
    hide Displays, Draw, Press, Ansi.ReturnsToNormal;
    m := KeyRedraws(s.console.grid, base.pos - n * WIDTH, s.editor, k.key, commands);
    StandsOn(base, s.console.grid, s.editor.line, n, Draw(s.console.grid, s.editor, k.key, commands),
             Press(s.editor, k.key, commands).line, m);
    m := n + m;
  }

  /** Whatever key is struck, the line stands behind the last prompt. */
  lemma StrokeShows(s: Shell, base: Grid, n: nat, k: Stroke, commands: seq<string>) returns (m: nat)
    requires ShellOk(s) && CommandsOk(commands) && StrokeOk(s, k) && KeepsShown(s, k, commands)
    requires Stands(base, s.console.grid, s.editor.line, n)
    ensures var r := After(s, k, commands); Stands(LastPrompt(s, base, k, commands), r.console.grid, r.editor.line, m)
  {
    hide ShellOk, CommandsOk, KeepsShown, Stands, ConsoleAfter, After, Ansi.ReturnsToNormal;
    if k.key.Enter? || k.key.ClearScreen? {
      m := 0;
      PromptShowsNothing(s, base, k, commands);
    } else if k.key.Tab? {
      m := TabShows(s, base, n, k, commands);
    } else {
      m := EditShows(s, base, n, k, commands);
    }
  }

  // ---- Every run --------------------------------------------------------------------------------

  /** Each key of the run may be struck when its turn comes. */
  ghost predicate IsRun(s: Shell, strokes: seq<Stroke>, commands: seq<string>)
    requires ShellOk(s) && CommandsOk(commands)
    decreases |strokes|
  {
    strokes == []
    || (StrokeOk(s, strokes[0]) && KeepsShown(s, strokes[0], commands)
        && (StrokeKeepsOk(s, strokes[0], commands); IsRun(After(s, strokes[0], commands), strokes[1..], commands)))
  }

  /** The shell after a run of keys. */
  ghost function Run(s: Shell, strokes: seq<Stroke>, commands: seq<string>): (r: Shell)
    requires ShellOk(s) && CommandsOk(commands) && IsRun(s, strokes, commands)
    ensures ShellOk(r)
    decreases |strokes|
  {
    if strokes == [] then s
    else StrokeKeepsOk(s, strokes[0], commands); Run(After(s, strokes[0], commands), strokes[1..], commands)
  }

  /** The screen as the last prompt of the run left it, base if the run printed none. */
  ghost function PromptOfRun(s: Shell, base: Grid, strokes: seq<Stroke>, commands: seq<string>): Grid
    requires ShellOk(s) && CommandsOk(commands) && IsRun(s, strokes, commands)
    decreases |strokes|
  {
    if strokes == [] then base
    else
      StrokeKeepsOk(s, strokes[0], commands);
      PromptOfRun(After(s, strokes[0], commands), LastPrompt(s, base, strokes[0], commands), strokes[1..], commands)
  }

  /** Over every run of keys - typing, Backspace, arrows, history, Enter with whatever the commands print, Ctrl-L,
      completions and listings - the screen shows the abstract editor's line from the end of the last prompt on,
      moved up by the rows scrolled since, with the terminal cursor at its cursor; prompt and everything above it
      are as they were printed. */
  lemma {:induction false} ScreenAlwaysShowsTheLine(s: Shell, base: Grid, n: nat, strokes: seq<Stroke>, commands: seq<string>)
      returns (m: nat)
    requires ShellOk(s) && CommandsOk(commands) && IsRun(s, strokes, commands)
    requires Stands(base, s.console.grid, s.editor.line, n)
    ensures var r := Run(s, strokes, commands);
            Stands(PromptOfRun(s, base, strokes, commands), r.console.grid, r.editor.line, m)
    decreases |strokes|
  {
    hide ShellOk, After, Stands, StrokeOk, CommandsOk, LastPrompt;
    m := n;
    if strokes != [] {
      m := StrokeShows(s, base, n, strokes[0], commands);
      StrokeKeepsOk(s, strokes[0], commands);
      m := ScreenAlwaysShowsTheLine(After(s, strokes[0], commands), LastPrompt(s, base, strokes[0], commands), m,
                                    strokes[1..], commands);
    }
  }
}
