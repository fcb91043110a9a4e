/** The line editor of src/kernel/shell.c on its NUL-terminated buffer, drawing through the escape-sequence
    parser onto the terminal. After every key the buffer holds the abstract editor's line and the screen
    shows it, with the terminal cursor at the buffer position. */
module Shell {

  import opened CStrings
  import opened Screen
  import opened LineEditor
  import opened Display
  import opened EditorRuns
  import ConsoleRuns
  import Words
  import Ansi
  import History

  // ---- Editing the buffer ------------------------------------------------------------------------

  /** strlen of the buffer. */
  method Length(buffer: array<char>, ghost text: string) returns (len: nat)
    requires HoldsAt(buffer[..], 0, text)
    ensures len == |text|
  {
    HeldString(buffer[..], 0, text);
    assert buffer[0..] == buffer[..];
    len := StrLen(buffer, 0);
  }

  /** The shifting loop and the two writes of an insertion. */
  method InsertAt(buffer: array<char>, pos: nat, len: nat, c: char, ghost text: string)
    requires HoldsAt(buffer[..], 0, text) && buffer.Length == BUFFER_SIZE
    requires pos <= |text| == len < MAX_TEXT && c != NUL
    modifies buffer
    ensures HoldsAt(buffer[..], 0, text[..pos] + [c] + text[pos..])
  {
    var x := len;
    while x > pos
      invariant pos <= x <= len
      invariant forall k :: 0 <= k < x ==> buffer[k] == text[k]
      invariant forall k :: x < k <= len ==> buffer[k] == text[k - 1]
    {
      buffer[x] := buffer[x - 1];
      x := x - 1;
    }
    buffer[pos] := c;
    buffer[len + 1] := NUL;
  }

  /** The shifting loop of a deletion in front of pos. */
  method EraseAt(buffer: array<char>, pos: nat, len: nat, ghost text: string)
    requires HoldsAt(buffer[..], 0, text) && 0 < pos <= |text| == len
    modifies buffer
    ensures HoldsAt(buffer[..], 0, text[..pos - 1] + text[pos..])
  {
    var x := pos;
    while x < len
      invariant pos <= x <= len
      invariant forall k :: 0 <= k < pos - 1 ==> buffer[k] == text[k]
      invariant forall k :: pos <= k < x ==> buffer[k - 1] == text[k]
      invariant forall k :: x <= k < len ==> buffer[k] == text[k]
    {
      buffer[x - 1] := buffer[x];
      x := x + 1;
    }
    buffer[len - 1] := NUL;
    ClosedUp(buffer[..], text, pos);
  }

  /** A text whose characters from pos on have moved one place back, and the NUL behind them. */
  lemma ClosedUp(buf: seq<char>, text: string, pos: nat)
    requires 0 < pos <= |text| < |buf| && forall k :: 0 <= k < |text| ==> text[k] != NUL
    requires forall k :: 0 <= k < pos - 1 ==> buf[k] == text[k]
    requires forall k :: pos <= k < |text| ==> buf[k - 1] == text[k]
    requires buf[|text| - 1] == NUL
    ensures HoldsAt(buf, 0, text[..pos - 1] + text[pos..])
  {
    var r := text[..pos - 1] + text[pos..];
    forall k | 0 <= k < |r|
      ensures buf[k] == r[k] && r[k] != NUL
    {
      if k >= pos - 1 {
        assert r[k] == text[k + 1] && buf[k + 1 - 1] == text[k + 1];
      }
    }
  }

  /** Every stored command and the draft can be shown as a line. */
  ghost predicate PlainLog(log: History.Log) {
    (forall k :: 0 <= k < |log.pushes| ==> PlainText(log.pushes[k])) && PlainText(log.draft)
  }

  lemma PlainCurrent(log: History.Log)
    requires PlainLog(log)
    ensures PlainText(History.Current(log))
  {
  }

  class LineShell {
    const buffer: array<char>
    const console: Ansi.AnsiConsole
    const history: History.Ring
    /** command_list. */
    const commands: seq<string>
    var bufferPos: nat
    /** What shell_render_prompt prints. */
    var prompt: string
    /** The text in the buffer, and the cell its first character is shown in. */
    ghost var text: string
    ghost var origin: int

    ghost function CurrentLine(): Line
      reads this
    {
      Line(text, bufferPos)
    }

    ghost function ScreenState(): Grid
      reads console, console.terminal, console.terminal.buffer
    {
      console.terminal.State()
    }

    /** Parser, colours and grid. */
    ghost function ConsoleState(): Ansi.Console
      reads console, console.terminal, console.terminal.buffer
    {
      console.State()
    }

    /** text went through the parser to the console that was c. */
    ghost predicate Printed(c: Ansi.Console, text: string)
      reads console, console.terminal, console.terminal.buffer
    {
      Ansi.ConsoleOk(c) && ConsoleState() == Ansi.Feed(c, text)
    }

    /** Parser and colours are those of c. */
    ghost predicate OnlyDrawn(c: Ansi.Console)
      reads console, console.terminal, console.terminal.buffer
    {
      ConsoleState() == c.(grid := ScreenState())
    }

    /** What the runs of ConsoleRuns are about. */
    ghost function Abstract(): ConsoleRuns.Shell
      reads this, console, console.terminal, console.terminal.buffer, history
    {
      ConsoleRuns.Shell(Editor(CurrentLine(), history.State()), ConsoleState(), prompt)
    }

    /** The line on the screen. */
    ghost function Shown(): View
      reads this, console, console.terminal, console.terminal.buffer
    {
      View(ScreenState(), origin, CurrentLine())
    }

    /** The buffer holds the line. */
    ghost predicate BufferValid()
      reads this, buffer
    {
      && buffer.Length == BUFFER_SIZE
      && HoldsAt(buffer[..], 0, text)
      && PlainText(text)
      && bufferPos <= |text|
      && Ansi.ReturnsToNormal(prompt)
      && CommandsOk(commands)
    }

    ghost predicate ConsoleValid()
      reads console, console.terminal
    {
      console.Valid() && console.currentState == Ansi.Normal
    }

    ghost predicate HistoryValid()
      reads history, history.entries
    {
      history.Valid() && PlainLog(history.State())
    }

    /** Buffer, history and screen agree. */
    ghost predicate Valid()
      reads this, buffer, console, console.terminal, console.terminal.buffer, history, history.entries
    {
      && BufferValid() && ConsoleValid() && HistoryValid()
      && Displays(ScreenState(), origin, CurrentLine())
    }

    /** A shell over a console and a history that are ready; shell_init then draws the first prompt. */
    constructor (console: Ansi.AnsiConsole, history: History.Ring, commands: seq<string>, prompt: string)
      requires console.Valid() && console.currentState == Ansi.Normal
      requires history.Valid() && PlainLog(history.State())
      requires Ansi.ReturnsToNormal(prompt)
      requires CommandsOk(commands)
      modifies console, console.terminal, console.terminal.buffer
      ensures Valid() && CurrentLine() == EMPTY
      ensures this.console == console && this.history == history && this.commands == commands && fresh(buffer)
    {
      buffer := new char[BUFFER_SIZE](_ => NUL);
      this.console, this.history, this.commands, this.prompt := console, history, commands, prompt;
      bufferPos, text, origin := 0, "", 0;
      new;
      ShellInit();
    }

    /** shell_render_prompt. */
    method RenderPrompt()
      requires ConsoleValid() && Ansi.ReturnsToNormal(prompt)
      modifies console, console.terminal, console.terminal.buffer
      ensures ConsoleValid() && Printed(old(ConsoleState()), prompt)
    {
      assert Ansi.ConsoleOk(console.State());
      console.WriteString(prompt);
    }

    /** shell_init: the buffer zeroed, the prompt drawn. */
    method ShellInit()
      requires buffer.Length == BUFFER_SIZE && Ansi.ReturnsToNormal(prompt) && ConsoleValid() && HistoryValid()
      requires CommandsOk(commands)
      modifies this`bufferPos, this`text, this`origin, buffer, console, console.terminal, console.terminal.buffer
      ensures Valid() && CurrentLine() == EMPTY
      ensures Printed(old(ConsoleState()), prompt)
    {
      hide Ansi.ReturnsToNormal, CommandsOk, Ansi.Feed, PlainLog, History.Ring.Valid;
      hide LineShell.ConsoleValid;
      hide LineShell.ScreenState;
      hide LineShell.ConsoleState;
      var i := 0;
      while i < BUFFER_SIZE
        invariant 0 <= i <= BUFFER_SIZE
        invariant forall k :: 0 <= k < i ==> buffer[k] == NUL
        modifies buffer
      {
        buffer[i] := NUL;
        i := i + 1;
      }
      bufferPos, text := 0, "";
      RenderPrompt();
      origin := ScreenState().pos;
      GridIsOk();
      EmptyDisplayed(ScreenState());
    }

    /** shell_handle_key for Ctrl-L. */
    method ClearKey()
      requires Valid()
      modifies this`bufferPos, this`text, this`origin, buffer, console, console.terminal, console.terminal.buffer
      ensures Valid() && CurrentLine() == EMPTY
      ensures Printed(old(ConsoleState().(grid := Clear(ScreenState()))), prompt)
    {
      hide Ansi.ReturnsToNormal, CommandsOk, Ansi.Feed, PlainLog, History.Ring.Valid, Displays, PlainText, HoldsAt, Clear;
      console.terminal.ClearScreen();
      bufferPos := 0;
      ShellInit();
    }

    /** shell_handle_key for Enter: a new row, the line executed, then an empty line behind the prompt. */
    method EnterKey(args: array<int>, output: string, newPrompt: string) returns (argc: nat, ghost held: seq<char>)
      requires Valid() && args.Length == Words.MAX_CMD_ARGS + 1
      requires Ansi.ReturnsToNormal(output) && Ansi.ReturnsToNormal(newPrompt)
      modifies this`bufferPos, this`text, this`origin, this`prompt, args
      modifies buffer, console, console.terminal, console.terminal.buffer, history, history.entries
      ensures Valid() && CurrentLine() == EMPTY
      ensures history.State() == History.Push(old(history.State()), old(text))
      ensures argc == |Words.Args(old(text))| && Words.ArgsHeld(held, args[..], Words.Args(old(text)))
      ensures argc > 0 ==> args[argc] == -1
      ensures prompt == if argc == 0 then old(prompt) else newPrompt
      ensures Printed(old(ConsoleState()), "\n" + (if argc == 0 then "" else output) + prompt)
    {
      hide HoldsAt, Displays, PlainText, PlainLog, Ansi.ReturnsToNormal, GridOk, CommandsOk, Ansi.Feed;
      hide History.Ring.Valid, Words.ArgsHeld, Words.Args;
      hide LineShell.ConsoleValid;
      hide LineShell.ScreenState;
      hide LineShell.ConsoleState;
      hide LineShell.HistoryValid;
      LineInBuffer(buffer[..], text);
      ghost var c := ConsoleState();
      NewLine();
      argc, held := Execute(args, output, newPrompt);
      ghost var printed := if argc == 0 then "" else output;
      Ansi.FeedAppend(c, "\n", printed);
      buffer[0] := NUL;
      bufferPos, text := 0, "";
      EmptyLine(buffer[..]);
      RenderPrompt();
      Ansi.FeedAppend(c, "\n" + printed, prompt);
      origin := ScreenState().pos;
      GridIsOk();
      EmptyDisplayed(ScreenState());
    }

    /** shell_execute: the line goes to the history and is cut into its words; the command, unless there is
        none, prints some output and may change the prompt. held is the buffer the command finds its words in. */
    method Execute(args: array<int>, output: string, newPrompt: string) returns (argc: nat, ghost held: seq<char>)
      requires BufferValid() && ConsoleValid() && HistoryValid() && args.Length == Words.MAX_CMD_ARGS + 1
      requires Ansi.ReturnsToNormal(output) && Ansi.ReturnsToNormal(newPrompt)
      modifies this`prompt, args, buffer, console, console.terminal, console.terminal.buffer, history, history.entries
      ensures ConsoleValid() && HistoryValid() && Ansi.ReturnsToNormal(prompt)
      ensures history.State() == History.Push(old(history.State()), text)
      ensures argc == |Words.Args(text)| && Words.ArgsHeld(held, args[..], Words.Args(text))
      ensures argc > 0 ==> args[argc] == -1
      ensures prompt == if argc == 0 then old(prompt) else newPrompt
      ensures Printed(old(ConsoleState()), if argc == 0 then "" else output)
    {
      hide HoldsAt, PlainText, PlainLog, Ansi.ReturnsToNormal, GridOk, CommandsOk, Words.ArgsHeld, Words.Args;
      hide LineShell.ConsoleValid;
      hide LineShell.ConsoleState;
      hide LineShell.HistoryValid;
      ConsoleIsOk();
      NothingFed(ConsoleState(), "", 0);
      hide Ansi.Feed;
      var line := ReadString(buffer, 0, text);
      Remember(line);
      argc := Words.ShellParse(buffer, args, text);
      held := buffer[..];
      if argc > 0 {
        PrintOutput(output);
        prompt := newPrompt;
      }
    }

    /** terminal_putchar('\n'). */
    method NewLine()
      requires ConsoleValid()
      modifies console, console.terminal, console.terminal.buffer
      ensures ConsoleValid() && Printed(old(ConsoleState()), "\n")
    {
      Ansi.FeedOne(console.State(), '\n');
      console.ProcessChar('\n');
    }

    /** history_push of the line. */
    method Remember(line: string)
      requires HistoryValid() && PlainText(line)
      modifies history, history.entries
      ensures HistoryValid() && history.State() == History.Push(old(history.State()), line)
    {
      PlainAfterCut(line);
      history.PushCommand(line);
    }

    /** What a command prints. */
    method PrintOutput(output: string)
      requires ConsoleValid() && Ansi.ReturnsToNormal(output)
      modifies console, console.terminal, console.terminal.buffer
      ensures ConsoleValid() && Printed(old(ConsoleState()), output)
    {
      assert Ansi.ConsoleOk(console.State());
      console.WriteString(output);
    }

    /** terminal_writestring of text without escape sequences. */
    method WritePlain(s: string)
      requires ConsoleValid() && PlainText(s)
      modifies console, console.terminal, console.terminal.buffer
      ensures ConsoleValid() && ScreenState() == PutAll(old(ScreenState()), s)
      ensures Printed(old(ConsoleState()), s)
      ensures OnlyDrawn(old(ConsoleState()))
    {
      PlainHasNoNewline(s);
      Ansi.FeedPlain(console.State(), s);
      console.WriteString(s);
    }

    /** terminal_writestring of the buffer from place p on. */
    method WriteFrom(p: nat)
      requires ConsoleValid() && HoldsAt(buffer[..], 0, text) && PlainText(text) && p <= |text|
      modifies console, console.terminal, console.terminal.buffer
      ensures ConsoleValid() && ScreenState() == PutAll(old(ScreenState()), text[p..])
      ensures Printed(old(ConsoleState()), text[p..])
      ensures OnlyDrawn(old(ConsoleState()))
    {
      hide HoldsAt, PutAll, Ansi.Feed;
      hide LineShell.ConsoleValid;
      HeldTail(buffer[..], 0, text, p);
      var rest := ReadString(buffer, p, text[p..]);
      WritePlain(rest);
    }

    /** terminal_move_cursor. */
    method MoveBy(offset: int)
      requires ConsoleValid()
      modifies console.terminal
      ensures ConsoleValid() && ScreenState() == MoveCursor(old(ScreenState()), offset)
      ensures OnlyDrawn(old(ConsoleState()))
    {
      console.terminal.MoveCursorBy(offset);
    }

    /** terminal_backspace. */
    method EraseCell()
      requires ConsoleValid()
      modifies console.terminal, console.terminal.buffer
      ensures ConsoleValid() && ScreenState() == Backspace(old(ScreenState()))
      ensures OnlyDrawn(old(ConsoleState()))
    {
      console.terminal.BackspaceChar();
    }

    /** terminal_putchar(' '). */
    method PutSpace()
      requires ConsoleValid()
      modifies console, console.terminal, console.terminal.buffer
      ensures ConsoleValid() && ScreenState() == PutRaw(old(ScreenState()), ' ')
      ensures Printed(old(ConsoleState()), " ")
      ensures OnlyDrawn(old(ConsoleState()))
    {
      Ansi.FeedOne(console.State(), ' ');
      console.ProcessChar(' ');
    }

    /** shell_handle_key for a key that inserts itself. */
    method TypeKey(c: char) returns (ghost k: nat)
      requires Valid() && IsPlain(c)
      modifies this`bufferPos, this`text, this`origin, buffer, console, console.terminal, console.terminal.buffer
      ensures Valid() && CurrentLine() == Insert(old(CurrentLine()), c)
      ensures ScreenState() == DrawInsert(old(ScreenState()), old(CurrentLine()), c)
      ensures OnlyDrawn(old(ConsoleState()))
      ensures Follows(old(Shown()), Shown(), k)
    {
      hide HoldsAt, Displays, PlainText, PlainLog, Ansi.ReturnsToNormal, GridOk, CommandsOk;
      hide LineShell.ConsoleValid;
      hide LineShell.ScreenState;
      hide LineShell.HistoryValid;
      LineInBuffer(buffer[..], text);
      ghost var l, g := CurrentLine(), ScreenState();
      ScreenIsGrid();
      GridIsOk();
      k := InsertDisplayed(g, origin, l, c);
      RedrawnDisplays(g, origin, l, DrawInsert(g, l, c), Insert(l, c), k);
      hide Redrawn;
      var len := Length(buffer, text);
      if len < BUFFER_SIZE - 1 {
        InsertHere(c, len);
        origin := origin - k * WIDTH;
      }
      hide DrawInsert, Insert;
    }

    /** The rest of it: the character goes into the buffer and the tail is written again. */
    method InsertHere(c: char, len: nat)
      requires BufferValid() && ConsoleValid() && IsPlain(c) && |text| == len < MAX_TEXT
      modifies this`bufferPos, this`text, buffer, console, console.terminal, console.terminal.buffer
      ensures BufferValid() && ConsoleValid() && CurrentLine() == Insert(old(CurrentLine()), c)
      ensures GridOk(old(ScreenState())) && ScreenState() == DrawInsert(old(ScreenState()), old(CurrentLine()), c)
      ensures OnlyDrawn(old(ConsoleState()))
    {
      hide HoldsAt, PutAll, MoveCursor, PlainText, Ansi.ReturnsToNormal, GridOk, CommandsOk;
      hide LineShell.ConsoleValid;
      hide LineShell.ScreenState;
      GridIsOk();
      ghost var l := CurrentLine();
      InsertKeepsPlain(l, c);
      var tail := len - bufferPos;
      InsertAt(buffer, bufferPos, len, c, text);
      text := Insert(l, c).text;
      WriteFrom(bufferPos);
      bufferPos := bufferPos + 1;
      MoveBy(-tail);
    }

    /** shell_handle_key for Backspace. */
    method BackspaceKey()
      requires Valid()
      modifies this`bufferPos, this`text, buffer, console, console.terminal, console.terminal.buffer
      ensures Valid() && CurrentLine() == Erase(old(CurrentLine()))
      ensures ScreenState() == DrawErase(old(ScreenState()), old(CurrentLine()))
      ensures OnlyDrawn(old(ConsoleState()))
      ensures Follows(old(Shown()), Shown(), 0)
    {
      hide HoldsAt, Displays, PlainText, PlainLog, Ansi.ReturnsToNormal, GridOk, CommandsOk;
      hide LineShell.ConsoleValid;
      hide LineShell.ScreenState;
      hide LineShell.HistoryValid;
      LineInBuffer(buffer[..], text);
      ghost var l, g := CurrentLine(), ScreenState();
      ScreenIsGrid();
      GridIsOk();
      EraseDisplayed(g, origin, l);
      RedrawnDisplays(g, origin, l, DrawErase(g, l), Erase(l), 0);
      hide Redrawn;
      if bufferPos > 0 {
        EraseHere();
      }
      hide DrawErase, Erase;
    }

    /** The rest of it: the character leaves the buffer and the tail is written again, with a blank behind it. */
    method EraseHere()
      requires BufferValid() && ConsoleValid() && 0 < bufferPos && |text| <= MAX_TEXT
      modifies this`bufferPos, this`text, buffer, console, console.terminal, console.terminal.buffer
      ensures BufferValid() && ConsoleValid() && CurrentLine() == Erase(old(CurrentLine()))
      ensures GridOk(old(ScreenState())) && ScreenState() == DrawErase(old(ScreenState()), old(CurrentLine()))
      ensures OnlyDrawn(old(ConsoleState()))
    {
      hide HoldsAt, PutAll, MoveCursor, Backspace, PutRaw, PlainText, Ansi.ReturnsToNormal, GridOk, CommandsOk;
      hide LineShell.ConsoleValid;
      hide LineShell.ScreenState;
      GridIsOk();
      ghost var l := CurrentLine();
      EraseKeepsPlain(l);
      var len := Length(buffer, text);
      var tail := len - bufferPos;
      EraseAt(buffer, bufferPos, len, text);
      text := Erase(l).text;
      bufferPos := bufferPos - 1;
      EraseCell();
      WriteFrom(bufferPos);
      PutSpace();
      MoveBy(-(tail + 1));
    }

    /** shell_buffer_pos_decrement. */
    method LeftKey()
      requires Valid()
      modifies this`bufferPos, console.terminal
      ensures Valid() && CurrentLine() == Left(old(CurrentLine()))
      ensures ScreenState() == DrawLeft(old(ScreenState()), old(CurrentLine()))
      ensures OnlyDrawn(old(ConsoleState()))
      ensures Follows(old(Shown()), Shown(), 0)
    {
      LeftDisplayed(ScreenState(), origin, CurrentLine());
      if bufferPos <= 0 {
        return;
      }
      bufferPos := bufferPos - 1;
      console.terminal.MoveCursorBy(-1);
    }

    /** shell_buffer_pos_increment. */
    method RightKey()
      requires Valid()
      modifies this`bufferPos, console.terminal
      ensures Valid() && CurrentLine() == Right(old(CurrentLine()))
      ensures ScreenState() == DrawRight(old(ScreenState()), old(CurrentLine()))
      ensures OnlyDrawn(old(ConsoleState()))
      ensures Follows(old(Shown()), Shown(), 0)
    {
      RightDisplayed(ScreenState(), origin, CurrentLine());
      var len := Length(buffer, text);
      if bufferPos >= len {
        return;
      }
      bufferPos := bufferPos + 1;
      console.terminal.MoveCursorBy(1);
    }

    /** shell_history's loop of terminal_backspace. */
    method EraseCells(n: nat)
      requires ConsoleValid()
      modifies console.terminal, console.terminal.buffer
      ensures ConsoleValid() && ScreenState() == BackspaceTimes(old(ScreenState()), n)
      ensures OnlyDrawn(old(ConsoleState()))
    {
      var x := 0;
      while x < n
        invariant 0 <= x <= n
        invariant ConsoleValid() && ScreenState() == BackspaceTimes(old(ScreenState()), x)
        invariant OnlyDrawn(old(ConsoleState()))
      {
        EraseCell();
        x := x + 1;
      }
    }

    /** shell_history's calls of history_prev and history_next: the line is put aside or the cursor moves. */
    method Navigate(a: int, line: string) returns (current: string)
      requires HistoryValid() && PlainText(line)
      modifies history
      ensures HistoryValid()
      ensures history.State() == (if a == 1 then History.Prev(old(history.State()), line) else History.Next(old(history.State())))
      ensures current == History.Current(history.State()) && PlainText(current) && |current| <= History.KEPT
    {
      PlainAfterCut(line);
      if a == 1 {
        var shown := history.PrevCommand(line);
      } else {
        var shown := history.NextCommand();
      }
      current := history.GetCurrentCommand();
      PlainCurrent(history.State());
    }

    /** shell_history: 1 is Up, anything else Down. */
    method HistoryKey(a: int) returns (ghost k: nat)
      requires Valid()
      modifies this`bufferPos, this`text, this`origin, buffer, console, console.terminal, console.terminal.buffer, history
      ensures Valid()
      ensures history.State() == (if a == 1 then History.Prev(old(history.State()), old(text))
                                  else History.Next(old(history.State())))
      ensures CurrentLine() == Line(History.Current(history.State()), |History.Current(history.State())|)
      ensures ScreenState() == DrawReplace(old(ScreenState()), old(CurrentLine()), text)
      ensures OnlyDrawn(old(ConsoleState()))
      ensures Follows(old(Shown()), Shown(), k)
    {
      hide HoldsAt, Displays, PutAll, MoveCursor, PutRaw, PlainText, PlainLog, Ansi.ReturnsToNormal, GridOk, CommandsOk;
      hide History.Ring.Valid;
      hide BackspaceTimes, Cut, Terminated, Str, Redrawn;
      hide LineShell.ConsoleValid;
      hide LineShell.ScreenState;
      hide LineShell.HistoryValid;
      LineInBuffer(buffer[..], text);
      ghost var l, g := CurrentLine(), ScreenState();
      DisplayedGrid(g, origin, l);
      var oldLen := Length(buffer, text);
      MoveBy(oldLen - bufferPos);
      var line := ReadString(buffer, 0, text);
      var current := Navigate(a, line);
      k := ReplaceDisplayed(g, origin, l, current);
      RedrawnDisplays(g, origin, l, DrawReplace(g, l, current), Line(current, |current|), k);
      ReplaceLine(oldLen, current);
      origin := origin - k * WIDTH;
    }

    /** The rest of it: the old cells erased, the other line copied and written. */
    method ReplaceLine(oldLen: nat, current: string)
      requires BufferValid() && ConsoleValid() && PlainText(current) && |current| <= History.KEPT
      modifies this`bufferPos, this`text, buffer, console, console.terminal, console.terminal.buffer
      ensures BufferValid() && ConsoleValid() && CurrentLine() == Line(current, |current|)
      ensures GridOk(old(ScreenState())) && ScreenState() == PutAll(BackspaceTimes(old(ScreenState()), oldLen), current)
      ensures OnlyDrawn(old(ConsoleState()))
    {
      hide HoldsAt, PutAll, BackspaceTimes, PlainText, Ansi.ReturnsToNormal, GridOk, CommandsOk;
      hide LineShell.ConsoleValid;
      hide LineShell.ScreenState;
      GridIsOk();
      EraseCells(oldLen);
      CopyLine(buffer, current);
      text := current;
      bufferPos := Length(buffer, text);
      WritePlain(current);
    }

    /** shell_handle_key for Tab, wherever the cursor stands. */
    method TabKey() returns (ghost k: nat)
      requires Valid()
      modifies this`bufferPos, this`text, this`origin, buffer, console, console.terminal, console.terminal.buffer
      ensures BufferValid() && ConsoleValid() && HistoryValid()
      ensures Tabbed(old(Shown()), old(ConsoleState()), k)
    {
      hide HoldsAt, Displays, PlainText, PlainLog, Ansi.ReturnsToNormal, CommandsOk;
      hide LineShell.ConsoleValid;
      hide LineShell.ScreenState;
      hide LineShell.ConsoleState;
      hide LineShell.HistoryValid;
      hide Ansi.Feed, Matches, Lcp, Overwritten, Complete, CompletionOutput, Listed;
      k := 0;
      NothingDrawn();
      var spaced := HasSpace();
      if spaced {
        NoCompletion(CurrentLine(), commands, prompt);
        return;
      }
      var matches, n, lcp := FindMatches();
      k := UseMatches(matches, n, lcp);
    }

    /** What command_completion does with the matches it found. */
    method UseMatches(matches: seq<string>, n: nat, lcp: int) returns (ghost k: nat)
      requires BufferValid() && ConsoleValid() && Displays(ScreenState(), origin, CurrentLine())
      requires ' ' !in text[..bufferPos] && Found(CurrentLine(), commands, matches, n, lcp)
      modifies this`bufferPos, this`text, this`origin, buffer, console, console.terminal, console.terminal.buffer
      ensures BufferValid() && ConsoleValid()
      ensures Tabbed(old(Shown()), old(ConsoleState()), k)
    {
      hide HoldsAt, Displays, PlainText, Ansi.ReturnsToNormal, CommandsOk, Listing;
      hide LineShell.ConsoleValid;
      hide LineShell.ScreenState;
      hide LineShell.ConsoleState;
      hide Ansi.Feed, Matches, Lcp, Overwritten, Complete, CompletionOutput, Listed;
      k := 0;
      ghost var v := Shown();
      NothingDrawn();
      CompletionCases(CurrentLine(), commands, prompt, matches, n, lcp);
      MatchesArePlain(CurrentLine(), commands, matches, n, lcp);
      hide Found;
      if n == 0 {
        return;
      }
      NoBlank(matches[0], bufferPos, if n > 1 && lcp > bufferPos then lcp else |matches[0]|);
      if n == 1 {
        k := InsertCompletion(matches[0], |matches[0]|, true);
        OverwrittenDisplays(v, Shown(), k);
        return;
      }
      if lcp > bufferPos {
        k := InsertCompletion(matches[0], lcp, false);
        OverwrittenDisplays(v, Shown(), k);
        return;
      }
      ListAgain(matches);
    }

    /** The line and the console behind Tab: the line is completed, the output printed. The screen shows the
        completed line, unless the matches are listed with the cursor inside the line: the line is then printed
        as a whole and the terminal cursor ends up behind it, not at the buffer position. */
    ghost predicate Tabbed(v: View, c: Ansi.Console, k: nat)
      reads this, console, console.terminal, console.terminal.buffer
    {
      && v.line.cursor <= |v.line.text|
      && CurrentLine() == Complete(v.line, commands)
      && Printed(c, CompletionOutput(v.line, commands, prompt))
      && (!Listed(v.line, commands) ==> Overwritten(v, Shown(), k))
      && (Displays(ScreenState(), origin, CurrentLine()) <==>
            !Listed(v.line, commands) || v.line.cursor == |v.line.text|)
    }

    /** Nothing printed leaves the line displayed as it is. */
    lemma NothingDrawn()
      requires ConsoleValid() && Displays(ScreenState(), origin, CurrentLine())
      ensures Overwritten(Shown(), Shown(), 0)
      ensures Ansi.ConsoleOk(ConsoleState()) && Ansi.Feed(ConsoleState(), "") == ConsoleState()
    {
    }

    /** The end of command_completion: the matches, the prompt and the line again. */
    method ListAgain(matches: seq<string>)
      requires BufferValid() && ConsoleValid() && forall j :: 0 <= j < |matches| ==> PlainText(matches[j])
      modifies this`origin, console, console.terminal, console.terminal.buffer
      ensures ConsoleValid()
      ensures Printed(old(ConsoleState()), "\n" + Listing(matches) + "\n" + prompt + text)
      ensures Displays(ScreenState(), origin, CurrentLine()) <==> bufferPos == |text|
    {
      hide HoldsAt, Displays, PutAll, PutRaw, PlainText, Ansi.ReturnsToNormal, GridOk, CommandsOk, Listing;
      hide LineShell.ConsoleValid;
      hide LineShell.ScreenState;
      hide LineShell.ConsoleState;
      hide Ansi.Feed;
      LineInBuffer(buffer[..], text);
      ConsoleIsOk();
      ghost var c := ConsoleState();
      ListMatches(matches);
      RenderPrompt();
      Ansi.FeedAppend(c, "\n" + Listing(matches) + "\n", prompt);
      var shown := ReadString(buffer, 0, text);
      GridIsOk();
      origin := WrittenAgain(ScreenState(), text, bufferPos);
      WritePlain(shown);
      Ansi.FeedAppend(c, "\n" + Listing(matches) + "\n" + prompt, text);
    }

    lemma AbstractOk()
      requires Valid()
      ensures ConsoleRuns.ShellOk(Abstract())
    {
      LineInBuffer(buffer[..], text);
      hide HoldsAt, Displays, Ansi.ReturnsToNormal, CommandsOk, PlainText;
    }

    /** shell_handle_key with the arrow keys: every key does to buffer, history, prompt, parser, colours and screen
        what ConsoleRuns.After says, so its theorem about runs is one about this class. The screen agrees with the
        buffer afterwards unless the key was a Tab that listed with the cursor inside the line. */
    method Handle(k: ConsoleRuns.Stroke, args: array<int>)
      requires Valid() && args.Length == Words.MAX_CMD_ARGS + 1
      requires ConsoleRuns.StrokeOk(Abstract(), k)
      modifies this`bufferPos, this`text, this`origin, this`prompt, args
      modifies buffer, console, console.terminal, console.terminal.buffer, history, history.entries
      ensures BufferValid() && ConsoleValid() && HistoryValid()
      ensures Valid() <==> ConsoleRuns.KeepsShown(old(Abstract()), k, commands)
      ensures ConsoleRuns.ShellOk(old(Abstract())) && Abstract() == ConsoleRuns.After(old(Abstract()), k, commands)
    {
      AbstractOk();
      hide LineShell.BufferValid;
      hide LineShell.ConsoleValid;
      hide LineShell.HistoryValid;
      hide Displays, Ansi.Feed, CompletionOutput, Complete, Listed, Clear, Words.Args, Words.ArgsHeld;
      hide DrawInsert, DrawErase, DrawReplace, DrawLeft, DrawRight, Insert, Erase, Left, Right, Follows, Overwritten;
      match k.key
      case Type(c) => var n := TypeKey(c);
      case Erasing => BackspaceKey();
      case MoveLeft => LeftKey();
      case MoveRight => RightKey();
      case Up => var n := HistoryKey(1);
      case Down => var n := HistoryKey(0);
      case Tab => var n := TabKey();
      case Enter => var argc, held := EnterKey(args, k.output, k.newPrompt);
      case ClearScreen => ClearKey();
    }

    /** command_completion's test for a space in front of the cursor. */
    method HasSpace() returns (spaced: bool)
      requires BufferValid()
      ensures spaced <==> ' ' in text[..bufferPos]
    {
      var i := 0;
      while i < bufferPos
        invariant 0 <= i <= bufferPos
        invariant ' ' !in text[..i]
      {
        assert buffer[i] == text[i] && text[..i + 1] == text[..i] + [text[i]];
        if buffer[i] == ' ' {
          assert text[..bufferPos][i] == ' ';
          return true;
        }
        i := i + 1;
      }
      return false;
    }

    /** command_completion's loop over the command list: the first 32 matches, how many these are, and the
        length of the longest common prefix of all matches. */
    method FindMatches() returns (matches: seq<string>, n: nat, lcp: int)
      requires BufferValid()
      ensures Found(CurrentLine(), commands, matches, n, lcp)
    {
      hide PlainText, HoldsAt, CommonPrefix, Ansi.ReturnsToNormal, Matches, Lcp, CharAt;
      NoCommands(text[..bufferPos]);
      assert commands[..0] == [];
      var line := ReadString(buffer, 0, text);
      NoNul(text);
      matches, n, lcp := [], 0, -1;
      ghost var ms: seq<string> := [];
      var i := 0;
      while i < |commands|
        invariant 0 <= i <= |commands|
        invariant ms == Matches(commands[..i], text[..bufferPos])
        invariant n == |matches| <= MAX_MATCHES && matches <= ms && (n == |ms| || n == MAX_MATCHES < |ms|)
        invariant lcp == if ms == [] then -1 else Lcp(ms)
        invariant ms != [] ==> matches != [] && NUL !in matches[0]
      {
        NoNul(commands[i]);
        MatchStep(commands, text[..bufferPos], i);
        var d := StrNCmp(commands[i], line, bufferPos);
        if d == 0 {
          LcpStep(ms, commands[i]);
          assert n == |ms| ==> matches == ms;
          ms := ms + [commands[i]];
          if n < MAX_MATCHES {
            matches, n := matches + [commands[i]], n + 1;
          }
          if lcp < 0 {
            lcp := |commands[i]|;
          } else {
            var k := CommandRecognition(matches[0], commands[i]);
            lcp := if k < lcp then k else lcp;
          }
        }
        i := i + 1;
      }
      assert commands[..i] == commands;
    }

    /** shell_insert_completion of the first len characters of a command that starts with the typed text. */
    method InsertCompletion(command: string, len: nat, addSpace: bool) returns (ghost k: nat)
      requires BufferValid() && ConsoleValid()
      requires PlainText(command) && bufferPos <= len <= |command| <= BUFFER_SIZE - 2
      requires text[..bufferPos] <= command
      modifies this`bufferPos, this`text, this`origin, buffer, console, console.terminal, console.terminal.buffer
      ensures BufferValid() && ConsoleValid()
      ensures CurrentLine() == Line(command[..len] + (if addSpace then " " else ""), if addSpace then len + 1 else len)
      ensures Printed(old(ConsoleState()), command[old(bufferPos)..len] + (if addSpace then " " else ""))
      ensures Displays(old(ScreenState()), old(origin), old(CurrentLine())) ==> Overwritten(old(Shown()), Shown(), k)
    {
      hide HoldsAt, Displays, PutAll, MoveCursor, Backspace, PutRaw, PlainText, PlainLog, Ansi.ReturnsToNormal, GridOk, CommandsOk;
      hide LineShell.ConsoleValid;
      hide LineShell.ScreenState;
      hide LineShell.ConsoleState;
      hide Overwritten, Ansi.Feed;
      ghost var l, o, g, c := CurrentLine(), origin, ScreenState(), ConsoleState();
      ConsoleIsOk();
      ScreenIsGrid();
      k := 0;
      CommandPieces(command, bufferPos, len);
      CopyAndBlank(command, len, addSpace);
      if Displays(g, o, l) {
        k := CompletionDisplayed(g, o, l, command, len, addSpace);
        assert command[l.cursor..len] + "" == command[l.cursor..len];
        ConsoleRuns.PlainFeed(c, command[l.cursor..len] + if addSpace then " " else "");
        ScreenIsGrid();
        origin := o - k * WIDTH;
      }
    }

    /** Its loop and what follows it: the buffer and the output. */
    method CopyAndBlank(command: string, len: nat, addSpace: bool)
      requires BufferValid() && ConsoleValid()
      requires PlainText(command) && bufferPos <= len <= |command| <= BUFFER_SIZE - 2
      requires text[..bufferPos] <= command
      modifies this`bufferPos, this`text, buffer, console, console.terminal, console.terminal.buffer
      ensures BufferValid() && ConsoleValid()
      ensures CurrentLine() == Line(command[..len] + (if addSpace then " " else ""), if addSpace then len + 1 else len)
      ensures Printed(old(ConsoleState()), command[old(bufferPos)..len] + (if addSpace then " " else ""))
    {
      hide HoldsAt, PlainText, Ansi.ReturnsToNormal, CommandsOk, Ansi.Feed;
      hide LineShell.ConsoleValid;
      hide LineShell.ScreenState;
      hide LineShell.ConsoleState;
      ghost var c, from := ConsoleState(), bufferPos;
      CommandPieces(command, from, len);
      TypedText(buffer[..], text, command, from);
      CopyCompletion(command, bufferPos, len);
      bufferPos := len;
      buffer[bufferPos] := NUL;
      text := command[..len];
      if addSpace && bufferPos < BUFFER_SIZE - 1 {
        buffer[bufferPos] := ' ';
        bufferPos := bufferPos + 1;
        buffer[bufferPos] := NUL;
        text := text + " ";
        PutSpace();
        Ansi.FeedAppend(c, command[from..len], " ");
      }
      CompletedBuffer(buffer[..], command, len, addSpace);
      assert command[..len] + "" == command[..len] && command[from..len] + "" == command[from..len];
    }

    lemma ScreenIsGrid()
      ensures ScreenState() == ConsoleState().grid
    {
    }

    /** shell_insert_completion's loop. */
    method CopyCompletion(command: string, from: nat, len: nat)
      requires ConsoleValid() && buffer.Length == BUFFER_SIZE
      requires PlainText(command) && from <= len <= |command| <= BUFFER_SIZE - 2
      requires forall k :: 0 <= k < from ==> buffer[k] == command[k]
      modifies buffer, console, console.terminal, console.terminal.buffer
      ensures ConsoleValid() && Printed(old(ConsoleState()), command[from..len])
      ensures forall k :: 0 <= k < len ==> buffer[k] == command[k]
    {
      hide LineShell.ConsoleValid;
      hide LineShell.ScreenState;
      hide LineShell.ConsoleState;
      hide Ansi.Feed;
      ConsoleIsOk();
      ghost var c := ConsoleState();
      var i := from;
      NothingFed(c, command, from);
      while i < len
        invariant from <= i <= len
        invariant ConsoleValid() && ConsoleState() == Ansi.Feed(c, command[from..i])
        invariant forall k :: 0 <= k < i ==> buffer[k] == command[k]
      {
        if i >= BUFFER_SIZE - 2 {
          break;
        }
        var ch := command[i];
        buffer[i] := ch;
        PutPlain(ch);
        Ansi.FeedAppend(c, command[from..i], [ch]);
        assert command[from..i + 1] == command[from..i] + [ch];
        i := i + 1;
      }
    }

    /** terminal_putchar of a plain character. */
    method PutPlain(ch: char)
      requires ConsoleValid() && IsPlain(ch)
      modifies console, console.terminal, console.terminal.buffer
      ensures ConsoleValid() && ScreenState() == PutRaw(old(ScreenState()), ch)
      ensures Printed(old(ConsoleState()), [ch])
    {
      Ansi.FeedOne(console.State(), ch);
      console.ProcessChar(ch);
    }

    /** command_completion's listing of several matches. */
    method ListMatches(matches: seq<string>)
      requires ConsoleValid() && forall k :: 0 <= k < |matches| ==> PlainText(matches[k])
      modifies console, console.terminal, console.terminal.buffer
      ensures ConsoleValid()
      ensures Printed(old(ConsoleState()), "\n" + Listing(matches) + "\n")
    {
      hide LineShell.ConsoleValid;
      hide LineShell.ConsoleState;
      hide LineShell.ScreenState;
      hide Ansi.Feed, PutAll, PlainText;
      ConsoleIsOk();
      ghost var c := ConsoleState();
      NewLine();
      var i := 0;
      assert "\n" + Listing(matches[..0]) == "\n";
      while i < |matches|
        invariant 0 <= i <= |matches| && ConsoleValid()
        invariant ConsoleState() == Ansi.Feed(c, "\n" + Listing(matches[..i]))
      {
        WritePlain(matches[i]);
        Ansi.FeedAppend(c, "\n" + Listing(matches[..i]), matches[i]);
        TwoBlanks();
        WritePlain("  ");
        Ansi.FeedAppend(c, "\n" + Listing(matches[..i]) + matches[i], "  ");
        assert matches[..i + 1][..i] == matches[..i];
        assert "\n" + Listing(matches[..i]) + matches[i] + "  " == "\n" + Listing(matches[..i + 1]);
        i := i + 1;
      }
      assert matches[..i] == matches;
      NewLine();
      Ansi.FeedAppend(c, "\n" + Listing(matches), "\n");
    }

    lemma ConsoleIsOk()
      requires ConsoleValid()
      ensures Ansi.ConsoleOk(ConsoleState()) && ConsoleState().parser == Ansi.Normal
    {
    }

    lemma GridIsOk()
      requires ConsoleValid()
      ensures GridOk(ScreenState())
    {
    }
  }

  /** command_recognition. */
  method CommandRecognition(a: string, b: string) returns (i: nat)
    requires NUL !in a && NUL !in b
    ensures i == CommonPrefix(a, b)
  {
    i := 0;
    while CharAt(a, i) != NUL && CharAt(b, i) != NUL && CharAt(a, i) == CharAt(b, i)
      invariant 0 <= i <= |a| && i <= |b| && a[..i] == b[..i]
      decreases |a| - i
    {
      i := i + 1;
    }
    assert i < |a| ==> a[i] in a;
    assert i < |b| ==> b[i] in b;
    CommonPrefixIsGreatest(a, b, a[..i]);
    var n := CommonPrefix(a, b);
    assert forall j :: 0 <= j < n ==> a[j] == a[..n][j] == b[..n][j] == b[j];
  }

  lemma NoNul(s: string)
    requires PlainText(s)
    ensures NUL !in s
  {
  }

  lemma NoCommands(prefix: string)
    ensures Matches([], prefix) == []
  {
  }

  lemma LcpStep(ms: seq<string>, c: string)
    ensures Lcp(ms + [c]) == if ms == [] then |c| else
              var k := CommonPrefix(ms[0], c); if k < Lcp(ms) then k else Lcp(ms)
  {
    assert (ms + [c])[..|ms|] == ms;
  }

  /** The first 32 matches, how many these are, and the length of the longest common prefix of all matches. */
  ghost predicate Found(l: Line, commands: seq<string>, matches: seq<string>, n: nat, lcp: int)
    requires l.cursor <= |l.text|
  {
    var ms := Matches(commands, l.text[..l.cursor]);
    && n == |matches| <= MAX_MATCHES && matches <= ms && (n == |ms| || n == MAX_MATCHES < |ms|)
    && lcp == if ms == [] then -1 else Lcp(ms)
  }

  lemma MatchesArePlain(l: Line, commands: seq<string>, matches: seq<string>, n: nat, lcp: int)
    requires l.cursor <= |l.text| && CommandsOk(commands) && Found(l, commands, matches, n, lcp)
    ensures forall j :: 0 <= j < |matches| ==> PlainText(matches[j]) && |matches[j]| <= BUFFER_SIZE - 2
    ensures |matches| > 1 ==> lcp <= |matches[0]|
  {
    MatchesOk(commands, l.text[..l.cursor]);
    hide Matches, Lcp, PlainText;
  }

  lemma NoCompletion(l: Line, commands: seq<string>, prompt: string)
    requires l.cursor <= |l.text| && ' ' in l.text[..l.cursor]
    ensures Complete(l, commands) == l && CompletionOutput(l, commands, prompt) == "" && !Listed(l, commands)
  {
  }

  /** What command_completion does with the matches it found. */
  lemma CompletionCases(l: Line, commands: seq<string>, prompt: string, matches: seq<string>, n: nat, lcp: int)
    requires l.cursor <= |l.text| && ' ' !in l.text[..l.cursor] && Found(l, commands, matches, n, lcp)
    ensures n == |matches|
    ensures |matches| == 0 ==>
              Complete(l, commands) == l && CompletionOutput(l, commands, prompt) == "" && !Listed(l, commands)
    ensures |matches| == 1 ==>
              && l.text[..l.cursor] <= matches[0] && !Listed(l, commands)
              && Complete(l, commands) == Line(matches[0] + " ", |matches[0]| + 1)
              && CompletionOutput(l, commands, prompt) == matches[0][l.cursor..] + " "
    ensures |matches| > 1 && lcp > l.cursor ==>
              && l.text[..l.cursor] <= matches[0] && lcp <= |matches[0]| && !Listed(l, commands)
              && Complete(l, commands) == Line(matches[0][..lcp], lcp)
              && CompletionOutput(l, commands, prompt) == matches[0][l.cursor..lcp]
    ensures |matches| > 1 && lcp <= l.cursor ==>
              && Complete(l, commands) == l && Listed(l, commands)
              && CompletionOutput(l, commands, prompt) == "\n" + Listing(matches) + "\n" + prompt + l.text
  {
    hide Matches, Lcp, Listing;
    var ms := Matches(commands, l.text[..l.cursor]);
    assert |matches| == |ms| ==> matches == ms;
    assert |ms| > MAX_MATCHES ==> matches == ms[..MAX_MATCHES];
    assert |matches| > 0 ==> matches[0] == ms[0];
  }

  lemma CommandPieces(command: string, from: nat, len: nat)
    requires PlainText(command) && from <= len <= |command|
    ensures PlainText(command[..len]) && PlainText(command[..len] + " ") && PlainText(command[from..len])
    ensures PlainText(command[from..len] + " ")
  {
  }

  lemma TypedText(buf: seq<char>, text: string, command: string, from: nat)
    requires HoldsAt(buf, 0, text) && from <= |text| && text[..from] <= command
    ensures forall k :: 0 <= k < from ==> buf[k] == command[k]
  {
    assert forall k :: 0 <= k < from ==> text[..from][k] == command[k];
  }

  lemma CompletedBuffer(buf: seq<char>, command: string, len: nat, addSpace: bool)
    requires PlainText(command) && len <= |command| && len + 1 < |buf|
    requires forall k :: 0 <= k < len ==> buf[k] == command[k]
    requires if addSpace then buf[len] == ' ' && buf[len + 1] == NUL else buf[len] == NUL
    ensures HoldsAt(buf, 0, command[..len] + (if addSpace then " " else ""))
  {
  }

  /** The rest of the command behind the typed text completes it on the screen. */
  lemma CompletionDisplayed(g: Grid, origin: int, l: Line, command: string, len: nat, addSpace: bool) returns (k: nat)
    requires Displays(g, origin, l) && l.cursor <= len <= |command| <= BUFFER_SIZE - 2
    requires l.text[..l.cursor] <= command && PlainText(command) && PlainText(l.text)
    ensures var blank := if addSpace then " " else "";
            var q := Line(command[..len] + blank, if addSpace then len + 1 else len);
            Overwritten(View(g, origin, l), View(PutAll(g, command[l.cursor..len] + blank), origin - k * WIDTH, q), k)
  {
    var blank := if addSpace then " " else "";
    var more := command[l.cursor..len] + blank;
    assert l.text[..l.cursor] + more == command[..len] + blank;
    k := OverwriteDisplayed(g, origin, l, more);
  }

  /** A text printed leaves the terminal cursor behind it. */
  lemma WrittenAgain(g: Grid, text: string, cursor: nat) returns (origin: int)
    requires GridOk(g) && PlainText(text) && cursor <= |text| <= MAX_TEXT
    ensures Displays(PutAll(g, text), origin, Line(text, cursor)) <==> cursor == |text|
  {
    var n := WriteDisplayed(g, text);
    origin := g.pos - n * WIDTH;
    hide PutAll;
  }

  lemma TwoBlanks()
    ensures PlainText("  ")
  {
  }

  lemma NothingFed(c: Ansi.Console, command: string, from: nat)
    requires Ansi.ConsoleOk(c) && from <= |command|
    ensures command[from..from] == "" && Ansi.Feed(c, "") == c
  {
  }

  /** strlcpy of a history line into the buffer. */
  method CopyLine(buffer: array<char>, line: string)
    requires buffer.Length == BUFFER_SIZE && PlainText(line) && |line| <= History.KEPT
    modifies buffer
    ensures HoldsAt(buffer[..], 0, line)
  {
    StrLCpy(buffer, line, BUFFER_SIZE);
    CopiedString(buffer[..], line);
  }

  lemma DisplayedGrid(g: Grid, origin: int, l: Line)
    requires Displays(g, origin, l)
    ensures GridOk(g)
  {
  }

  lemma NoBlank(s: string, i: int, j: int)
    requires 0 <= i <= j <= |s|
    ensures s[..j] + "" == s[..j] && s[i..j] + "" == s[i..j]
    ensures s[..|s|] == s && s[i..|s|] == s[i..]
  {
  }

  lemma EmptyLine(buf: seq<char>)
    requires |buf| > 0 && buf[0] == NUL
    ensures HoldsAt(buf, 0, "") && PlainText("")
  {
  }

  lemma EmptyDisplayed(g: Grid)
    requires GridOk(g)
    ensures Displays(g, g.pos, EMPTY)
  {
  }

  lemma LineInBuffer(buf: seq<char>, text: string)
    requires HoldsAt(buf, 0, text) && |buf| == BUFFER_SIZE
    ensures |text| <= MAX_TEXT
  {
  }

  lemma InsertKeepsPlain(l: Line, c: char)
    requires LineOk(l) && PlainText(l.text) && IsPlain(c) && |l.text| < MAX_TEXT
    ensures PlainText(Insert(l, c).text) && forall k :: 0 <= k <= |l.text| ==> PlainText(Insert(l, c).text[k..])
  {
  }

  lemma EraseKeepsPlain(l: Line)
    requires LineOk(l) && PlainText(l.text) && l.cursor > 0
    ensures PlainText(Erase(l).text) && PlainText(Erase(l).text[l.cursor - 1..])
  {
  }

  lemma PlainAfterCut(s: string)
    requires PlainText(s)
    ensures NUL !in s && PlainText(Cut(s, History.KEPT))
  {
  }

  lemma CopiedString(buf: seq<char>, s: string)
    requires Terminated(buf) && Str(buf) == s && PlainText(s)
    ensures HoldsAt(buf, 0, s)
  {
    assert forall k :: 0 <= k < |s| ==> buf[k] == Str(buf)[k];
  }
}
