/** src/kernel/ainsi.zig: the escape-sequence parser between the kernel's output and the terminal, with
    its colour state (ECMA-48, sections 5.4, 8.3.21 and 8.3.117 for CUP and SGR). */
module Ansi {

  import opened Machine
  import opened Screen
  import Terminal

  const MAX_PARAMS: int := 8
  const U16_MAX: int := 65535
  const DEFAULT_COLOR: int := 7
  const ESC: char := '\U{1b}'

  /** The parser's state; params are the eight parameter accumulators. */
  datatype Parser = Normal | Escape | Bracket(params: seq<int>, index: int)

  /** VgaColor: the last foreground and background codes. */
  datatype VgaColor = VgaColor(fg: int, bg: int)

  const INITIAL_COLOR: VgaColor := VgaColor(37, 40)

  /** Parser, colours and screen together. */
  datatype Console = Console(parser: Parser, color: VgaColor, grid: Grid)

  predicate ParserOk(p: Parser) {
    p.Bracket? ==>
      && |p.params| == MAX_PARAMS && 0 <= p.index < MAX_PARAMS
      && forall i :: 0 <= i < MAX_PARAMS ==> 0 <= p.params[i] <= U16_MAX
  }

  predicate ColorOk(c: VgaColor) {
    0 <= c.fg <= 97 && 40 <= c.bg <= 49
  }

  predicate ConsoleOk(c: Console) {
    ParserOk(c.parser) && ColorOk(c.color) && GridOk(c.grid)
  }

  /** csi_to_vga. */
  function CsiToVga(code: int): (r: int)
    ensures 0 <= r < 16
    ensures 40 <= code <= 49 ==> r < 8
  {
    match code
    case 0 => DEFAULT_COLOR
    case 30 => 0 case 40 => 0
    case 31 => 4 case 41 => 4
    case 32 => 2 case 42 => 2
    case 33 => 6 case 43 => 6
    case 34 => 1 case 44 => 1
    case 35 => 5 case 45 => 5
    case 36 => 3 case 46 => 3
    case 37 => 7 case 47 => 7
    case 90 => 8
    case 91 => 12
    case 92 => 10
    case 93 => 14
    case 94 => 9
    case 95 => 13
    case 96 => 11
    case 97 => 15
    case _ => DEFAULT_COLOR
  }

  /** VgaColor.to_vga: foreground in the low four bits, background in the next four. */
  function ToVga(c: VgaColor): (r: int)
    requires ColorOk(c)
    ensures 0 <= r < 128 && r % 16 == CsiToVga(c.fg) && r / 16 == CsiToVga(c.bg)
  {
    CsiToVga(c.fg) + 16 * CsiToVga(c.bg)
  }

  /** VgaColor.drain: one SGR code. */
  function Drain(c: VgaColor, code: int): (r: VgaColor)
    requires ColorOk(c)
    ensures ColorOk(r)
  {
    if 30 <= code <= 39 || 90 <= code <= 97 then c.(fg := code)
    else if 40 <= code <= 49 then c.(bg := code)
    else if code == 0 then INITIAL_COLOR
    else c
  }

  /** The codes of an SGR sequence, drained from left to right. */
  function DrainAll(c: VgaColor, codes: seq<int>): (r: VgaColor)
    requires ColorOk(c)
    ensures ColorOk(r)
  {
    if codes == [] then c else Drain(DrainAll(c, codes[..|codes| - 1]), codes[|codes| - 1])
  }

  predicate IsDigit(c: char) {
    '0' <= c <= '9'
  }

  function DigitValue(c: char): int {
    c as int - '0' as int
  }

  /** Accumulating one digit, saturating at 16 bits twice: `p *| 10 +| n`. */
  function Accumulate(p: int, n: int): int {
    Min(Min(p * 10, U16_MAX) + n, U16_MAX)
  }

  lemma AccumulateOk(p: int, n: int)
    requires 0 <= p <= U16_MAX && 0 <= n <= 9
    ensures 0 <= Accumulate(p, n) <= U16_MAX
  {
  }

  /** ansi_process_char. */
  function Process(c: Console, ch: char): (r: Console)
    requires ConsoleOk(c)
    ensures ConsoleOk(r)
  {
    match c.parser
    case Normal =>
      if ch == ESC then c.(parser := Escape) else c.(grid := PutRaw(c.grid, ch))
    case Escape =>
      if ch == '[' then c.(parser := Bracket(seq(MAX_PARAMS, _ => 0), 0)) else c.(parser := Normal)
    case Bracket(params, index) =>
      if IsDigit(ch) then
        c.(parser := Bracket(params[index := Accumulate(params[index], DigitValue(ch))], index))
      else if ch == 'J' then
        var grid := if params[0] == 0 then ClearAfter(c.grid) else if params[0] == 1 then ClearUntil(c.grid)
                    else if params[0] == 2 then Clear(c.grid) else c.grid;
        c.(parser := Normal, grid := grid)
      else if ch == 'H' then
        var y := if params[0] == 0 then 1 else params[0];
        var x := if params[1] == 0 then 1 else params[1];
        c.(parser := Normal, grid := SetCursor(c.grid, x - 1, y - 1))
      else if ch == ';' then
        c.(parser := Bracket(params, (index + 1) % MAX_PARAMS))
      else if ch == 'm' then
        var color := DrainAll(c.color, params[..index + 1]);
        Console(Normal, color, c.grid.(color := ToVga(color)))
      else c.(parser := Normal)
  }

  /** terminal_writestring: every character through the parser. */
  function Feed(c: Console, text: string): (r: Console)
    requires ConsoleOk(c)
    ensures ConsoleOk(r)
  {
    if text == "" then c else Process(Feed(c, text[..|text| - 1]), text[|text| - 1])
  }

  lemma {:induction false} FeedAppend(c: Console, a: string, b: string)
    requires ConsoleOk(c)
    ensures Feed(c, a + b) == Feed(Feed(c, a), b)
  {
    if b == "" {
      assert a + b == a;
    } else {
      FeedAppend(c, a, b[..|b| - 1]);
      assert (a + b)[..|a + b| - 1] == a + b[..|b| - 1];
    }
  }

  lemma FeedOne(c: Console, ch: char)
    requires ConsoleOk(c)
    ensures Feed(c, [ch]) == Process(c, ch)
  {
    assert [ch][..0] == "";
    assert Feed(c, "") == c;
  }

  /** Text without escape characters goes to the screen as it is. */
  lemma {:induction false} FeedPlain(c: Console, text: string)
    requires ConsoleOk(c) && c.parser == Normal && ESC !in text
    ensures Feed(c, text) == c.(grid := PutAll(c.grid, text))
  {
    if text != "" {
      FeedPlain(c, text[..|text| - 1]);
    }
  }

  /** A text after which a parser in normal state is in normal state again: its escape sequences are complete. */
  ghost predicate ReturnsToNormal(text: string) {
    forall c: Console {:trigger Feed(c, text)} :: ConsoleOk(c) && c.parser == Normal ==> Feed(c, text).parser == Normal
  }

  // ---- The parser and the terminal as the program holds them ----------------------------------

  class AnsiConsole {
    const terminal: Terminal.TextTerminal
    var currentState: Parser
    var activeColor: VgaColor

    ghost predicate Valid()
      reads this, terminal
    {
      terminal.Valid() && ParserOk(currentState) && ColorOk(activeColor)
    }

    ghost function State(): Console
      reads this, terminal, terminal.buffer
    {
      Console(currentState, activeColor, terminal.State())
    }

    constructor (terminal: Terminal.TextTerminal)
      requires terminal.Valid()
      ensures this.terminal == terminal && Valid()
      ensures State() == Console(Normal, INITIAL_COLOR, terminal.State())
    {
      this.terminal := terminal;
      currentState, activeColor := Normal, INITIAL_COLOR;
    }

    /** ansi_process_char. */
    method ProcessChar(c: char)
      requires Valid()
      modifies this, terminal, terminal.buffer
      ensures Valid() && State() == Process(old(State()), c)
    {
      match currentState
      case Normal =>
        if c == ESC {
          currentState := Escape;
        } else {
          terminal.PutCharRaw(c);
        }
      case Escape =>
        if c == '[' {
          currentState := Bracket(seq(MAX_PARAMS, _ => 0), 0);
        } else {
          currentState := Normal;
        }
      case Bracket(_, _) =>
        ProcessBracket(c);
    }

    /** ansi_process_char inside a control sequence. */
    method ProcessBracket(c: char)
      requires Valid() && currentState.Bracket?
      modifies this, terminal, terminal.buffer
      ensures Valid() && State() == Process(old(State()), c)
    {
      hide DrainAll, ToVga, Drain, CsiToVga, Clear, ClearAfter, ClearUntil, SetCursor, Accumulate;
      var Bracket(params, index) := currentState;
      if IsDigit(c) {
        var n := DigitValue(c);
        AccumulateOk(params[index], n);
        currentState := Bracket(params[index := Accumulate(params[index], n)], index);
      } else if c == 'J' {
        if params[0] == 0 {
          terminal.ClearAfterCursor();
        } else if params[0] == 1 {
          terminal.ClearUntilCursor();
        } else if params[0] == 2 {
          terminal.ClearScreen();
        }
        currentState := Normal;
      } else if c == 'H' {
        var y := if params[0] == 0 then 1 else params[0];
        var x := if params[1] == 0 then 1 else params[1];
        terminal.SetCursorTo(x - 1, y - 1);
        currentState := Normal;
      } else if c == ';' {
        currentState := Bracket(params, (index + 1) % MAX_PARAMS);
      } else if c == 'm' {
        SelectGraphics(params[..index + 1]);
        currentState := Normal;
      } else {
        currentState := Normal;
      }
    }

    /** The 'm' branch: the parameters entered, drained in order, then the terminal's colour. */
    method SelectGraphics(codes: seq<int>)
      requires Valid()
      modifies this`activeColor, terminal`color
      ensures Valid() && activeColor == DrainAll(old(activeColor), codes)
      ensures terminal.State() == old(terminal.State()).(color := ToVga(activeColor))
    {
      var i := 0;
      while i < |codes|
        invariant 0 <= i <= |codes|
        invariant Valid() && terminal.State() == old(terminal.State())
        invariant activeColor == DrainAll(old(activeColor), codes[..i])
        modifies this`activeColor
      {
        assert codes[..i + 1][..i] == codes[..i];
        activeColor := Drain(activeColor, codes[i]);
        i := i + 1;
      }
      assert codes[..i] == codes;
      terminal.SetColor(ToVga(activeColor));
    }

    /** terminal_write over a whole string. */
    method WriteString(data: string)
      requires Valid()
      modifies this, terminal, terminal.buffer
      ensures Valid() && State() == Feed(old(State()), data)
    {
      var i := 0;
      while i < |data|
        invariant 0 <= i <= |data|
        invariant Valid() && State() == Feed(old(State()), data[..i])
      {
        assert data[..i + 1][..i] == data[..i];
        ProcessChar(data[i]);
        i := i + 1;
      }
      assert data[..i] == data;
    }
  }
}
