/** Control sequences as they are written and parsed (ECMA-48, section 5.4): what the parser of src/kernel/ainsi.zig
    makes of any number of fields, what colours, cursor and cells are afterwards, and so of set_cursor_ansi in
    src/kernel/kernel.c. */
module ControlSequences {

  import opened Machine
  import opened Screen
  import opened Ansi
  import opened Numbers
  import opened CStrings

  predicate AllDigits(fs: seq<string>) {
    forall k :: 0 <= k < |fs| ==> IsDigits(fs[k])
  }

  /** The fields of a sequence: its numbers as they are written, an absent one empty. */
  predicate FieldsOk(fs: seq<string>) {
    |fs| > 0 && AllDigits(fs)
  }

  /** The fields, separated by semicolons. */
  function Joined(fs: seq<string>): string
    requires |fs| > 0
  {
    if |fs| == 1 then fs[0] else Joined(fs[..|fs| - 1]) + ";" + fs[|fs| - 1]
  }

  /** ESC [ field ; ... ; field */
  function Csi(fs: seq<string>): string
    requires |fs| > 0
  {
    [ESC, '['] + Joined(fs)
  }

  /** The digits that reach parameter i: there are eight, so fields i, i + 8, i + 16 and so on, one behind the other. */
  function Gathered(fs: seq<string>, i: int): (s: string)
    requires AllDigits(fs)
    ensures IsDigits(s)
  {
    if fs == [] then ""
    else Gathered(fs[..|fs| - 1], i) + if (|fs| - 1) % 8 == i then fs[|fs| - 1] else ""
  }

  /** Up to eight fields are a parameter each. */
  lemma {:induction false} FewFields(fs: seq<string>, i: int)
    requires AllDigits(fs) && |fs| <= 8 && 0 <= i < 8
    ensures Gathered(fs, i) == if i < |fs| then fs[i] else ""
  {
    hide IsDigits;
    if fs != [] {
      var k, init := |fs| - 1, fs[..|fs| - 1];
      FewFields(init, i);
      assert Gathered(fs, i) == Gathered(init, i) + if k == i then fs[k] else "";
      assert "" + fs[k] == fs[k] && Gathered(init, i) + "" == Gathered(init, i);
    }
  }

  /** The parameters after the fields: the value of their digits, cut to 16 bits. */
  function Params(fs: seq<string>): (params: seq<int>)
    requires AllDigits(fs)
    ensures |params| == 8
  {
    seq(8, i requires 0 <= i => Min(Value(Gathered(fs, i)), 65535))
  }

  /** The console with another value of the parameter being read. */
  function WithParam(c: Console, v: int): Console
    requires c.parser.Bracket? && 0 <= c.parser.index < |c.parser.params|
  {
    c.(parser := Bracket(c.parser.params[c.parser.index := v], c.parser.index))
  }

  /** Digits accumulate behind those already there, cut to 16 bits. */
  lemma {:induction false} FeedDigits(c: Console, done: string, s: string)
    requires ConsoleOk(c) && c.parser.Bracket? && IsDigits(done) && IsDigits(s)
    requires c.parser.params[c.parser.index] == Min(Value(done), 65535)
    ensures IsDigits(done + s) && Feed(c, s) == WithParam(c, Min(Value(done + s), 65535))
  {
    if s == "" {
      assert done + s == done;
      assert c.parser.params == c.parser.params[c.parser.index := Min(Value(done), 65535)];
      assert Feed(c, s) == c;
    } else {
      var init, d := s[..|s| - 1], s[|s| - 1];
      FeedDigits(c, done, init);
      assert done + s == done + init + [d];
      hide Process;
      FeedDigit(c, done + init, d);
    }
  }

  lemma FeedDigit(c: Console, done: string, d: char)
    requires ConsoleOk(c) && c.parser.Bracket? && IsDigits(done) && '0' <= d <= '9'
    requires ConsoleOk(WithParam(c, Min(Value(done), 65535)))
    ensures IsDigits(done + [d])
    ensures Process(WithParam(c, Min(Value(done), 65535)), d) == WithParam(c, Min(Value(done + [d]), 65535))
  {
    assert (done + [d])[..|done|] == done;
    Saturate(Value(done), DigitValue(d));
    assert IsDigit(d);
    hide Value;
    var params, i, v := c.parser.params, c.parser.index, Min(Value(done), 65535);
    assert params[i := v][i := Accumulate(v, DigitValue(d))] == params[i := Accumulate(v, DigitValue(d))];
  }

  lemma Saturate(v: nat, d: int)
    requires 0 <= d <= 9
    ensures Accumulate(Min(v, 65535), d) == Min(v * 10 + d, 65535)
  {
  }

  lemma Semicolon(c: Console)
    requires ConsoleOk(c) && c.parser.Bracket?
    ensures Process(c, ';') == c.(parser := Bracket(c.parser.params, (c.parser.index + 1) % 8))
  {
  }

  lemma ParamsStep(fs: seq<string>)
    requires FieldsOk(fs)
    ensures var k, init := |fs| - 1, fs[..|fs| - 1];
            && AllDigits(init) && IsDigits(fs[k])
            && Params(fs) == Params(init)[k % 8 := Min(Value(Gathered(init, k % 8) + fs[k]), 65535)]
            && Params(init)[k % 8] == Min(Value(Gathered(init, k % 8)), 65535)
  {
    var k, init := |fs| - 1, fs[..|fs| - 1];
    hide Value;
    forall i | 0 <= i < 8
      ensures Params(fs)[i] == if i == k % 8 then Min(Value(Gathered(init, i) + fs[k]), 65535) else Params(init)[i]
    {
      assert Gathered(init, i) + "" == Gathered(init, i);
    }
  }

  /** Inside the sequence the parser holds what the fields so far amount to. */
  lemma {:induction false} FeedJoined(c: Console, fs: seq<string>)
    requires ConsoleOk(c) && FieldsOk(fs)
    requires c.parser == Bracket(seq(MAX_PARAMS, _ => 0), 0)
    ensures Feed(c, Joined(fs)) == c.(parser := Bracket(Params(fs), (|fs| - 1) % 8))
  {
    ParamsStep(fs);
    if |fs| == 1 {
      NoFields(c);
      hide Feed, Process, Params, Value, Gathered;
      FeedDigits(c, "", fs[0]);
      assert "" + fs[0] == fs[0];
    } else {
      hide Feed, Process, Params, Value, Gathered;
      FeedJoined(c, fs[..|fs| - 1]);
      FeedField(c, fs);
    }
  }

  lemma NoFields(c: Console)
    requires c.parser == Bracket(seq(MAX_PARAMS, _ => 0), 0)
    ensures Params([]) == c.parser.params && Gathered([], 0) == "" && Value("") == 0
  {
  }

  /** A semicolon and one field more. */
  lemma FeedField(c: Console, fs: seq<string>)
    requires ConsoleOk(c) && FieldsOk(fs) && |fs| > 1 && AllDigits(fs[..|fs| - 1])
    requires Feed(c, Joined(fs[..|fs| - 1])) == c.(parser := Bracket(Params(fs[..|fs| - 1]), (|fs| - 2) % 8))
    ensures Feed(c, Joined(fs)) == c.(parser := Bracket(Params(fs), (|fs| - 1) % 8))
  {
    hide Feed, Process, Params, Value, Gathered, ConsoleOk;
    var k, init := |fs| - 1, fs[..|fs| - 1];
    ParamsStep(fs);
    var digits, before, field := Gathered(init, k % 8), Joined(init), fs[k];
    assert Joined(fs) == before + ";" + field;
    NextIndex(k);
    hide Joined, FieldsOk, AllDigits;
    BehindSemicolon(c, before, Params(init), k);
    FeedAppend(c, before + ";", field);
    FeedDigits(Feed(c, before + ";"), digits, field);
  }

  lemma BehindSemicolon(c: Console, text: string, params: seq<int>, k: nat)
    requires ConsoleOk(c) && k > 0 && Feed(c, text) == c.(parser := Bracket(params, (k - 1) % 8))
    ensures Feed(c, text + ";") == c.(parser := Bracket(params, k % 8))
  {
    hide Feed, Process, ConsoleOk;
    FeedAppend(c, text, ";");
    FeedOne(Feed(c, text), ';');
    Semicolon(Feed(c, text));
    NextIndex(k);
  }

  lemma NextIndex(k: nat)
    requires k > 0
    ensures ((k - 1) % 8 + 1) % 8 == k % 8
  {
  }

  /** From normal state the introducer and any number of fields leave the parser holding their values and the screen
      untouched. */
  lemma CsiParsesBack(c: Console, fs: seq<string>)
    requires ConsoleOk(c) && c.parser == Normal && FieldsOk(fs)
    ensures Feed(c, Csi(fs)) == c.(parser := Bracket(Params(fs), (|fs| - 1) % 8))
  {
    FeedAppend(c, [ESC, '['], Joined(fs));
    FeedAppend(c, [ESC], ['[']);
    assert [ESC, '['] == [ESC] + ['['];
    FeedOne(c, ESC);
    FeedOne(Process(c, ESC), '[');
    FeedJoined(c.(parser := Bracket(seq(MAX_PARAMS, _ => 0), 0)), fs);
  }

  /** The sequence and its final byte. */
  lemma FinalByte(c: Console, fs: seq<string>, final: char)
    requires ConsoleOk(c) && c.parser == Normal && FieldsOk(fs)
    ensures ConsoleOk(c.(parser := Bracket(Params(fs), (|fs| - 1) % 8)))
    ensures Feed(c, Csi(fs) + [final]) == Process(c.(parser := Bracket(Params(fs), (|fs| - 1) % 8)), final)
  {
    hide Feed, Process, Params;
    CsiParsesBack(c, fs);
    FeedAppend(c, Csi(fs), [final]);
    FeedOne(Feed(c, Csi(fs)), final);
  }

  /** A sequence with any other final byte than J, H and m does nothing. */
  lemma UnknownSequenceIgnored(c: Console, fs: seq<string>, final: char)
    requires ConsoleOk(c) && c.parser == Normal && FieldsOk(fs)
    requires !('0' <= final <= '9') && final != ';' && final != 'J' && final != 'H' && final != 'm'
    ensures Feed(c, Csi(fs) + [final]) == c
  {
    hide Params;
    FinalByte(c, fs, final);
  }

  /** Whatever character follows ESC, unless it is '[', both are dropped. */
  lemma EscapeAborts(c: Console, ch: char)
    requires ConsoleOk(c) && c.parser == Normal && ch != '['
    ensures Feed(c, [ESC, ch]) == c
  {
    assert [ESC, ch] == [ESC] + [ch];
    FeedAppend(c, [ESC], [ch]);
    FeedOne(c, ESC);
    FeedOne(Process(c, ESC), ch);
  }

  // ---- 'J' ----------------------------------------------------------------------------------------

  /** A 'J' sequence erases from the cursor on, up to the cursor, or everything with the cursor going home. */
  lemma EraseParses(c: Console, fs: seq<string>)
    requires ConsoleOk(c) && c.parser == Normal && FieldsOk(fs)
    ensures var g, r, mode := c.grid, Feed(c, Csi(fs) + "J").grid, Params(fs)[0];
            && Feed(c, Csi(fs) + "J") == c.(grid := r) && r.color == g.color
            && r.pos == (if mode == 2 then 0 else g.pos)
            && forall i :: 0 <= i < 2000 ==>
                 r.cells[i] == if mode == 2 || (mode == 0 && i >= g.pos) || (mode == 1 && i < g.pos)
                               then Cell(' ', g.color) else g.cells[i]
  {
    FinalByte(c, fs, 'J');
    hide Params, Feed;
  }

  // ---- 'H' ----------------------------------------------------------------------------------------

  /** Coordinate n of at most most, counted from 1, counted from 0. */
  function FromZero(n: int, most: int): int {
    if n < 1 then 0 else if n > most then most - 1 else n - 1
  }

  /** An 'H' sequence puts the cursor into the row its first number says and the column its second says, both counted
      from 1 and cut to the screen, and changes nothing else. */
  lemma CursorPositionParses(c: Console, fs: seq<string>)
    requires ConsoleOk(c) && c.parser == Normal && FieldsOk(fs)
    ensures Feed(c, Csi(fs) + "H") == c.(grid := c.grid.(pos := 80 * FromZero(Params(fs)[0], 25) + FromZero(Params(fs)[1], 80)))
  {
    FinalByte(c, fs, 'H');
    hide Feed;
  }

  lemma DecimalDigits(n: int)
    requires 0 <= n
    ensures IsDigits(Decimal(n)) && Value(Decimal(n)) == n
  {
    ValueOfDigits(n);
    assert "0"[..0] == "";
  }

  /** set_cursor_ansi: printing the sequence moves the cursor to the place asked for. */
  method SetCursorAnsi(console: AnsiConsole, x: int, y: int)
    requires console.Valid() && console.currentState == Normal
    requires 0 <= x <= INT_MAX && 0 <= y <= INT_MAX
    modifies console, console.terminal, console.terminal.buffer
    ensures console.Valid()
    ensures var c := old(console.State());
            console.State() == c.(grid := c.grid.(pos := 80 * FromZero(y, 25) + FromZero(x, 80)))
  {
    hide Feed, Process, Decimal, Joined, FromZero, Terminated;
    ghost var c := console.State();
    DecimalFits(x);
    DecimalFits(y);
    var buf := new char[16];
    console.WriteString([ESC, '[']);
    Itoa(y, buf);
    var text := ReadBuffer(buf);
    console.WriteString(text);
    console.WriteString(";");
    Itoa(x, buf);
    text := ReadBuffer(buf);
    console.WriteString(text);
    console.WriteString("H");
    Pieces(c, x, y);
    PlaceParses(c, x, y);
  }

  lemma PlaceParses(c: Console, x: int, y: int)
    requires ConsoleOk(c) && c.parser == Normal && 0 <= x && 0 <= y
    ensures Feed(c, Csi([Decimal(y), Decimal(x)]) + "H")
            == c.(grid := c.grid.(pos := 80 * FromZero(y, 25) + FromZero(x, 80)))
  {
    var fs := [Decimal(y), Decimal(x)];
    DecimalDigits(x);
    DecimalDigits(y);
    FewFields(fs, 0);
    FewFields(fs, 1);
    hide Feed, Csi, Decimal, Value, Gathered;
    CursorPositionParses(c, fs);
  }

  /** The string a buffer holds, as terminal_writestring takes it. */
  method ReadBuffer(buf: array<char>) returns (text: string)
    requires Terminated(buf[..])
    ensures text == Str(buf[..])
  {
    assert buf[0..] == buf[..];
    var n := StrLen(buf, 0);
    text := buf[..n];
  }

  lemma Pieces(c: Console, x: int, y: int)
    requires ConsoleOk(c)
    ensures Feed(Feed(Feed(Feed(Feed(c, [ESC, '[']), Decimal(y)), ";"), Decimal(x)), "H")
            == Feed(c, Csi([Decimal(y), Decimal(x)]) + "H")
  {
    hide Feed, Decimal, ConsoleOk;
    FeedAppend(c, [ESC, '['], Decimal(y));
    FeedAppend(c, [ESC, '['] + Decimal(y), ";");
    FeedAppend(c, [ESC, '['] + Decimal(y) + ";", Decimal(x));
    FeedAppend(c, [ESC, '['] + Decimal(y) + ";" + Decimal(x), "H");
    var fs := [Decimal(y), Decimal(x)];
    assert fs[..1] == [Decimal(y)] && Joined([Decimal(y)]) == Decimal(y);
    assert Joined(fs) == Decimal(y) + ";" + Decimal(x);
    assert [ESC, '['] + Decimal(y) + ";" + Decimal(x) == Csi(fs);
  }

  // ---- 'm' ----------------------------------------------------------------------------------------

  /** The foreground a code asks for, as a VGA colour. */
  function Foreground(code: int): Option<int> {
    if 30 <= code <= 37 then Some([0, 4, 2, 6, 1, 5, 3, 7][code - 30])
    else if 90 <= code <= 97 then Some([8, 12, 10, 14, 9, 13, 11, 15][code - 90])
    else if code == 0 || code == 38 || code == 39 then Some(7)
    else None
  }

  /** The background it asks for. */
  function Background(code: int): Option<int> {
    if 40 <= code <= 47 then Some([0, 4, 2, 6, 1, 5, 3, 7][code - 40])
    else if code == 48 || code == 49 then Some(7)
    else if code == 0 then Some(0)
    else None
  }

  /** The foreground after codes, of which the last that asks for one counts; fg if none does. */
  function ForegroundAfter(fg: int, codes: seq<int>): int {
    if codes == [] then fg
    else match Foreground(codes[|codes| - 1])
      case Some(colour) => colour
      case None => ForegroundAfter(fg, codes[..|codes| - 1])
  }

  function BackgroundAfter(bg: int, codes: seq<int>): int {
    if codes == [] then bg
    else match Background(codes[|codes| - 1])
      case Some(colour) => colour
      case None => BackgroundAfter(bg, codes[..|codes| - 1])
  }

  /** The screen's colour is that of the parser. */
  predicate ColoursAgree(c: Console)
    requires ColorOk(c.color)
  {
    c.grid.color == ToVga(c.color)
  }

  /** Nothing but an 'm' sequence sets the screen's colour, so over every text the two stay the same. */
  lemma {:induction false} ColoursStayTheSame(c: Console, text: string)
    requires ConsoleOk(c) && ColoursAgree(c)
    ensures ColoursAgree(Feed(c, text))
  {
    if text != "" {
      ColoursStayTheSame(c, text[..|text| - 1]);
      ProcessKeepsColours(Feed(c, text[..|text| - 1]), text[|text| - 1]);
    }
  }

  lemma ProcessKeepsColours(c: Console, ch: char)
    requires ConsoleOk(c) && ColoursAgree(c)
    ensures ColoursAgree(Process(c, ch))
  {
    hide CsiToVga, DrainAll, Accumulate;
  }

  /** The colour a console starts with, light grey on black. */
  lemma InitialColours(g: Grid)
    requires GridOk(g) && g.color == 7
    ensures ColoursAgree(Console(Normal, INITIAL_COLOR, g))
  {
  }

  lemma {:induction false} DrainedColours(c: VgaColor, codes: seq<int>)
    requires ColorOk(c)
    ensures ToVga(DrainAll(c, codes)) % 16 == ForegroundAfter(ToVga(c) % 16, codes)
    ensures ToVga(DrainAll(c, codes)) / 16 == BackgroundAfter(ToVga(c) / 16, codes)
  {
    hide ToVga, Drain, Foreground, Background;
    if codes != [] {
      DrainedColours(c, codes[..|codes| - 1]);
      DrainedOnce(DrainAll(c, codes[..|codes| - 1]), codes[|codes| - 1]);
    }
  }

  lemma DrainedOnce(c: VgaColor, code: int)
    requires ColorOk(c)
    ensures var r := ToVga(Drain(c, code));
            && r % 16 == (if Foreground(code).Some? then Foreground(code).value else ToVga(c) % 16)
            && r / 16 == (if Background(code).Some? then Background(code).value else ToVga(c) / 16)
  {
  }

  /** An 'm' sequence sets the colour of what is printed from then on to the last foreground and the last background
      among its numbers, keeping either half if none names one, and changes nothing else of the screen. */
  lemma SelectGraphicsParses(c: Console, fs: seq<string>)
    requires ConsoleOk(c) && c.parser == Normal && FieldsOk(fs) && ColoursAgree(c)
    ensures var r, codes := Feed(c, Csi(fs) + "m"), Params(fs)[..(|fs| - 1) % 8 + 1];
            && r.parser == Normal && ColoursAgree(r)
            && r.grid == c.grid.(color := ForegroundAfter(c.grid.color % 16, codes)
                                          + 16 * BackgroundAfter(c.grid.color / 16, codes))
  {
    hide Params, Feed, CsiToVga, ToVga, DrainAll, Csi, ForegroundAfter, BackgroundAfter;
    FinalByte(c, fs, 'm');
    DrainedColours(c.color, Params(fs)[..(|fs| - 1) % 8 + 1]);
  }

  /** Its cells stay whatever the parser's colours were. */
  lemma SelectGraphicsKeepsCells(c: Console, fs: seq<string>)
    requires ConsoleOk(c) && c.parser == Normal && FieldsOk(fs)
    ensures var r := Feed(c, Csi(fs) + "m"); r.parser == Normal && r.grid == c.grid.(color := r.grid.color)
  {
    FinalByte(c, fs, 'm');
    hide Params, Feed, CsiToVga, ToVga, DrainAll;
  }

  /** ESC [ 1 ; 31 m makes the foreground red and keeps the background. */
  lemma RedText(c: Console)
    requires ConsoleOk(c) && c.parser == Normal && ColoursAgree(c)
    ensures Feed(c, "\U{1b}[1;31m").grid == c.grid.(color := 4 + c.grid.color / 16 * 16)
  {
    var fs := ["1", "31"];
    RedFields();
    RedCodes(c.grid.color);
    hide Feed, Params, Csi, ForegroundAfter, BackgroundAfter, ColoursAgree, ConsoleOk;
    SelectGraphicsParses(c, fs);
  }

  lemma RedFields()
    ensures FieldsOk(["1", "31"]) && Csi(["1", "31"]) + "m" == "\U{1b}[1;31m"
    ensures Params(["1", "31"])[..2] == [1, 31]
  {
    hide Params, Csi, Value, IsDigits;
    RedValues();
    RedJoined();
    TwoFields("1", "31");
  }

  lemma TwoFields(a: string, b: string)
    requires IsDigits(a) && IsDigits(b)
    ensures Params([a, b])[..2] == [Min(Value(a), 65535), Min(Value(b), 65535)]
  {
    FewFields([a, b], 0);
    FewFields([a, b], 1);
    hide Gathered, Value;
    assert Params([a, b])[0] == Min(Value(a), 65535) && Params([a, b])[1] == Min(Value(b), 65535);
  }

  lemma RedValues()
    ensures IsDigits("1") && IsDigits("31") && Value("1") == 1 && Value("31") == 31
  {
    assert "1"[..0] == "" && "31"[..1] == "3" && "3"[..0] == "" && Value("3") == 3;
  }

  lemma RedJoined()
    ensures Csi(["1", "31"]) + "m" == "\U{1b}[1;31m"
  {
    var fs := ["1", "31"];
    assert fs[..1] == ["1"] && Joined(["1"]) == "1";
    assert Joined(fs) == "1;31";
  }

  lemma CodeMore(colour: int, codes: seq<int>, code: int)
    ensures ForegroundAfter(colour, codes + [code]) ==
            if Foreground(code).Some? then Foreground(code).value else ForegroundAfter(colour, codes)
    ensures BackgroundAfter(colour, codes + [code]) ==
            if Background(code).Some? then Background(code).value else BackgroundAfter(colour, codes)
  {
    assert (codes + [code])[..|codes|] == codes;
  }

  lemma RedCodes(colour: int)
    ensures ForegroundAfter(colour % 16, [1, 31]) == 4 && BackgroundAfter(colour / 16, [1, 31]) == colour / 16
  {
    assert [1, 31] == [] + [1] + [31];
    CodeMore(colour / 16, [], 1);
    CodeMore(colour / 16, [] + [1], 31);
    CodeMore(colour % 16, [] + [1], 31);
  }

  /** There are eight parameters, and the ninth number is written behind the first: 1 and 31 become the code 131, the
      only one that is looked at, so the colour stays. */
  lemma NinthNumberJoinsTheFirst(c: Console)
    requires ConsoleOk(c) && c.parser == Normal && ColoursAgree(c)
    ensures var fs := ["1", "32", "0", "0", "0", "0", "0", "0", "31"]; Feed(c, Csi(fs) + "m").grid == c.grid
  {
    hide Feed, Csi, ConsoleOk, ColoursAgree, FieldsOk, Params, ForegroundAfter, BackgroundAfter;
    var fs := ["1", "32", "0", "0", "0", "0", "0", "0", "31"];
    NineFields();
    CodeIgnored(c.grid.color % 16);
    CodeIgnored(c.grid.color / 16);
    SelectGraphicsParses(c, fs);
    assert c.grid == c.grid.(color := c.grid.color);
  }

  lemma CodeIgnored(colour: int)
    ensures ForegroundAfter(colour, [131]) == colour && BackgroundAfter(colour, [131]) == colour
  {
    CodeMore(colour, [], 131);
    assert [] + [131] == [131];
  }

  lemma NineFields()
    ensures var fs := ["1", "32", "0", "0", "0", "0", "0", "0", "31"]; FieldsOk(fs) && Params(fs)[..1] == [131]
  {
    var eight := ["1", "32", "0", "0", "0", "0", "0", "0"];
    var fs := eight + ["31"];
    assert fs == ["1", "32", "0", "0", "0", "0", "0", "0", "31"] && fs[..8] == eight;
    NineDigits();
    FewFields(eight, 0);
    hide Value, FieldsOk;
    assert Gathered(fs, 0) == "131";
  }

  lemma NineDigits()
    ensures FieldsOk(["1", "32", "0", "0", "0", "0", "0", "0", "31"]) && Value("131") == 131
  {
    assert "131"[..2] == "13" && "13"[..1] == "1" && "1"[..0] == "" && Value("1") == 1 && Value("13") == 13;
  }
}
