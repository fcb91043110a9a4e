/** The 80x25 text screen of src/kernel/terminal.c as a value: its cells in row order and the cursor
    as a position among them; what each terminal call makes of it; and what a stream of characters
    leaves on it. */
module Screen {

  const WIDTH: int := 80
  const HEIGHT: int := 25
  const CELLS: int := 2000

  /** A VGA entry: character and colour byte. */
  datatype Cell = Cell(ch: char, color: int)

  /** cells[80 * row + column], the cursor at pos = 80 * row + column, the current colour. */
  datatype Grid = Grid(cells: seq<Cell>, pos: int, color: int)

  predicate GridOk(g: Grid) {
    |g.cells| == CELLS && 0 <= g.pos < CELLS
  }

  function Blanks(n: nat, color: int): (b: seq<Cell>)
    ensures |b| == n
  {
    seq(n, _ => Cell(' ', color))
  }

  // ---- The terminal's calls -----------------------------------------------------------------

  /** The cursor at pos, which may be just behind the last cell: then the rows move up by one. */
  function ScrollTo(g: Grid, pos: int): (r: Grid)
    requires GridOk(g) && 0 <= pos <= CELLS
    ensures GridOk(r)
  {
    if pos < CELLS then g.(pos := pos)
    else Grid(g.cells[WIDTH..] + Blanks(WIDTH, g.color), CELLS - WIDTH, g.color)
  }

  /** terminal_putchar_raw. */
  function PutRaw(g: Grid, c: char): (r: Grid)
    requires GridOk(g)
    ensures GridOk(r) && r.color == g.color
  {
    if c == '\n' then ScrollTo(g, (g.pos / WIDTH + 1) * WIDTH)
    else ScrollTo(g.(cells := g.cells[g.pos := Cell(c, g.color)]), g.pos + 1)
  }

  /** terminal_backspace: one cell back, not beyond the first, and that cell blank. */
  function Backspace(g: Grid): (r: Grid)
    requires GridOk(g)
    ensures GridOk(r) && r.color == g.color
  {
    var pos := if g.pos > 0 then g.pos - 1 else 0;
    Grid(g.cells[pos := Cell(' ', g.color)], pos, g.color)
  }

  /** terminal_move_cursor, clamped to the screen. */
  function MoveCursor(g: Grid, offset: int): (r: Grid)
    requires GridOk(g)
    ensures GridOk(r) && r.cells == g.cells && r.color == g.color
  {
    var pos := g.pos + offset;
    g.(pos := if pos < 0 then 0 else if pos >= CELLS then CELLS - 1 else pos)
  }

  /** terminal_set_cursor, clamped. */
  function SetCursor(g: Grid, x: nat, y: nat): (r: Grid)
    requires GridOk(g)
    ensures GridOk(r)
  {
    g.(pos := (if y >= HEIGHT then HEIGHT - 1 else y) * WIDTH + if x >= WIDTH then WIDTH - 1 else x)
  }

  /** terminal_clear. */
  function Clear(g: Grid): (r: Grid)
    ensures GridOk(r)
  {
    Grid(Blanks(CELLS, g.color), 0, g.color)
  }

  /** terminal_clear_until_cursor. */
  function ClearUntil(g: Grid): (r: Grid)
    requires GridOk(g)
    ensures GridOk(r)
  {
    g.(cells := Blanks(g.pos, g.color) + g.cells[g.pos..])
  }

  /** terminal_clear_after_cursor. */
  function ClearAfter(g: Grid): (r: Grid)
    requires GridOk(g)
    ensures GridOk(r)
  {
    g.(cells := g.cells[..g.pos] + Blanks(CELLS - g.pos, g.color))
  }

  /** The two partial clears split the screen at the cursor: each keeps the other's side, and together they
      leave what a full clear leaves. */
  lemma PartialClears(g: Grid)
    requires GridOk(g)
    ensures ClearUntil(ClearAfter(g)).cells == ClearAfter(ClearUntil(g)).cells == Clear(g).cells
    ensures ClearAfter(g).cells[..g.pos] == g.cells[..g.pos] && ClearUntil(g).cells[g.pos..] == g.cells[g.pos..]
    ensures ClearAfter(g).pos == ClearUntil(g).pos == g.pos
  {
  }

  /** A string of raw characters. */
  function PutAll(g: Grid, text: string): (r: Grid)
    requires GridOk(g)
    ensures GridOk(r) && r.color == g.color
  {
    if text == "" then g else PutRaw(PutAll(g, text[..|text| - 1]), text[|text| - 1])
  }

  lemma {:induction false} PutAllAppend(g: Grid, a: string, b: string)
    requires GridOk(g)
    ensures PutAll(g, a + b) == PutAll(PutAll(g, a), b)
  {
    if b == "" {
      assert a + b == a;
    } else {
      PutAllAppend(g, a, b[..|b| - 1]);
      assert (a + b)[..|a + b| - 1] == a + b[..|b| - 1];
    }
  }

  // ---- The screen is the end of an unbounded sheet --------------------------------------------

  function Spaces(n: nat): (s: string)
    ensures |s| == n
  {
    seq(n, _ => ' ')
  }

  /** The text wrapped at 80 columns on a sheet without end, row after row; its length is the
      cursor's place on the sheet. A newline fills the rest of its row with blanks. */
  function Sheet(text: string): string {
    if text == "" then ""
    else
      var s := Sheet(text[..|text| - 1]);
      var c := text[|text| - 1];
      if c == '\n' then s + Spaces(WIDTH - |s| % WIDTH) else s + [c]
  }

  /** The first row still visible when the cursor is at place pos of the sheet. */
  function TopRow(pos: nat): nat {
    if pos / WIDTH < HEIGHT then 0 else pos / WIDTH - (HEIGHT - 1)
  }

  /** Place i of the sheet, blank beyond its end. */
  function SheetCell(sheet: string, color: int, i: nat): Cell {
    Cell(if i < |sheet| then sheet[i] else ' ', color)
  }

  /** The last 25 rows of the sheet. */
  function Window(sheet: string, color: int): Grid {
    var top := TopRow(|sheet|) * WIDTH;
    Grid(seq(CELLS, i requires 0 <= i => SheetCell(sheet, color, top + i)), |sheet| - top, color)
  }

  lemma WindowCell(sheet: string, color: int, i: int)
    requires 0 <= i < CELLS
    ensures Window(sheet, color).cells[i] == SheetCell(sheet, color, TopRow(|sheet|) * WIDTH + i)
  {
  }

  lemma TopRowBounds(pos: nat)
    ensures 0 <= pos - TopRow(pos) * WIDTH < CELLS
    ensures TopRow(pos) > 0 ==> pos - TopRow(pos) * WIDTH >= CELLS - WIDTH
  {
  }

  /** The window after the cursor has moved on to place pos of a longer sheet, at most a row ahead. */
  lemma WindowAdvance(sheet: string, more: string, color: int, g: Grid)
    requires sheet <= more && |more| <= (|sheet| / WIDTH + 1) * WIDTH
    requires var top := TopRow(|sheet|) * WIDTH;
             && g.color == color && |g.cells| == CELLS && 0 <= g.pos < CELLS
             && (forall i :: 0 <= i < CELLS ==> g.cells[i] == SheetCell(more, color, top + i))
    ensures 0 <= |more| - TopRow(|sheet|) * WIDTH <= CELLS
    ensures ScrollTo(g, |more| - TopRow(|sheet|) * WIDTH) == Window(more, color)
  {
    TopRowBounds(|sheet|);
    TopRowBounds(|more|);
    var top := TopRow(|sheet|) * WIDTH;
    var r := ScrollTo(g, |more| - top);
    if |more| - top < CELLS {
      SameTop(|sheet|, |more|);
      forall i | 0 <= i < CELLS
        ensures r.cells[i] == Window(more, color).cells[i]
      {
        WindowCell(more, color, i);
      }
    } else {
      NextTop(|sheet|, |more|);
      forall i | 0 <= i < CELLS
        ensures r.cells[i] == Window(more, color).cells[i]
      {
        WindowCell(more, color, i);
        if i < CELLS - WIDTH {
          assert r.cells[i] == g.cells[i + WIDTH];
        }
      }
    }
    assert r.cells == Window(more, color).cells;
  }

  lemma SameTop(m: nat, n: nat)
    requires m <= n <= (m / WIDTH + 1) * WIDTH && n - TopRow(m) * WIDTH < CELLS
    ensures TopRow(n) == TopRow(m)
  {
  }

  lemma NextTop(m: nat, n: nat)
    requires m <= n <= (m / WIDTH + 1) * WIDTH && n - TopRow(m) * WIDTH >= CELLS
    ensures TopRow(n) == TopRow(m) + 1 && n == TopRow(m) * WIDTH + CELLS
  {
  }

  /** For every stream of characters from a cleared screen the grid is the last 25 rows of the
      wrapped text, with the cursor at the matching place. */
  lemma {:induction false} ScreenShowsLastRows(g: Grid, text: string)
    ensures PutAll(Clear(g), text) == Window(Sheet(text), g.color)
  {
    if text == "" {
      forall i | 0 <= i < CELLS
        ensures Blanks(CELLS, g.color)[i] == Window("", g.color).cells[i]
      {
        WindowCell("", g.color, i);
      }
      assert Blanks(CELLS, g.color) == Window("", g.color).cells;
    } else {
      var init := text[..|text| - 1];
      ScreenShowsLastRows(g, init);
      PutOnWindow(Sheet(init), g.color, text[|text| - 1]);
    }
  }

  /** One character more. */
  lemma PutOnWindow(sheet: string, color: int, c: char)
    ensures GridOk(Window(sheet, color))
    ensures PutRaw(Window(sheet, color), c)
            == Window(if c == '\n' then sheet + Spaces(WIDTH - |sheet| % WIDTH) else sheet + [c], color)
  {
    TopRowBounds(|sheet|);
    var w := Window(sheet, color);
    forall i | 0 <= i < CELLS
      ensures w.cells[i] == SheetCell(sheet, color, TopRow(|sheet|) * WIDTH + i)
    {
      WindowCell(sheet, color, i);
    }
    if c == '\n' {
      var more := sheet + Spaces(WIDTH - |sheet| % WIDTH);
      RowEnd(|sheet|);
      WindowAdvance(sheet, more, color, w);
    } else {
      var more := sheet + [c];
      WindowAdvance(sheet, more, color, w.(cells := w.cells[w.pos := Cell(c, color)]));
    }
  }

  lemma RowEnd(n: nat)
    ensures n + (WIDTH - n % WIDTH) == (n / WIDTH + 1) * WIDTH
    ensures ((n - TopRow(n) * WIDTH) / WIDTH + 1) * WIDTH == (n / WIDTH + 1) * WIDTH - TopRow(n) * WIDTH
  {
    var q, r := n / WIDTH, n % WIDTH;
    assert n == q * WIDTH + r;
    assert n - TopRow(n) * WIDTH == (q - TopRow(n)) * WIDTH + r;
  }

  // ---- A line being edited ----------------------------------------------------------------------

  /** The cells from origin on show text, and there is a cell for the cursor behind it. */
  predicate Shows(g: Grid, origin: int, text: string) {
    && 0 <= origin && origin + |text| < CELLS <= |g.cells|
    && forall i :: 0 <= i < |text| ==> g.cells[origin + i].ch == text[i]
  }

  /** The longest line the editor holds. */
  const MAX_LINE: int := 255

  /** After k rows of scrolling the cells in front of place n are what they were. */
  ghost predicate KeptBefore(g: Grid, r: Grid, n: int, k: nat) {
    && |r.cells| == |g.cells| && n + k * WIDTH <= |g.cells|
    && forall i :: 0 <= i < n ==> r.cells[i] == g.cells[i + k * WIDTH]
  }

  /** Every cell from place n on is blank. */
  predicate BlankFrom(g: Grid, n: int) {
    forall i :: 0 <= i < |g.cells| && n <= i ==> g.cells[i].ch == ' '
  }

  function Max(a: int, b: int): int {
    if a > b then a else b
  }

  /** Writing c behind the first n characters shown from origin: they stay on screen, moved up a row
      if the screen scrolled. */
  lemma PutShows(g: Grid, origin: int, shown: string, c: char)
    requires GridOk(g) && Shows(g, origin, shown) && g.pos == origin + |shown|
    requires c != '\n' && |shown| < MAX_LINE
    ensures var r := PutRaw(g, c);
            var k := if origin + |shown| + 1 < CELLS then 0 else 1;
            && Shows(r, origin - k * WIDTH, shown + [c]) && r.pos == origin - k * WIDTH + |shown| + 1
            && KeptBefore(g, r, origin - k * WIDTH + |shown|, k)
  {
  }

  lemma PutBlank(g: Grid, c: char, m: int)
    requires GridOk(g) && c != '\n' && BlankFrom(g, m)
    ensures var r := PutRaw(g, c);
            var k := if g.pos + 1 < CELLS then 0 else 1;
            BlankFrom(r, Max(m - k * WIDTH, r.pos))
  {
  }

  lemma KeptTwice(g: Grid, h: Grid, r: Grid, n: int, j: nat, k: nat)
    requires KeptBefore(g, h, n + k * WIDTH, j) && KeptBefore(h, r, n, k)
    ensures KeptBefore(g, r, n, j + k)
  {
    forall i | 0 <= i < n
      ensures r.cells[i] == g.cells[i + (j + k) * WIDTH]
    {
      assert r.cells[i] == h.cells[i + k * WIDTH] == g.cells[i + k * WIDTH + j * WIDTH];
    }
  }

  /** A line without newline written from origin on is shown; returns where it then starts and how many
      rows the screen scrolled. */
  lemma {:induction false} WriteShows(g: Grid, origin: int, shown: string, text: string) returns (o: int, k: nat)
    requires GridOk(g) && Shows(g, origin, shown) && g.pos == origin + |shown|
    requires '\n' !in text && |shown| + |text| <= MAX_LINE
    ensures Shows(PutAll(g, text), o, shown + text)
    ensures PutAll(g, text).pos == o + |shown| + |text|
    ensures o == origin - k * WIDTH && (origin + |shown| + |text| < CELLS ==> k == 0)
    decreases |text|
  {
    o, k := origin, 0;
    if text == "" {
      assert shown + text == shown;
    } else {
      var init, c := text[..|text| - 1], text[|text| - 1];
      o, k := WriteShows(g, origin, shown, init);
      PutShows(PutAll(g, init), o, shown + init, c);
      assert shown + text == shown + init + [c];
      if o + |shown| + |text| >= CELLS {
        o, k := o - WIDTH, k + 1;
      }
    }
  }

  lemma PutKeeps(g: Grid, c: char, k: nat)
    requires GridOk(g) && c != '\n' && PutRaw(g, c).pos == g.pos + 1 - k * WIDTH
    ensures KeptBefore(g, PutRaw(g, c), g.pos - k * WIDTH, k)
  {
  }

  /** Writing text without newline keeps whatever stands in front of the cursor, and what is blank behind
      the cells written. */
  lemma {:induction false} WriteKeeps(g: Grid, text: string, m: int) returns (k: nat)
    requires GridOk(g) && '\n' !in text
    ensures PutAll(g, text).pos == g.pos + |text| - k * WIDTH
    ensures KeptBefore(g, PutAll(g, text), g.pos - k * WIDTH, k)
    ensures BlankFrom(g, m) ==> BlankFrom(PutAll(g, text), Max(m - k * WIDTH, PutAll(g, text).pos))
    decreases |text|
  {
    k := 0;
    if text != "" {
      var init, c := text[..|text| - 1], text[|text| - 1];
      k := WriteKeeps(g, init, m);
      var h := PutAll(g, init);
      var j := if h.pos + 1 < CELLS then 0 else 1;
      assert PutAll(g, text) == PutRaw(h, c);
      hide PutAll;
      PutKeeps(h, c, j);
      if BlankFrom(g, m) {
        PutBlank(h, c, Max(m - k * WIDTH, h.pos));
      }
      hide PutRaw, KeptBefore, BlankFrom;
      var n := g.pos - (k + j) * WIDTH;
      KeptLess(h, PutRaw(h, c), h.pos - j * WIDTH, n, j);
      KeptTwice(g, h, PutRaw(h, c), n, k, j);
      k := k + j;
    }
  }

  /** As long as nothing scrolls, writing text leaves the cells behind it alone. */
  lemma {:induction false} WriteKeepsBehind(g: Grid, text: string)
    requires GridOk(g) && '\n' !in text && g.pos + |text| < CELLS
    ensures var r := PutAll(g, text);
            r.pos == g.pos + |text| && forall i :: r.pos <= i < CELLS ==> r.cells[i] == g.cells[i]
  {
    if text != "" {
      WriteKeepsBehind(g, text[..|text| - 1]);
    }
  }

  /** One character: its cell holds it in the current colour, all other cells keep theirs, and at the end of the
      last row everything moves up by one row. */
  lemma PutRawCells(g: Grid, c: char)
    requires GridOk(g)
    ensures var r := PutRaw(g, c);
            var next := if c == '\n' then (g.pos / WIDTH + 1) * WIDTH else g.pos + 1;
            var k := if next < CELLS then 0 else 1;
            && r.pos == next - k * WIDTH
            && forall i :: 0 <= i < CELLS ==>
                 r.cells[i] == if i >= CELLS - k * WIDTH then Cell(' ', g.color)
                               else if c != '\n' && i == g.pos - k * WIDTH then Cell(c, g.color)
                               else g.cells[i + k * WIDTH]
  {
  }

  /** terminal_backspace: one cell back in reading order unless at the first, that cell blank in the current colour, all
      others as they were. */
  lemma BackspaceCells(g: Grid)
    requires GridOk(g)
    ensures var r := Backspace(g);
            && r.pos == Max(g.pos - 1, 0) && r.color == g.color && |r.cells| == 2000
            && forall i :: 0 <= i < 2000 ==> r.cells[i] == if i == r.pos then Cell(' ', g.color) else g.cells[i]
  {
  }

  /** terminal_move_cursor goes to the place asked for or, off the screen, to the one nearest to it. */
  lemma MoveCursorIsNearest(g: Grid, offset: int, place: int)
    requires GridOk(g) && 0 <= place < 2000
    ensures var r, target := MoveCursor(g, offset).pos, g.pos + offset;
            && 0 <= r < 2000 && Max(r - target, target - r) <= Max(place - target, target - place)
            && MoveCursor(g, offset) == g.(pos := r)
  {
  }

  lemma KeptLess(g: Grid, r: Grid, n: int, m: int, k: nat)
    requires KeptBefore(g, r, n, k) && m <= n
    ensures KeptBefore(g, r, m, k)
  {
  }
}
