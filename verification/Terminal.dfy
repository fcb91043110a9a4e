/** src/kernel/terminal.c: the terminal's state and the loops over its cell buffer, each proved to be
    the screen function of the same name. */
module Terminal {

  import opened Screen

  class TextTerminal {
    const buffer: array<Cell>
    var row: int
    var column: int
    var color: int

    ghost predicate Valid()
      reads this
    {
      buffer.Length == CELLS && 0 <= row < HEIGHT && 0 <= column < WIDTH
    }

    ghost function State(): Grid
      reads this, buffer
    {
      Grid(buffer[..], row * WIDTH + column, color)
    }

    /** terminal_initialize. */
    constructor (color: int)
      ensures Valid() && fresh(buffer)
      ensures State() == Clear(Grid([], 0, color))
    {
      buffer := new Cell[CELLS](_ => Cell(' ', color));
      this.row, this.column, this.color := 0, 0, color;
      new;
      assert buffer[..] == Blanks(CELLS, color);
    }

    /** terminal_setcolor. */
    method SetColor(color: int)
      requires Valid()
      modifies this`color
      ensures Valid() && State() == old(State()).(color := color)
    {
      this.color := color;
    }

    /** terminal_putentryat. */
    method PutEntryAt(c: char, color: int, x: int, y: int)
      requires Valid() && 0 <= x < WIDTH && 0 <= y < HEIGHT
      modifies buffer
      ensures buffer[..] == old(buffer[..])[y * WIDTH + x := Cell(c, color)]
    {
      buffer[y * WIDTH + x] := Cell(c, color);
    }

    /** terminal_scroll's inner loop: row y moves up to row y - 1. */
    method CopyRow(y: int)
      requires buffer.Length == CELLS && 1 <= y < HEIGHT
      modifies buffer
      ensures forall k :: (y - 1) * WIDTH <= k < y * WIDTH ==> buffer[k] == old(buffer[k + WIDTH])
      ensures forall k :: 0 <= k < CELLS && !((y - 1) * WIDTH <= k < y * WIDTH) ==> buffer[k] == old(buffer[k])
    {
      var x := 0;
      while x < WIDTH
        invariant 0 <= x <= WIDTH
        invariant forall k :: (y - 1) * WIDTH <= k < (y - 1) * WIDTH + x ==> buffer[k] == old(buffer[k + WIDTH])
        invariant forall k :: 0 <= k < CELLS && !((y - 1) * WIDTH <= k < (y - 1) * WIDTH + x) ==> buffer[k] == old(buffer[k])
      {
        buffer[(y - 1) * WIDTH + x] := buffer[y * WIDTH + x];
        x := x + 1;
      }
    }

    /** terminal_scroll. */
    method Scroll()
      requires buffer.Length == CELLS
      modifies buffer
      ensures buffer[..] == old(buffer[..])[WIDTH..] + Blanks(WIDTH, color)
    {
      var y := 1;
      while y < HEIGHT
        invariant 1 <= y <= HEIGHT
        invariant forall k :: 0 <= k < (y - 1) * WIDTH ==> buffer[k] == old(buffer[k + WIDTH])
        invariant forall k :: (y - 1) * WIDTH <= k < CELLS ==> buffer[k] == old(buffer[k])
      {
        CopyRow(y);
        y := y + 1;
      }
      var x := 0;
      while x < WIDTH
        invariant 0 <= x <= WIDTH
        invariant forall k :: 0 <= k < CELLS - WIDTH ==> buffer[k] == old(buffer[k + WIDTH])
        invariant forall k :: CELLS - WIDTH <= k < CELLS - WIDTH + x ==> buffer[k] == Cell(' ', color)
      {
        buffer[(HEIGHT - 1) * WIDTH + x] := Cell(' ', color);
        x := x + 1;
      }
    }

    /** `if (++terminal_row == VGA_HEIGHT)`: the next row, scrolling at the bottom. */
    method NextRow()
      requires Valid() && column == 0
      modifies this`row, buffer
      ensures Valid() && State() == ScrollTo(old(State()), (old(row) + 1) * WIDTH)
    {
      row := row + 1;
      if row == HEIGHT {
        Scroll();
        row := HEIGHT - 1;
      }
    }

    /** terminal_putchar_raw. */
    method PutCharRaw(c: char)
      requires Valid()
      modifies this`row, this`column, buffer
      ensures Valid() && State() == PutRaw(old(State()), c)
    {
      RowOf(row, column);
      if c == '\n' {
        column := 0;
        NextRow();
        return;
      }
      PutEntryAt(c, color, column, row);
      column := column + 1;
      if column == WIDTH {
        column := 0;
        NextRow();
      }
    }

    /** terminal_clear. */
    method ClearScreen()
      requires Valid()
      modifies this`row, this`column, buffer
      ensures Valid() && State() == Clear(old(State()))
    {
      var y := 0;
      while y < HEIGHT
        invariant 0 <= y <= HEIGHT
        invariant forall k :: 0 <= k < y * WIDTH ==> buffer[k] == Cell(' ', color)
      {
        var x := 0;
        while x < WIDTH
          invariant 0 <= x <= WIDTH
          invariant forall k :: 0 <= k < y * WIDTH + x ==> buffer[k] == Cell(' ', color)
        {
          buffer[y * WIDTH + x] := Cell(' ', color);
          x := x + 1;
        }
        y := y + 1;
      }
      row, column := 0, 0;
      assert buffer[..] == Blanks(CELLS, color);
    }

    /** terminal_clear_until_cursor. */
    method ClearUntilCursor()
      requires Valid()
      modifies buffer
      ensures Valid() && State() == ClearUntil(old(State()))
    {
      var limit := row * WIDTH + column;
      var i := 0;
      while i < limit
        invariant 0 <= i <= limit
        invariant forall k :: 0 <= k < i ==> buffer[k] == Cell(' ', color)
        invariant forall k :: i <= k < CELLS ==> buffer[k] == old(buffer[k])
      {
        buffer[i] := Cell(' ', color);
        i := i + 1;
      }
      assert buffer[..] == ClearUntil(old(State())).cells;
    }

    /** terminal_clear_after_cursor. */
    method ClearAfterCursor()
      requires Valid()
      modifies buffer
      ensures Valid() && State() == ClearAfter(old(State()))
    {
      var start := row * WIDTH + column;
      var i := start;
      while i < CELLS
        invariant start <= i <= CELLS
        invariant forall k :: start <= k < i ==> buffer[k] == Cell(' ', color)
        invariant forall k :: 0 <= k < start ==> buffer[k] == old(buffer[k])
      {
        buffer[i] := Cell(' ', color);
        i := i + 1;
      }
      assert buffer[..] == ClearAfter(old(State())).cells;
    }

    /** terminal_set_cursor. */
    method SetCursorTo(x: nat, y: nat)
      requires Valid()
      modifies this`row, this`column
      ensures Valid() && State() == SetCursor(old(State()), x, y)
    {
      column := if x >= WIDTH then WIDTH - 1 else x;
      row := if y >= HEIGHT then HEIGHT - 1 else y;
    }

    /** terminal_backspace. */
    method BackspaceChar()
      requires Valid()
      modifies this`row, this`column, buffer
      ensures Valid() && State() == Backspace(old(State()))
    {
      if column > 0 {
        column := column - 1;
      } else if row > 0 {
        row := row - 1;
        column := 79;
      }
      PutEntryAt(' ', color, column, row);
    }

    /** terminal_move_cursor. */
    method MoveCursorBy(offset: int)
      requires Valid()
      modifies this`row, this`column
      ensures Valid() && State() == MoveCursor(old(State()), offset)
    {
      var pos := row * WIDTH + column + offset;
      if pos < 0 {
        pos := 0;
      }
      if pos >= CELLS {
        pos := CELLS - 1;
      }
      row := pos / WIDTH;
      column := pos % WIDTH;
    }
  }

  lemma RowOf(row: int, column: int)
    requires 0 <= column < WIDTH
    ensures (row * WIDTH + column) / WIDTH == row
  {
  }
}
