/** The edited line on the screen: what each redraw of src/kernel/shell.c does to the cells and the cursor. */
module Display {

  import opened Screen
  import opened LineEditor

  /** The line's text stands from origin on and the terminal cursor at the line's cursor. */
  ghost predicate Displays(g: Grid, origin: int, l: Line) {
    GridOk(g) && Shows(g, origin, l.text) && l.cursor <= |l.text| && g.pos == origin + l.cursor
  }

  lemma PlainHasNoNewline(s: string)
    requires PlainText(s)
    ensures '\n' !in s && '\U{1b}' !in s
  {
  }

  lemma ShowsPrefix(g: Grid, origin: int, text: string, n: nat)
    requires Shows(g, origin, text) && n <= |text|
    ensures Shows(g, origin, text[..n])
  {
  }

  /** What a redraw keeps. From l shown at origin on g to q on r the screen scrolled k rows: q is shown from
      the place origin has moved to, the cells in front of it are what they were, and if nothing stood behind
      l nothing stands behind q. */
  ghost predicate Redrawn(g: Grid, origin: int, l: Line, r: Grid, q: Line, k: nat) {
    && Displays(r, origin - k * WIDTH, q)
    && KeptBefore(g, r, origin - k * WIDTH, k)
    && (BlankFrom(g, origin + |l.text|) ==> BlankFrom(r, origin - k * WIDTH + |q.text|))
  }

  lemma RedrawnDisplays(g: Grid, origin: int, l: Line, r: Grid, q: Line, k: nat)
    requires Redrawn(g, origin, l, r, q, k)
    ensures Displays(r, origin - k * WIDTH, q)
  {
  }

  /** A screen with the line on it and the cell that line starts in. */
  datatype View = View(grid: Grid, origin: int, line: Line)

  /** w is v after a redraw that scrolled k rows. */
  ghost predicate Follows(v: View, w: View, k: nat) {
    w.origin == v.origin - k * WIDTH && Redrawn(v.grid, v.origin, v.line, w.grid, w.line, k)
  }

  /** The rest of q written at the cursor, in front of which the first p characters of q are shown. */
  lemma WriteRedraws(g: Grid, origin: int, q: string, p: nat, m: int) returns (k: nat)
    requires GridOk(g) && p <= |q| <= MAX_TEXT && PlainText(q) && m <= origin + |q|
    requires Shows(g, origin, q[..p]) && g.pos == origin + p
    ensures var r := PutAll(g, q[p..]);
            && Displays(r, origin - k * WIDTH, Line(q, |q|))
            && KeptBefore(g, r, origin - k * WIDTH, k)
            && (BlankFrom(g, m) ==> BlankFrom(r, origin - k * WIDTH + |q|))
    ensures origin + |q| < CELLS ==> k == 0
  {
    hide PutAll, Shows, BlankFrom, KeptBefore, PlainText;
    PlainTail(q, p);
    var o;
    o, k := WriteShows(g, origin, q[..p], q[p..]);
    var j := WriteKeeps(g, q[p..], m);
    assert j == k;
    KeptLess(g, PutAll(g, q[p..]), g.pos - k * WIDTH, origin - k * WIDTH, k);
  }

  lemma PlainTail(q: string, p: nat)
    requires PlainText(q) && p <= |q|
    ensures '\n' !in q[p..] && q[..p] + q[p..] == q
  {
  }

  /** Typing c writes the text from the cursor on again, then moves the cursor back over the tail. */
  function DrawInsert(g: Grid, l: Line, c: char): (r: Grid)
    requires GridOk(g) && LineOk(l)
    ensures GridOk(r)
  {
    if |l.text| < MAX_TEXT then MoveCursor(PutAll(g, Insert(l, c).text[l.cursor..]), -(|l.text| - l.cursor)) else g
  }

  /** Backspace goes one cell back, writes the tail and a blank, and moves the cursor back over both. */
  function DrawErase(g: Grid, l: Line): (r: Grid)
    requires GridOk(g) && LineOk(l)
    ensures GridOk(r)
  {
    if l.cursor > 0 then
      MoveCursor(PutRaw(PutAll(Backspace(g), l.text[l.cursor..]), ' '), -(|l.text| - l.cursor + 1))
    else g
  }

  /** terminal_backspace n times. */
  function BackspaceTimes(g: Grid, n: nat): (r: Grid)
    requires GridOk(g)
    ensures GridOk(r)
  {
    if n == 0 then g else Backspace(BackspaceTimes(g, n - 1))
  }

  /** Replacing the line goes to its end, back over all of it, and writes the other text. */
  function DrawReplace(g: Grid, l: Line, text: string): (r: Grid)
    requires GridOk(g) && LineOk(l)
    ensures GridOk(r)
  {
    PutAll(BackspaceTimes(MoveCursor(g, |l.text| - l.cursor), |l.text|), text)
  }

  function DrawLeft(g: Grid, l: Line): (r: Grid)
    requires GridOk(g)
    ensures GridOk(r)
  {
    if l.cursor > 0 then MoveCursor(g, -1) else g
  }

  function DrawRight(g: Grid, l: Line): (r: Grid)
    requires GridOk(g)
    ensures GridOk(r)
  {
    if l.cursor < |l.text| then MoveCursor(g, 1) else g
  }

  lemma InsertDisplayed(g: Grid, origin: int, l: Line, c: char) returns (k: nat)
    requires Displays(g, origin, l) && LineOk(l) && PlainText(l.text) && IsPlain(c)
    ensures Redrawn(g, origin, l, DrawInsert(g, l, c), Insert(l, c), k)
    ensures |l.text| == MAX_TEXT ==> k == 0
  {
    k := 0;
    if |l.text| < MAX_TEXT {
      var q := Insert(l, c);
      var p := l.cursor;
      ShowsPrefix(g, origin, l.text, p);
      assert q.text[..p] == l.text[..p] && q.cursor == |q.text| - (|l.text| - p);
      InsertIsPlain(l, c);
      hide PutAll, Shows, KeptBefore, BlankFrom, MoveCursor, PlainText;
      k := WriteRedraws(g, origin, q.text, p, origin + |l.text|);
      BackOver(g, PutAll(g, q.text[p..]), origin, l, q.text, |l.text| - p, k);
      hide *;
    } else {
      KeptSelf(g, origin);
    }
  }

  lemma InsertIsPlain(l: Line, c: char)
    requires LineOk(l) && PlainText(l.text) && IsPlain(c)
    ensures PlainText(Insert(l, c).text)
  {
  }

  /** Moving the cursor back over the last n characters of the text just written. */
  lemma BackOver(g: Grid, r: Grid, origin: int, l: Line, text: string, n: int, k: nat)
    requires 0 <= n <= |text| && Displays(r, origin - k * WIDTH, Line(text, |text|))
    requires KeptBefore(g, r, origin - k * WIDTH, k)
    requires BlankFrom(g, origin + |l.text|) ==> BlankFrom(r, origin - k * WIDTH + |text|)
    ensures Redrawn(g, origin, l, MoveCursor(r, -n), Line(text, |text| - n), k)
  {
  }

  /** Erasing never scrolls. */
  lemma EraseDisplayed(g: Grid, origin: int, l: Line)
    requires Displays(g, origin, l) && LineOk(l) && PlainText(l.text)
    ensures Redrawn(g, origin, l, DrawErase(g, l), Erase(l), 0)
  {
    hide PutAll, PutRaw, BlankFrom, Shows, Backspace, KeptBefore, PlainText, MoveCursor;
    if l.cursor > 0 {
      var q := Erase(l);
      var p := q.cursor;
      BackspaceShows(g, origin, l);
      var g0 := Backspace(g);
      WriteTailAndBlank(g0, origin, q.text, p);
      var g2 := PutRaw(PutAll(g0, q.text[p..]), ' ');
      KeptTwice(g, g0, g2, origin, 0, 0);
      BackOverBlank(g2, origin, q.text, |q.text| - p);
      SameCells(g2, DrawErase(g, l), g, origin, origin + |q.text|);
    } else {
      KeptSelf(g, origin);
    }
  }

  lemma KeptSelf(g: Grid, n: int)
    requires n <= |g.cells|
    ensures KeptBefore(g, g, n, 0)
  {
  }

  lemma SameCells(g: Grid, r: Grid, h: Grid, n: int, m: int)
    requires r.cells == g.cells
    ensures KeptBefore(h, g, n, 0) ==> KeptBefore(h, r, n, 0)
    ensures BlankFrom(g, m) ==> BlankFrom(r, m)
  {
  }

  lemma BackspaceShows(g: Grid, origin: int, l: Line)
    requires Displays(g, origin, l) && LineOk(l) && PlainText(l.text) && l.cursor > 0
    ensures var q := Erase(l);
            var g0 := Backspace(g);
            && PlainText(q.text) && q.text[q.cursor..] == l.text[l.cursor..]
            && Shows(g0, origin, q.text[..q.cursor]) && g0.pos == origin + q.cursor
            && KeptBefore(g, g0, origin, 0) && origin + |l.text| < CELLS
            && (BlankFrom(g, origin + |l.text|) ==> BlankFrom(g0, origin + |q.text| + 1))
  {
    var q := Erase(l);
    assert q.text[..q.cursor] == l.text[..q.cursor];
  }

  lemma BackOverBlank(g: Grid, origin: int, text: string, n: int)
    requires 0 <= n <= |text| && GridOk(g) && Shows(g, origin, text) && g.pos == origin + |text| + 1
    ensures Displays(MoveCursor(g, -(n + 1)), origin, Line(text, |text| - n))
    ensures MoveCursor(g, -(n + 1)).cells == g.cells
  {
  }

  /** The tail of q and a blank behind it, on a screen with room for both. */
  lemma WriteTailAndBlank(g: Grid, origin: int, q: string, p: nat)
    requires GridOk(g) && p <= |q| < MAX_TEXT && PlainText(q)
    requires Shows(g, origin, q[..p]) && g.pos == origin + p && origin + |q| + 1 < CELLS
    ensures var r := PutRaw(PutAll(g, q[p..]), ' ');
            && Shows(r, origin, q) && r.pos == origin + |q| + 1 && KeptBefore(g, r, origin, 0)
            && (BlankFrom(g, origin + |q| + 1) ==> BlankFrom(r, origin + |q|))
  {
    hide PutAll, PutRaw, Shows, KeptBefore, BlankFrom, PlainText;
    PlainTail(q, p);
    var o, i := WriteShows(g, origin, q[..p], q[p..]);
    var k := WriteKeeps(g, q[p..], origin + |q| + 1);
    KeptLess(g, PutAll(g, q[p..]), g.pos, origin, 0);
    BlankBehind(g, PutAll(g, q[p..]), origin, q);
  }

  lemma BlankBehind(g: Grid, h: Grid, origin: int, text: string)
    requires GridOk(h) && Shows(h, origin, text) && h.pos == origin + |text| && origin + |text| + 1 < CELLS
    requires KeptBefore(g, h, origin, 0)
    ensures var r := PutRaw(h, ' ');
            && Shows(r, origin, text) && r.pos == origin + |text| + 1 && KeptBefore(g, r, origin, 0)
            && (BlankFrom(h, origin + |text| + 1) ==> BlankFrom(r, origin + |text|))
  {
  }

  lemma LeftDisplayed(g: Grid, origin: int, l: Line)
    requires Displays(g, origin, l)
    ensures Redrawn(g, origin, l, DrawLeft(g, l), Left(l), 0)
  {
  }

  lemma RightDisplayed(g: Grid, origin: int, l: Line)
    requires Displays(g, origin, l)
    ensures Redrawn(g, origin, l, DrawRight(g, l), Right(l), 0)
  {
  }

  lemma {:induction false} BackspaceTimesClears(g: Grid, n: nat)
    requires GridOk(g) && n <= g.pos
    ensures var r := BackspaceTimes(g, n);
            && r.pos == g.pos - n && KeptBefore(g, r, g.pos - n, 0)
            && (BlankFrom(g, g.pos) ==> BlankFrom(r, g.pos - n))
  {
    if n > 0 {
      BackspaceTimesClears(g, n - 1);
    }
  }

  lemma ReplaceDisplayed(g: Grid, origin: int, l: Line, text: string) returns (k: nat)
    requires Displays(g, origin, l) && LineOk(l) && PlainText(text) && |text| <= MAX_TEXT
    ensures Redrawn(g, origin, l, DrawReplace(g, l, text), Line(text, |text|), k)
  {
    var g1 := BackspaceTimes(MoveCursor(g, |l.text| - l.cursor), |l.text|);
    LineErased(g, origin, l);
    assert text[0..] == text;
    hide BackspaceTimes, MoveCursor, PutAll, KeptBefore, BlankFrom, PlainText;
    k := WriteRedraws(g1, origin, text, 0, origin);
    hide Shows;
    KeptOnward(g, g1, PutAll(g1, text), origin, k);
  }

  /** Back over the whole line: the cursor is at its origin, with nothing changed in front. */
  lemma LineErased(g: Grid, origin: int, l: Line)
    requires Displays(g, origin, l) && LineOk(l)
    ensures var r := BackspaceTimes(MoveCursor(g, |l.text| - l.cursor), |l.text|);
            && r.pos == origin && Shows(r, origin, "") && KeptBefore(g, r, origin, 0)
            && (BlankFrom(g, origin + |l.text|) ==> BlankFrom(r, origin))
  {
    BackspaceTimesClears(MoveCursor(g, |l.text| - l.cursor), |l.text|);
  }

  lemma KeptOnward(g: Grid, h: Grid, r: Grid, n: int, k: nat)
    requires KeptBefore(g, h, n, 0) && KeptBefore(h, r, n - k * WIDTH, k)
    ensures KeptBefore(g, r, n - k * WIDTH, k)
  {
    KeptTwice(g, h, r, n - k * WIDTH, 0, k);
  }

  /** w is v after a text was written over the line from its cursor on. The line shown is what stood in front of
      the cursor and that text; what it did not cover of the old line is still on the screen behind it, and
      behind that nothing new. */
  ghost predicate Overwritten(v: View, w: View, k: nat) {
    && w.origin == v.origin - k * WIDTH && Displays(w.grid, w.origin, w.line)
    && KeptBefore(v.grid, w.grid, w.origin, k)
    && if |v.line.text| <= |w.line.text| then Follows(v, w, k)
       else
         && k == 0 && Shows(w.grid, w.origin, w.line.text + v.line.text[|w.line.text|..])
         && (BlankFrom(v.grid, v.origin + |v.line.text|) ==> BlankFrom(w.grid, w.origin + |v.line.text|))
  }

  lemma OverwrittenSelf(v: View)
    requires Displays(v.grid, v.origin, v.line)
    ensures Overwritten(v, v, 0)
  {
  }

  /** Where nothing stood behind the old line, nothing stands behind the new one exactly when what the new one
      leaves uncovered is blank. */
  lemma OverwrittenLeavesNothingIff(v: View, w: View, k: nat)
    requires Overwritten(v, w, k) && BlankFrom(v.grid, v.origin + |v.line.text|)
    ensures BlankFrom(w.grid, w.origin + |w.line.text|)
            <==> forall i :: |w.line.text| <= i < |v.line.text| ==> v.line.text[i] == ' '
  {
    var n := |w.line.text|;
    if n < |v.line.text| {
      var all := w.line.text + v.line.text[n..];
      forall i | n <= i < |v.line.text|
        ensures w.grid.cells[w.origin + i].ch == v.line.text[i]
      {
        assert all[i] == v.line.text[i];
      }
      forall j | w.origin + n <= j < w.origin + |v.line.text|
        ensures w.grid.cells[j].ch == v.line.text[j - w.origin]
      {
        var i := j - w.origin;
        assert w.grid.cells[w.origin + i].ch == v.line.text[i];
      }
    }
  }

  lemma OverwrittenDisplays(v: View, w: View, k: nat)
    requires Overwritten(v, w, k)
    ensures Displays(w.grid, w.origin, w.line)
  {
  }

  lemma OverwriteDisplayed(g: Grid, origin: int, l: Line, more: string) returns (k: nat)
    requires Displays(g, origin, l) && PlainText(l.text) && PlainText(more) && l.cursor + |more| <= MAX_TEXT
    ensures var q := l.text[..l.cursor] + more;
            Overwritten(View(g, origin, l), View(PutAll(g, more), origin - k * WIDTH, Line(q, |q|)), k)
  {
    hide PutAll, Shows, KeptBefore, BlankFrom, PlainText;
    var p := l.cursor;
    var q := l.text[..p] + more;
    assert q[..p] == l.text[..p] && q[p..] == more;
    ShowsPrefix(g, origin, l.text, p);
    OverwritePlain(l, more);
    if |l.text| <= |q| {
      k := WriteRedraws(g, origin, q, p, origin + |l.text|);
    } else {
      k := WriteRedraws(g, origin, q, p, origin);
      LineFits(g, origin, l);
      PlainHasNoNewline(more);
      WriteKeepsBehind(g, more);
      TailStays(g, PutAll(g, more), origin, l.text, q);
    }
  }

  lemma LineFits(g: Grid, origin: int, l: Line)
    requires Displays(g, origin, l)
    ensures origin + |l.text| < CELLS
  {
  }

  lemma OverwritePlain(l: Line, more: string)
    requires l.cursor <= |l.text| && PlainText(l.text) && PlainText(more)
    ensures PlainText(l.text[..l.cursor] + more)
  {
  }

  lemma TailStays(g: Grid, r: Grid, origin: int, text: string, q: string)
    requires Shows(g, origin, text) && Shows(r, origin, q) && |q| < |text| && |r.cells| == |g.cells|
    requires |g.cells| == CELLS && forall i :: origin + |q| <= i < CELLS ==> r.cells[i] == g.cells[i]
    ensures Shows(r, origin, q + text[|q|..])
    ensures BlankFrom(g, origin + |text|) ==> BlankFrom(r, origin + |text|)
  {
  }

  /** A text written at the cursor is displayed from there. */
  lemma WriteDisplayed(g: Grid, text: string) returns (k: nat)
    requires GridOk(g) && PlainText(text) && |text| <= MAX_TEXT
    ensures Redrawn(g, g.pos, EMPTY, PutAll(g, text), Line(text, |text|), k)
  {
    assert text[0..] == text;
    k := WriteRedraws(g, g.pos, text, 0, g.pos);
  }
}
