/** What coloured text leaves on the screen, and the prompt of src/commands/setprompt.c. */
module Prompts {

  import opened Screen
  import opened Ansi
  import opened ControlSequences
  import Numbers

  /** The same characters and the same cursor; colours may differ. */
  predicate SameText(g: Grid, h: Grid) {
    && |g.cells| == |h.cells| && g.pos == h.pos
    && forall i :: 0 <= i < |g.cells| ==> g.cells[i].ch == h.cells[i].ch
  }

  /** On every console text leaves the characters that plain leaves: the rest of it only sets colours. */
  ghost predicate Reads(text: string, plain: string) {
    forall c: Console {:trigger Feed(c, text)} :: ConsoleOk(c) && c.parser == Normal ==>
      Feed(c, text).parser == Normal && SameText(Feed(c, text).grid, PutAll(c.grid, plain))
  }

  /** Where nothing stands behind the cursor, text leaves nothing behind the cursor. */
  ghost predicate LeavesBlank(text: string) {
    forall c: Console {:trigger Feed(c, text)} :: ConsoleOk(c) && c.parser == Normal && BlankFrom(c.grid, c.grid.pos) ==>
      BlankFrom(Feed(c, text).grid, Feed(c, text).grid.pos)
  }

  lemma {:induction false} PutAllSame(g: Grid, h: Grid, text: string)
    requires GridOk(g) && GridOk(h) && SameText(g, h)
    ensures SameText(PutAll(g, text), PutAll(h, text))
  {
    if text != "" {
      PutAllSame(g, h, text[..|text| - 1]);
      PutSame(PutAll(g, text[..|text| - 1]), PutAll(h, text[..|text| - 1]), text[|text| - 1]);
    }
  }

  lemma PutSame(g: Grid, h: Grid, c: char)
    requires GridOk(g) && GridOk(h) && SameText(g, h)
    ensures SameText(PutRaw(g, c), PutRaw(h, c))
  {
  }

  lemma PlainReads(text: string)
    requires ESC !in text
    ensures Reads(text, text)
  {
    forall c: Console | ConsoleOk(c) && c.parser == Normal
      ensures Feed(c, text) == c.(grid := PutAll(c.grid, text))
    {
      FeedPlain(c, text);
    }
  }

  /** ESC [ code m */
  function Colour(code: string): string {
    Csi([code]) + "m"
  }

  lemma ColourReads(code: string)
    requires Numbers.IsDigits(code)
    ensures Reads(Colour(code), "")
  {
    forall c: Console | ConsoleOk(c) && c.parser == Normal
      ensures Feed(c, Colour(code)).parser == Normal && SameText(Feed(c, Colour(code)).grid, PutAll(c.grid, ""))
    {
      SelectGraphicsKeepsCells(c, [code]);
    }
  }

  lemma ReadsAppend(a: string, p: string, b: string, q: string)
    requires Reads(a, p) && Reads(b, q)
    ensures Reads(a + b, p + q)
  {
    forall c: Console | ConsoleOk(c) && c.parser == Normal
      ensures Feed(c, a + b).parser == Normal && SameText(Feed(c, a + b).grid, PutAll(c.grid, p + q))
    {
      FeedAppend(c, a, b);
      PutAllAppend(c.grid, p, q);
      PutAllSame(Feed(c, a).grid, PutAll(c.grid, p), q);
      hide PutAll, Feed;
      assert SameText(Feed(Feed(c, a), b).grid, PutAll(Feed(c, a).grid, q));
    }
  }

  lemma {:induction false} PutAllLeavesBlank(g: Grid, text: string)
    requires GridOk(g) && BlankFrom(g, g.pos)
    ensures BlankFrom(PutAll(g, text), PutAll(g, text).pos)
  {
    if text != "" {
      PutAllLeavesBlank(g, text[..|text| - 1]);
      PutLeavesBlank(PutAll(g, text[..|text| - 1]), text[|text| - 1]);
    }
  }

  lemma PutLeavesBlank(g: Grid, c: char)
    requires GridOk(g) && BlankFrom(g, g.pos)
    ensures BlankFrom(PutRaw(g, c), PutRaw(g, c).pos)
  {
  }

  /** Coloured text and newlines are complete and leave nothing behind the cursor. */
  lemma ReadableText(text: string, plain: string)
    requires Reads(text, plain)
    ensures ReturnsToNormal(text) && LeavesBlank(text)
  {
    forall c: Console | ConsoleOk(c) && c.parser == Normal && BlankFrom(c.grid, c.grid.pos)
      ensures BlankFrom(Feed(c, text).grid, Feed(c, text).grid.pos)
    {
      PutAllLeavesBlank(c.grid, plain);
      hide PutAll, Feed;
      assert SameText(Feed(c, text).grid, PutAll(c.grid, plain));
    }
  }

  /** A text in one colour. */
  datatype Piece = Piece(code: string, text: string)

  function Coloured(ps: seq<Piece>): string {
    if ps == [] then "" else Coloured(ps[..|ps| - 1]) + (Colour(ps[|ps| - 1].code) + ps[|ps| - 1].text)
  }

  function Plain(ps: seq<Piece>): string {
    if ps == [] then "" else Plain(ps[..|ps| - 1]) + ps[|ps| - 1].text
  }

  predicate PiecesOk(ps: seq<Piece>) {
    forall k :: 0 <= k < |ps| ==> Numbers.IsDigits(ps[k].code) && ESC !in ps[k].text
  }

  /** Text in any colours leaves its characters, and leaves the parser in normal state. */
  lemma {:induction false} ColouredReads(ps: seq<Piece>)
    requires PiecesOk(ps)
    ensures Reads(Coloured(ps), Plain(ps))
  {
    hide Reads, Colour;
    if ps == [] {
      PlainReads("");
    } else {
      var init, p := ps[..|ps| - 1], ps[|ps| - 1];
      ColouredReads(init);
      ColourReads(p.code);
      PlainReads(p.text);
      ReadsAppend(Colour(p.code), "", p.text, p.text);
      assert "" + p.text == p.text;
      ReadsAppend(Coloured(init), Plain(init), Colour(p.code) + p.text, p.text);
    }
  }

  /** PROMPT_TEMPLATE with the two names in it. */
  function Template(user: string, os: string): seq<Piece> {
    [Piece("97", "["), Piece("91", user), Piece("96", "@"), Piece("97", os), Piece("0", " ~"), Piece("97", "]"),
     Piece("92", "$ "), Piece("0", "")]
  }

  /** What shell_render_prompt prints. */
  function Prompt(user: string, os: string): string {
    Coloured(Template(user, os))
  }

  /** On every console the prompt reads [user@os ~]$ and leaves the parser in normal state. */
  lemma PromptReads(user: string, os: string)
    requires ESC !in user && ESC !in os
    ensures Reads(Prompt(user, os), "[" + user + "@" + os + " ~]$ ")
    ensures ReturnsToNormal(Prompt(user, os)) && LeavesBlank(Prompt(user, os))
  {
    ColouredReads(Template(user, os));
    PlainTemplate(user, os);
    ReadableText(Prompt(user, os), Plain(Template(user, os)));
  }

  lemma PlainTemplate(user: string, os: string)
    ensures Plain(Template(user, os)) == "[" + user + "@" + os + " ~]$ "
  {
    var ps := Template(user, os);
    forall k | 0 < k <= |ps|
      ensures Plain(ps[..k]) == Plain(ps[..k - 1]) + ps[k - 1].text
    {
      assert ps[..k][..k - 1] == ps[..k - 1];
    }
    assert Plain(ps[..0]) == "" && ps[..8] == ps;
    assert Plain(ps[..1]) == "[" && Plain(ps[..2]) == "[" + user && Plain(ps[..3]) == "[" + user + "@";
    assert Plain(ps[..4]) == "[" + user + "@" + os && Plain(ps[..5]) == "[" + user + "@" + os + " ~";
  }

  lemma ColourText(code: string)
    ensures Colour(code) == "\U{1b}[" + code + "m"
  {
    assert Joined([code]) == code;
    assert [ESC, '['] == "\U{1b}[";
  }

  lemma ColouredMore(ps: seq<Piece>, p: Piece)
    ensures Coloured(ps + [p]) == Coloured(ps) + ("\U{1b}[" + p.code + "m" + p.text)
  {
    assert (ps + [p])[..|ps|] == ps;
    ColourText(p.code);
  }

  /** Character for character. */
  lemma PromptText(user: string, os: string)
    ensures Prompt(user, os) == "\U{1b}[97m[" + ("\U{1b}[91m" + user) + "\U{1b}[96m@" + ("\U{1b}[97m" + os) + "\U{1b}[0m ~"
                                + "\U{1b}[97m]" + "\U{1b}[92m$ " + "\U{1b}[0m"
  {
    var ps := Template(user, os);
    assert Coloured(ps[..0]) == "" && ps[..8] == ps;
    hide Coloured;
    forall k | 0 < k <= |ps|
      ensures Coloured(ps[..k]) == Coloured(ps[..k - 1]) + ("\U{1b}[" + ps[k - 1].code + "m" + ps[k - 1].text)
    {
      assert ps[..k] == ps[..k - 1] + [ps[k - 1]];
      ColouredMore(ps[..k - 1], ps[k - 1]);
    }
    PieceTexts(user, os);
    assert Coloured(ps[..1]) == "\U{1b}[97m[";
    assert Coloured(ps[..2]) == "\U{1b}[97m[" + ("\U{1b}[91m" + user);
    assert Coloured(ps[..4]) == "\U{1b}[97m[" + ("\U{1b}[91m" + user) + "\U{1b}[96m@" + ("\U{1b}[97m" + os);
    assert Coloured(ps[..6]) == Coloured(ps[..4]) + "\U{1b}[0m ~" + "\U{1b}[97m]";
    assert Coloured(ps[..8]) == Coloured(ps[..6]) + "\U{1b}[92m$ " + "\U{1b}[0m";
  }

  lemma PieceTexts(user: string, os: string)
    ensures "\U{1b}[" + "97" + "m" + "[" == "\U{1b}[97m[" && "\U{1b}[" + "91" + "m" + user == "\U{1b}[91m" + user
    ensures "\U{1b}[" + "96" + "m" + "@" == "\U{1b}[96m@" && "\U{1b}[" + "97" + "m" + os == "\U{1b}[97m" + os
    ensures "\U{1b}[" + "0" + "m" + " ~" == "\U{1b}[0m ~" && "\U{1b}[" + "97" + "m" + "]" == "\U{1b}[97m]"
    ensures "\U{1b}[" + "92" + "m" + "$ " == "\U{1b}[92m$ " && "\U{1b}[" + "0" + "m" + "" == "\U{1b}[0m"
  {
  }
}
