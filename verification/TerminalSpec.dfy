/** The framebuffer terminal as a grid of text: what a character does to the grid, and which pixels
    show it. */
module TerminalSpec {
  import opened Bits
  import opened Common

  const BG_COLOR: u32 := 0x18_0a0a
  const FG_COLOR: u32 := 0xf4_9445

  type u8 = x: int | 0 <= x < 0x100

  /** A PSF font: glyph c takes `bytesPerGlyph` bytes from `headerSize + c * bytesPerGlyph`, one per row. */
  datatype Font = Font(data: seq<u8>, headerSize: nat, bytesPerGlyph: nat, width: nat, height: nat)

  ghost predicate FontOk(f: Font) {
    1 <= f.width <= 8 && 1 <= f.height <= f.bytesPerGlyph
  }

  /** The glyph lies inside the font.  The index is a signed `char`. */
  ghost predicate HasGlyph(f: Font, c: char) {
    c as int < 128 && f.headerSize + (c as int + 1) * f.bytesPerGlyph <= |f.data|
  }

  /** `(row >> (7 - i)) & 1` */
  predicate Shifted(row: u8, i: nat)
    requires i < 8
  {
    And(Shr(row, 7 - i), 1) == 1
  }

  predicate GlyphBit(f: Font, c: char, i: nat, j: nat) {
    var at := c as int * f.bytesPerGlyph + f.headerSize + j;
    i < 8 && at < |f.data| && Shifted(f.data[at], i)
  }

  /** A screen of w by h pixels holds the cells that end before its last column and row. */
  datatype Screen = Screen(w: nat, h: nat, font: Font)

  function Cols(s: Screen): nat
    requires s.w > 0 && s.font.width > 0
  {
    (s.w - 1) / s.font.width
  }

  function Rows(s: Screen): nat
    requires s.h > 0 && s.font.height > 0
  {
    (s.h - 1) / s.font.height
  }

  ghost predicate ScreenOk(s: Screen) {
    FontOk(s.font) && s.w > s.font.width && s.h > s.font.height
  }

  /** The text: a character or nothing in each cell, and the cursor. */
  datatype Grid = Grid(cells: seq<seq<Option<char>>>, cx: nat, cy: nat)

  function BlankRow(s: Screen): seq<Option<char>>
    requires s.w > 0 && s.font.width > 0
  {
    seq(Cols(s), _ => None)
  }

  function EmptyGrid(s: Screen): Grid
    requires s.w > 0 && s.h > 0 && s.font.width > 0 && s.font.height > 0
  {
    Grid(seq(Rows(s), _ => BlankRow(s)), 0, 0)
  }

  /** The right shape, the cursor in a cell, and nothing in the cursor's cell or after it. */
  ghost predicate GridOk(s: Screen, g: Grid) {
    && ScreenOk(s)
    && |g.cells| == Rows(s) && (forall r :: 0 <= r < |g.cells| ==> |g.cells[r]| == Cols(s))
    && g.cx < Cols(s) && g.cy < Rows(s)
    && forall r, c :: 0 <= r < Rows(s) && 0 <= c < Cols(s) && (r > g.cy || (r == g.cy && c >= g.cx)) ==>
        g.cells[r][c] == None
  }

  /** Drop the first row, append a blank one. */
  function ScrollUp(s: Screen, cells: seq<seq<Option<char>>>): seq<seq<Option<char>>>
    requires s.w > 0 && s.font.width > 0 && |cells| > 0
  {
    cells[1..] + [BlankRow(s)]
  }

  /** To the next line, scrolling when it is the last. */
  function NewLine(s: Screen, g: Grid): Grid
    requires s.w > 0 && s.h > 0 && s.font.width > 0 && s.font.height > 0 && |g.cells| > 0
  {
    if g.cy + 1 >= Rows(s) then Grid(ScrollUp(s, g.cells), 0, g.cy) else Grid(g.cells, 0, g.cy + 1)
  }

  /** A character: written at the cursor, which moves right and wraps. */
  function Put(s: Screen, g: Grid, c: char): Grid
    requires GridOk(s, g)
  {
    if c == '\n' then NewLine(s, g)
    else
      var written := g.cells[g.cy := g.cells[g.cy][g.cx := Some(c)]];
      if g.cx + 1 >= Cols(s) then NewLine(s, Grid(written, g.cx, g.cy)) else Grid(written, g.cx + 1, g.cy)
  }

  function PutAll(s: Screen, g: Grid, text: string): (r: Grid)
    requires GridOk(s, g)
    ensures GridOk(s, r)
  {
    if text == "" then g
    else
      PutKeepsGrid(s, PutAll(s, g, text[..|text| - 1]), text[|text| - 1]);
      Put(s, PutAll(s, g, text[..|text| - 1]), text[|text| - 1])
  }

  lemma CellsFit(s: Screen)
    requires ScreenOk(s)
    ensures Cols(s) > 0 && Rows(s) > 0
    ensures Cols(s) * s.font.width < s.w <= (Cols(s) + 1) * s.font.width
    ensures Rows(s) * s.font.height < s.h <= (Rows(s) + 1) * s.font.height
  {
    CellFits(s.w, s.font.width);
    CellFits(s.h, s.font.height);
  }

  lemma CellFits(w: nat, cw: nat)
    requires w > cw > 0
    ensures (w - 1) / cw > 0 && (w - 1) / cw * cw < w <= ((w - 1) / cw + 1) * cw
  {
    var q := (w - 1) / cw;
    assert w - 1 == q * cw + (w - 1) % cw;
    assert q == 0 ==> q * cw == 0;
  }

  /** The cursor stays in a blank cell with nothing after it. */
  lemma PutKeepsGrid(s: Screen, g: Grid, c: char)
    requires GridOk(s, g)
    ensures GridOk(s, Put(s, g, c))
  {
    CellsFit(s);
  }

  lemma EmptyGridOk(s: Screen)
    requires ScreenOk(s)
    ensures GridOk(s, EmptyGrid(s))
  {
    CellsFit(s);
  }

  // ---------------------------------------------------------------- the grid as a window on the text

  /** The lines of a text wrapped after `cols` characters, the last being the one the cursor is in. */
  function Wrap(text: string, cols: nat): (lines: seq<string>)
    ensures lines != []
  {
    if text == "" then [""]
    else
      var before, c := Wrap(text[..|text| - 1], cols), text[|text| - 1];
      var last := |before| - 1;
      if c == '\n' then before + [""]
      else
        var grown := before[last := before[last] + [c]];
        if |grown[last]| >= cols then grown + [""] else grown
  }

  /** Row r of the screen when it shows the end of these lines. */
  ghost predicate Shows(s: Screen, g: Grid, lines: seq<string>)
    requires ScreenOk(s)
  {
    var top := if |lines| <= Rows(s) then 0 else |lines| - Rows(s);
    && lines != []
    && |g.cells| == Rows(s) && (forall r :: 0 <= r < |g.cells| ==> |g.cells[r]| == Cols(s))
    && g.cy == |lines| - 1 - top && g.cx == |lines[|lines| - 1]|
    && (forall l :: 0 <= l < |lines| ==> |lines[l]| <= Cols(s))
    && forall r, c :: 0 <= r < Rows(s) && 0 <= c < Cols(s) ==>
         g.cells[r][c] == if top + r < |lines| && c < |lines[top + r]| then Some(lines[top + r][c]) else None
  }

  lemma GridScreenOk(s: Screen, g: Grid)
    requires GridOk(s, g)
    ensures ScreenOk(s) && g.cy < |g.cells| && g.cx < |g.cells[g.cy]|
  {
  }

  lemma CursorShows(s: Screen, g: Grid, lines: seq<string>)
    requires ScreenOk(s) && Shows(s, g, lines)
    ensures lines != [] && g.cx == |lines[|lines| - 1]|
  {
  }

  lemma CharShows(s: Screen, g: Grid, lines: seq<string>, c: char)
    requires GridOk(s, g) && Shows(s, g, lines)
    ensures var last := |lines| - 1;
            var written := g.cells[g.cy := g.cells[g.cy][g.cx := Some(c)]];
            Shows(s, Grid(written, g.cx + 1, g.cy), lines[last := lines[last] + [c]])
  {
    CellsFit(s);
  }

  /** A wrap leaves the cursor's column out of account. */
  lemma NewLineFrom(s: Screen, g: Grid, c: char, lines: seq<string>)
    requires GridOk(s, g)
    requires var written := g.cells[g.cy := g.cells[g.cy][g.cx :=
             Some(c)]]; Shows(s, Grid(written, g.cx + 1, g.cy), lines)
    ensures var written := g.cells[g.cy := g.cells[g.cy][g.cx :=
            Some(c)]]; Shows(s, NewLine(s, Grid(written, g.cx, g.cy)), lines + [""])
  {
    hide Shows;
    var written := g.cells[g.cy := g.cells[g.cy][g.cx := Some(c)]];
    NewLineShows(s, Grid(written, g.cx + 1, g.cy), lines);
  }

  lemma PutShows(s: Screen, g: Grid, text: string, c: char)
    requires GridOk(s, g) && Shows(s, g, Wrap(text, Cols(s)))
    ensures Shows(s, Put(s, g, c), Wrap(text + [c], Cols(s)))
  {
    hide Shows, Rows, Cols, NewLine;
    GridScreenOk(s, g);
    assert (text + [c])[..|text|] == text;
    var lines := Wrap(text, Cols(s));
    var last := |lines| - 1;
    if c == '\n' {
      NewLineShows(s, g, lines);
    } else {
      var grown := lines[last := lines[last] + [c]];
      var written := g.cells[g.cy := g.cells[g.cy][g.cx := Some(c)]];
      CursorShows(s, g, lines);
      CharShows(s, g, lines, c);
      if g.cx + 1 >= Cols(s) { NewLineFrom(s, g, c, grown); }
    }
  }

  lemma NewLineShows(s: Screen, g: Grid, lines: seq<string>)
    requires ScreenOk(s) && Shows(s, g, lines)
    ensures Shows(s, NewLine(s, g), lines + [""])
  {
    CellsFit(s);
  }

  /** After any text from a blank screen the grid shows the end of the wrapped text. */
  lemma {:induction false} PutAllShowsText(s: Screen, text: string)
    requires ScreenOk(s)
    ensures GridOk(s, EmptyGrid(s))
    ensures Shows(s, PutAll(s, EmptyGrid(s), text), Wrap(text, Cols(s)))
  {
    EmptyGridOk(s);
    CellsFit(s);
    if text != "" {
      var front := text[..|text| - 1];
      PutAllShowsText(s, front);
      assert front + [text[|text| - 1]] == text;
      PutShows(s, PutAll(s, EmptyGrid(s), front), front, text[|text| - 1]);
    }
  }

  // ---------------------------------------------------------------- pixels

  /** Which cell or line a coordinate falls in, and where in it. */
  function Quo(a: nat, b: nat): nat
    requires b > 0
  {
    a / b
  }

  function Rem(a: nat, b: nat): nat
    requires b > 0
  {
    a % b
  }

  /** The color the grid gives the pixel in column x, line y. */
  ghost function Pixel(s: Screen, cells: seq<seq<Option<char>>>, x: nat, y: nat): u32
    requires FontOk(s.font)
  {
    var r, c := Quo(y, s.font.height), Quo(x, s.font.width);
    if r < |cells| && c < |cells[r]| && cells[r][c].Some? &&
       GlyphBit(s.font, cells[r][c].value, Rem(x, s.font.width), Rem(y, s.font.height))
    then FG_COLOR else BG_COLOR
  }

  /** Every pixel of the frame, line by line. */
  ghost function Frame(s: Screen, cells: seq<seq<Option<char>>>): (f: seq<u32>)
    requires FontOk(s.font) && s.w > 0
    ensures |f| == s.w * s.h
    ensures forall k :: 0 <= k < |f| ==> f[k] == Pixel(s, cells, Rem(k, s.w), Quo(k, s.w))
  {
    seq(s.w * s.h, k requires 0 <= k < s.w * s.h => Pixel(s, cells, Rem(k, s.w), Quo(k, s.w)))
  }
}
