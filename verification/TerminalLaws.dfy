/** Drawing a glyph and scrolling, as changes to a frame of pixels. */
module TerminalLaws {
  import opened Bits
  import opened Common
  import opened TerminalSpec

  /** Pixel k of the frame belongs to the cell in row r, column c. */
  ghost predicate InCell(s: Screen, k: nat, r: nat, c: nat)
    requires s.w > 0 && FontOk(s.font)
  {
    Quo(Quo(k, s.w), s.font.height) == r && Quo(Rem(k, s.w), s.font.width) == c
  }

  /** The bit of glyph ch at pixel k of its cell. */
  ghost predicate Lit(s: Screen, k: nat, ch: char)
    requires s.w > 0 && FontOk(s.font)
  {
    GlyphBit(s.font, ch, Rem(Rem(k, s.w), s.font.width), Rem(Quo(k, s.w), s.font.height))
  }

  /** The drawing loops have passed pixel k: its line is above j, or is j and its column left of i. */
  ghost predicate Passed(s: Screen, k: nat, i: nat, j: nat)
    requires s.w > 0 && FontOk(s.font)
  {
    var x, y := Rem(Rem(k, s.w), s.font.width), Rem(Quo(k, s.w), s.font.height);
    y < j || (y == j && x < i)
  }

  /** `after` is `before` with the set bits of glyph ch drawn in a cell, as far as line j, column i. */
  ghost predicate Drawn(s: Screen, before: seq<u32>, after: seq<u32>, r: nat, c: nat, ch: char, i: nat, j: nat)
    requires s.w > 0 && FontOk(s.font)
  {
    && |after| == |before|
    && forall k :: 0 <= k < |before| ==>
         after[k] == if InCell(s, k, r, c) && Lit(s, k, ch) && Passed(s, k, i, j) then FG_COLOR else before[k]
  }

  /** Where `y * pixelsPerScanLine + x` lies: in which cell, and where in it. */
  lemma PixelAt(s: Screen, r: nat, c: nat, i: nat, j: nat, x: nat, y: nat, k: nat)
    requires ScreenOk(s) && r < Rows(s) && c < Cols(s) && i < s.font.width && j < s.font.height
    requires x == c * s.font.width + i && y == r * s.font.height + j && k == y * s.w + x
    ensures x < s.w && y < s.h && k < s.w * s.h
    ensures Quo(k, s.w) == y && Rem(k, s.w) == x
    ensures InCell(s, k, r, c) && Rem(x, s.font.width) == i && Rem(y, s.font.height) == j
  {
    hide Rows, Cols;
    CellsFit(s);
    InRange(c, Cols(s), s.font.width, i, s.w);
    InRange(r, Rows(s), s.font.height, j, s.h);
    QuotientIs(x, s.font.width, c, i);
    QuotientIs(y, s.font.height, r, j);
    QuotientIs(k, s.w, y, x);
    LineEnds(y, s.h, s.w, x);
  }

  lemma InRange(c: nat, cols: nat, cw: nat, i: nat, w: nat)
    requires c < cols && i < cw && cols * cw < w
    ensures c * cw + i < w
  {
    MulLess(c, cols, cw);
  }

  lemma LineEnds(y: nat, h: nat, w: nat, x: nat)
    requires y < h && x < w
    ensures y * w + x < w * h
  {
    MulLess(y, h, w);
  }

  /** A pixel is determined by its cell and its place in it. */
  lemma PixelUnique(s: Screen, k: nat, l: nat, r: nat, c: nat)
    requires s.w > 0 && FontOk(s.font) && InCell(s, k, r, c) && InCell(s, l, r, c)
    requires Rem(Quo(k, s.w), s.font.height) == Rem(Quo(l, s.w), s.font.height)
    requires Rem(Rem(k, s.w), s.font.width) == Rem(Rem(l, s.w), s.font.width)
    ensures k == l
  {
    SameDigits(k / s.w, l / s.w, s.font.height);
    SameDigits(k % s.w, l % s.w, s.font.width);
    SameDigits(k, l, s.w);
  }

  lemma SameDigits(a: nat, b: nat, d: nat)
    requires d > 0 && a / d == b / d && a % d == b % d
    ensures a == b
  {
    assert a == a / d * d + a % d;
    assert b == b / d * d + b % d;
  }

  /** One step of the inner loop: the pixel is set when its bit is, and skipped otherwise. */
  lemma DrawStep(s: Screen, before: seq<u32>, now: seq<u32>, after: seq<u32>, r: nat, c: nat, ch: char, i: nat,
                 j: nat, k: nat)
    requires ScreenOk(s) && r < Rows(s) && c < Cols(s) && i < s.font.width && j < s.font.height
    requires |before| == s.w * s.h && Drawn(s, before, now, r, c, ch, i, j)
    requires k < |now| && after == if GlyphBit(s.font, ch, i, j) then now[k := FG_COLOR] else now
    requires k == (r * s.font.height + j) * s.w + (c * s.font.width + i)
    ensures Drawn(s, before, after, r, c, ch, i + 1, j)
  {
    hide GlyphBit, Quo, Rem, Rows, Cols;
    NotNegative(c, s.font.width);
    NotNegative(r, s.font.height);
    PixelAt(s, r, c, i, j, c * s.font.width + i, r * s.font.height + j, k);
    forall l | 0 <= l < |before|
      ensures after[l] == if InCell(s, l, r, c) && Lit(s, l, ch) && Passed(s, l, i + 1, j) then FG_COLOR else before[l]
    {
      DrawPixel(s, r, c, i, j, k, l);
    }
  }

  /** Of the pixels of the cell, only k is passed now and was not before. */
  lemma DrawPixel(s: Screen, r: nat, c: nat, i: nat, j: nat, k: nat, l: nat)
    requires s.w > 0 && FontOk(s.font) && InCell(s, k, r, c)
    requires Rem(Rem(k, s.w), s.font.width) == i && Rem(Quo(k, s.w), s.font.height) == j
    ensures InCell(s, l, r, c) ==> (Passed(s, l, i + 1, j) <==> Passed(s, l, i, j) || l == k)
  {
    hide Quo, Rem;
    if InCell(s, l, r, c) && Rem(Rem(l, s.w), s.font.width) == i && Rem(Quo(l, s.w), s.font.height) == j {
      PixelUnique(s, l, k, r, c);
    }
  }

  /** From the end of one line of the glyph to the start of the next. */
  lemma NextLine(s: Screen, before: seq<u32>, after: seq<u32>, r: nat, c: nat, ch: char, j: nat)
    requires s.w > 0 && FontOk(s.font) && Drawn(s, before, after, r, c, ch, s.font.width, j)
    ensures Drawn(s, before, after, r, c, ch, 0, j + 1)
  {
    hide GlyphBit, InCell, Lit, Passed;
    forall k: nat ensures Passed(s, k, s.font.width, j) == Passed(s, k, 0, j + 1) { LineDone(s, k, j); }
  }

  lemma LineDone(s: Screen, k: nat, j: nat)
    requires s.w > 0 && FontOk(s.font)
    ensures Passed(s, k, s.font.width, j) == Passed(s, k, 0, j + 1)
    ensures Passed(s, k, 0, s.font.height)
  {
  }

  /** Drawing only the set bits over a blank cell shows the character there: every other pixel of the
      cell already has the background color. */
  lemma DrawnIsFrame(s: Screen, cells: seq<seq<Option<char>>>, after: seq<u32>, r: nat, c: nat, ch: char)
    requires ScreenOk(s) && r < |cells| && c < |cells[r]| && cells[r][c] == None
    requires Drawn(s, Frame(s, cells), after, r, c, ch, 0, s.font.height)
    ensures after == Frame(s, cells[r := cells[r][c := Some(ch)]])
  {
    hide GlyphBit, Quo, Rem, Passed, Cols, Rows;
    var written := cells[r := cells[r][c := Some(ch)]];
    forall k | 0 <= k < s.w * s.h ensures after[k] == Frame(s, written)[k] {
      LineDone(s, k, 0);
    }
  }

  // ---------------------------------------------------------------- scrolling

  /** Moving every line of pixels up by one text line and clearing the last. */
  ghost predicate MovedUp(s: Screen, before: seq<u32>, after: seq<u32>)
    requires s.h >= s.font.height
  {
    && |before| == |after| == s.w * s.h
    && forall k :: 0 <= k < |after| ==>
         after[k] == if k < s.w * (s.h - s.font.height) && k + s.w * s.font.height < |before|
                     then before[k + s.w * s.font.height] else BG_COLOR
  }

  /** Reading from the second text line on, writing that back from the top, and filling the end. */
  lemma ShiftFromCopy(s: Screen, before: seq<u32>, after: seq<u32>, n: nat, m: nat)
    requires s.h >= s.font.height && |before| == |after| == s.w * s.h
    requires n == s.w * (s.h - s.font.height) && m == s.w * s.font.height && n + m == s.w * s.h
    requires forall k :: 0 <= k < |after| ==> after[k] == if n <= k < n + m then BG_COLOR else before[m..m + n][k]
    ensures MovedUp(s, before, after)
  {
  }

  /** It shows the grid without its first row and with a blank row at the end. */
  lemma ShiftIsScroll(s: Screen, cells: seq<seq<Option<char>>>, after: seq<u32>)
    requires ScreenOk(s) && |cells| == Rows(s) && forall r :: 0 <= r < |cells| ==> |cells[r]| == Cols(s)
    requires MovedUp(s, Frame(s, cells), after)
    ensures |cells| > 0 && after == Frame(s, ScrollUp(s, cells))
  {
    hide GlyphBit;
    CellsFit(s);
    forall k | 0 <= k < s.w * s.h ensures after[k] == Frame(s, ScrollUp(s, cells))[k] {
      ShiftedPixel(s, cells, after, k);
    }
  }

  lemma ShiftedPixel(s: Screen, cells: seq<seq<Option<char>>>, after: seq<u32>, k: nat)
    requires ScreenOk(s) && |cells| == Rows(s) > 0 && forall r :: 0 <= r < |cells| ==> |cells[r]| == Cols(s)
    requires MovedUp(s, Frame(s, cells), after) && k < s.w * s.h
    ensures after[k] == Frame(s, ScrollUp(s, cells))[k]
  {
    hide GlyphBit, Quo, Rem, Rows, Cols;
    var x, y := Rem(k, s.w), Quo(k, s.w);
    CellsFit(s);
    PixelBelow(k, s.w, s.h, s.font.height, Rows(s));
    ScrolledRow(s, cells, Quo(y, s.font.height));
  }

  /** The pixel one text line below pixel k, or that there is none. */
  lemma PixelBelow(k: nat, w: nat, h: nat, ch: nat, rows: nat)
    requires w > 0 && h >= ch > 0 && k < w * h && rows * ch < h
    ensures var y := Quo(k, w);
            && (y < h - ch <==> k < w * (h - ch))
            && (y < h - ch ==>
                 && k + w * ch < w * h && Quo(k + w * ch, w) == y + ch && Rem(k + w * ch, w) == Rem(k, w)
                 && Quo(y + ch, ch) == Quo(y, ch) + 1 && Rem(y + ch, ch) == Rem(y, ch))
            && (y >= h - ch ==> Quo(y, ch) + 1 >= rows)
  {
    var x, y := k % w, k / w;
    assert k == y * w + x;
    if y < h - ch {
      LineEnds(y, h - ch, w, x);
      LineEnds(y + ch, h, w, x);
      Distributes(y, ch, w);
      QuotientIs(k + w * ch, w, y + ch, x);
      NextCell(y, ch);
    } else {
      Beyond(y, h - ch, w, x);
      LastRow(y, h, ch, rows);
    }
  }

  /** Row r of the scrolled grid is row r + 1 of the grid, or blank, or none. */
  lemma ScrolledRow(s: Screen, cells: seq<seq<Option<char>>>, r: nat)
    requires ScreenOk(s) && |cells| == Rows(s) > 0
    ensures var up := ScrollUp(s, cells);
            && (r + 1 < |cells| ==> r < |up| && up[r] == cells[r + 1])
            && (r + 1 == |cells| ==> r < |up| && up[r] == BlankRow(s))
            && (r + 1 > |cells| ==> r >= |up|)
  {
  }

  lemma Distributes(y: nat, ch: nat, w: nat)
    ensures (y + ch) * w == y * w + w * ch
  {
  }

  lemma NextCell(y: nat, ch: nat)
    requires ch > 0
    ensures (y + ch) / ch == y / ch + 1 && (y + ch) % ch == y % ch
  {
    assert y == y / ch * ch + y % ch;
    assert (y / ch + 1) * ch == y / ch * ch + ch;
    QuotientIs(y + ch, ch, y / ch + 1, y % ch);
  }

  lemma Beyond(y: nat, n: nat, w: nat, x: nat)
    requires y >= n
    ensures y * w + x >= w * n
  {
    NotNegative(y - n, w);
    assert y * w == n * w + (y - n) * w;
  }

  lemma LastRow(y: nat, h: nat, ch: nat, rows: nat)
    requires ch > 0 && y + ch >= h && rows * ch < h
    ensures y / ch + 1 >= rows
  {
    var q := y / ch;
    assert y == q * ch + y % ch;
    if q + 1 < rows { MulLess(q + 1, rows, ch); }
    assert (q + 1) * ch == q * ch + ch;
  }
}
