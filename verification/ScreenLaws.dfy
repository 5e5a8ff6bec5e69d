/** What a text looks like on the screen, pixel by pixel. */
module ScreenLaws {
  import opened Bits
  import opened Common
  import opened TerminalSpec
  import opened TerminalLaws

  // ---------------------------------------------------------------- one cell

  /** The place of a pixel in the frame: column i and line j of the cell in row r, column c. */
  function PixelOf(s: Screen, r: nat, c: nat, i: nat, j: nat): nat {
    NotNegative(r, s.font.height);
    NotNegative(c, s.font.width);
    NotNegative(r * s.font.height + j, s.w);
    (r * s.font.height + j) * s.w + (c * s.font.width + i)
  }

  /** The byte of the font that holds line j of a glyph. */
  function ByteOf(f: Font, ch: char, j: nat): nat {
    NotNegative(ch as int, f.bytesPerGlyph);
    f.headerSize + ch as int * f.bytesPerGlyph + j
  }

  lemma PixelInCell(s: Screen, r: nat, c: nat, i: nat, j: nat)
    requires ScreenOk(s) && r < Rows(s) && c < Cols(s) && i < s.font.width && j < s.font.height
    ensures var k := PixelOf(s, r, c, i, j);
            && k < s.w * s.h
            && Quo(Quo(k, s.w), s.font.height) == r && Quo(Rem(k, s.w), s.font.width) == c
            && Rem(Rem(k, s.w), s.font.width) == i && Rem(Quo(k, s.w), s.font.height) == j
  {
    hide Rows, Cols, Quo, Rem;
    NotNegative(r, s.font.height);
    NotNegative(c, s.font.width);
    NotNegative(r * s.font.height + j, s.w);
    PixelAt(s, r, c, i, j, c * s.font.width + i, r * s.font.height + j, PixelOf(s, r, c, i, j));
  }

  lemma GlyphByte(f: Font, ch: char, i: nat, j: nat)
    requires FontOk(f) && HasGlyph(f, ch) && i < f.width && j < f.height
    ensures var at := ByteOf(f, ch, j);
            at < |f.data| && i <= 7 && (GlyphBit(f, ch, i, j) <==> Bit(f.data[at], 7 - i))
  {
    hide Bit, And, Shr;
    assert (ch as int + 1) * f.bytesPerGlyph == ch as int * f.bytesPerGlyph + f.bytesPerGlyph;
    ShiftedBit(f.data[ByteOf(f, ch, j)], 7 - i);
  }

  /** In a cell with a character the set bits of the glyph's bytes have the foreground color, the highest bit in
      the leftmost column; all other pixels of the cell have the background color. */
  lemma CellShowsGlyph(s: Screen, cells: seq<seq<Option<char>>>, r: nat, c: nat, i: nat, j: nat, ch: char)
    requires ScreenOk(s) && r < Rows(s) && c < Cols(s) && i < s.font.width && j < s.font.height
    requires r < |cells| && c < |cells[r]| && cells[r][c] == Some(ch) && HasGlyph(s.font, ch)
    ensures var at := ByteOf(s.font, ch, j);
            && at < |s.font.data| && i <= 7 && PixelOf(s, r, c, i, j) < s.w * s.h
            && Frame(s, cells)[PixelOf(s, r, c, i, j)] == if Bit(s.font.data[at], 7 - i) then 0xf4_9445 else 0x18_0a0a
  {
    hide GlyphBit, Bit, Rows, Cols, Quo, Rem, HasGlyph, PixelOf, ByteOf;
    PixelInCell(s, r, c, i, j);
    GlyphByte(s.font, ch, i, j);
  }

  /** A blank cell has the background color. */
  lemma BlankCell(s: Screen, cells: seq<seq<Option<char>>>, r: nat, c: nat, i: nat, j: nat)
    requires ScreenOk(s) && r < Rows(s) && c < Cols(s) && i < s.font.width && j < s.font.height
    requires r < |cells| && c < |cells[r]| && cells[r][c] == None
    ensures PixelOf(s, r, c, i, j) < s.w * s.h && Frame(s, cells)[PixelOf(s, r, c, i, j)] == 0x18_0a0a
  {
    hide GlyphBit, Rows, Cols, Quo, Rem, PixelOf;
    PixelInCell(s, r, c, i, j);
  }

  // ---------------------------------------------------------------- lines

  /** One more character at the end of some lines. */
  function AddChar(lines: seq<string>, c: char, cols: nat): (r: seq<string>)
    requires lines != []
    ensures r != []
  {
    var last := |lines| - 1;
    if c == '\n' then lines + [""]
    else if |lines[last]| + 1 >= cols then lines[last := lines[last] + [c]] + [""]
    else lines[last := lines[last] + [c]]
  }

  lemma WrapStep(text: string, c: char, cols: nat)
    ensures Wrap(text + [c], cols) == AddChar(Wrap(text, cols), c, cols)
  {
    assert (text + [c])[..|text|] == text;
  }

  lemma AddBehind(before: seq<string>, more: seq<string>, c: char, cols: nat)
    requires more != []
    ensures AddChar(before + more, c, cols) == before + AddChar(more, c, cols)
  {
    var last, end := |before + more| - 1, |more| - 1;
    assert (before + more)[last := more[end] + [c]] == before + more[end := more[end] + [c]];
  }

  /** A newline ends a line, and what follows starts in the next. */
  lemma {:induction false} WrapAtNewline(a: string, b: string, cols: nat)
    ensures Wrap(a + "\n" + b, cols) == Wrap(a, cols) + Wrap(b, cols)
    decreases |b|
  {
    if b == "" {
      assert a + "\n" + b == a + ['\n'];
      WrapStep(a, '\n', cols);
    } else {
      hide Wrap, AddChar;
      var front, c := b[..|b| - 1], b[|b| - 1];
      WrapAtNewline(a, front, cols);
      assert a + "\n" + b == (a + "\n" + front) + [c] && b == front + [c];
      WrapStep(a + "\n" + front, c, cols);
      WrapStep(front, c, cols);
      AddBehind(Wrap(a, cols), Wrap(front, cols), c, cols);
    }
  }

  /** Full lines, and r characters in the last. */
  ghost predicate AreFull(lines: seq<string>, q: nat, r: nat, cols: nat) {
    |lines| == q + 1 && |lines[q]| == r && forall l :: 0 <= l < q ==> |lines[l]| == cols
  }

  /** Text without newlines fills lines of `cols` characters one after the other, the last one as far as it goes. */
  lemma WrapPlain(text: string, cols: nat)
    requires cols > 0 && '\n' !in text
    ensures AreFull(Wrap(text, cols), |text| / cols, |text| % cols, cols) && Flatten(Wrap(text, cols)) == text
  {
    hide Wrap, AreFull, Flatten;
    LinesAreFull(text, cols);
  }

  lemma {:induction false} LinesAreFull(text: string, cols: nat)
    requires cols > 0 && '\n' !in text
    ensures AreFull(Wrap(text, cols), Quo(|text|, cols), Rem(|text|, cols), cols) && Flatten(Wrap(text, cols)) == text
  {
    hide Quo, Rem, Wrap, AddChar, AreFull, Flatten;
    if text == "" {
      NoLines(cols);
    } else {
      var front, c := text[..|text| - 1], text[|text| - 1];
      LinesAreFull(front, cols);
      assert text == front + [c];
      WrapStep(front, c, cols);
      OneMore(|front|, cols);
      AddToFull(Wrap(front, cols), c, Quo(|front|, cols), Rem(|front|, cols), cols);
    }
  }

  lemma NoLines(cols: nat)
    requires cols > 0
    ensures AreFull(Wrap("", cols), Quo(0, cols), Rem(0, cols), cols) && Flatten(Wrap("", cols)) == ""
  {
    FlattenOne("");
    QuotientIs(0, cols, 0, 0);
  }

  lemma AddToFull(lines: seq<string>, c: char, q: nat, r: nat, cols: nat)
    requires AreFull(lines, q, r, cols) && c != '\n' && r < cols
    ensures lines != []
    ensures if r + 1 < cols then AreFull(AddChar(lines, c, cols), q, r + 1, cols)
            else AreFull(AddChar(lines, c, cols), q + 1, 0, cols)
    ensures Flatten(AddChar(lines, c, cols)) == Flatten(lines) + [c]
  {
    hide Flatten;
    FlattenGrows(lines, [c]);
    var grown := lines[|lines| - 1 := lines[|lines| - 1] + [c]];
    FlattenMore(grown, "");
    assert Flatten(grown) + "" == Flatten(grown);
  }

  lemma OneMore(n: nat, cols: nat)
    requires cols > 0
    ensures Rem(n, cols) < cols
    ensures if Rem(n, cols) + 1 < cols then Quo(n + 1, cols) == Quo(n, cols) && Rem(n + 1, cols) == Rem(n, cols) + 1
            else Quo(n + 1, cols) == Quo(n, cols) + 1 && Rem(n + 1, cols) == 0
  {
    var q, r := n / cols, n % cols;
    assert n == q * cols + r;
    if r + 1 < cols {
      QuotientIs(n + 1, cols, q, r + 1);
    } else {
      assert (q + 1) * cols == q * cols + cols;
      QuotientIs(n + 1, cols, q + 1, 0);
    }
  }

  function Flatten(lines: seq<string>): string {
    if lines == [] then "" else Flatten(lines[..|lines| - 1]) + lines[|lines| - 1]
  }

  lemma FlattenOne(line: string)
    ensures Flatten([line]) == line
  {
    assert [line][..0] == [] && Flatten([]) == "" && "" + line == line;
  }

  lemma FlattenMore(lines: seq<string>, line: string)
    ensures Flatten(lines + [line]) == Flatten(lines) + line
  {
    assert (lines + [line])[..|lines|] == lines;
  }

  lemma FlattenGrows(lines: seq<string>, end: string)
    requires lines != []
    ensures Flatten(lines[|lines| - 1 := lines[|lines| - 1] + end]) == Flatten(lines) + end
  {
    var last := |lines| - 1;
    assert lines[last := lines[last] + end][..last] == lines[..last];
    Associates(Flatten(lines[..last]), lines[last], end);
  }

  /** The lines hold characters of the text only. */
  lemma {:induction false} WrapKeepsChars(text: string, cols: nat)
    ensures forall l, k :: 0 <= l < |Wrap(text, cols)| && 0 <= k < |Wrap(text, cols)[l]| ==>
              Wrap(text, cols)[l][k] in text && Wrap(text, cols)[l][k] != '\n'
  {
    if text != "" { WrapKeepsChars(text[..|text| - 1], cols); }
  }

  // ---------------------------------------------------------------- a whole text

  /** After any text from a blank screen: lines of (w - 1) / width characters, of which the last (h - 1) / height
      are shown from the top; every pixel of every cell. */
  lemma TextOnScreen(s: Screen, text: string, r: nat, c: nat, i: nat, j: nat)
    requires ScreenOk(s) && forall k :: 0 <= k < |text| ==> text[k] == '\n' || HasGlyph(s.font, text[k])
    requires r < (s.h - 1) / s.font.height && c < (s.w - 1) / s.font.width && i < s.font.width && j < s.font.height
    ensures GridOk(s, EmptyGrid(s)) && PixelOf(s, r, c, i, j) < s.w * s.h && i <= 7
    ensures var rows, lines := (s.h - 1) / s.font.height, Wrap(text, (s.w - 1) / s.font.width);
            var line := r + if |lines| <= rows then 0 else |lines| - rows;
            var pixel := Frame(s, PutAll(s, EmptyGrid(s), text).cells)[PixelOf(s, r, c, i, j)];
            if line < |lines| && c < |lines[line]| then
              var at := ByteOf(s.font, lines[line][c], j);
              at < |s.font.data| && pixel == if Bit(s.font.data[at], 7 - i) then 0xf4_9445 else 0x18_0a0a
            else pixel == 0x18_0a0a
  {
    hide Wrap, PutAll, Frame, HasGlyph, Bit, PixelOf, FontOk, ByteOf;
    PutAllShowsText(s, text);
    WrapKeepsChars(text, (s.w - 1) / s.font.width);
    CellsFit(s);
    PixelInCell(s, r, c, i, j);
    NarrowFont(s);
    var cells := PutAll(s, EmptyGrid(s), text).cells;
    match cells[r][c]
    case Some(ch) => CellShowsGlyph(s, cells, r, c, i, j, ch);
    case None => BlankCell(s, cells, r, c, i, j);
  }

  lemma NarrowFont(s: Screen)
    requires ScreenOk(s)
    ensures 1 <= s.font.width <= 8 && 1 <= s.font.height
  {
  }

  /** Right of the cells and below them there is nothing. */
  lemma MarginIsBlank(s: Screen, text: string, k: nat)
    requires ScreenOk(s) && GridOk(s, EmptyGrid(s)) && k < s.w * s.h
    requires k % s.w >= (s.w - 1) / s.font.width * s.font.width || k / s.w >= (s.h - 1) / s.font.height * s.font.height
    ensures Frame(s, PutAll(s, EmptyGrid(s), text).cells)[k] == 0x18_0a0a
  {
    hide Wrap, PutAll, GlyphBit;
    PutAllShowsText(s, text);
    CellsFit(s);
    if k % s.w >= Cols(s) * s.font.width { PastEdge(k % s.w, Cols(s), s.font.width); }
    if k / s.w >= Rows(s) * s.font.height { PastEdge(k / s.w, Rows(s), s.font.height); }
  }

  lemma PastEdge(x: nat, n: nat, size: nat)
    requires size > 0 && x >= n * size
    ensures x / size >= n
  {
    assert x == x / size * size + x % size;
    if x / size < n { MulLess(x / size, n, size); }
  }
}
