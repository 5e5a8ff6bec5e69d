/** The framebuffer driver with its shadow buffer, and the terminal drawing on it. */
module Terminal {
  import opened Bits
  import opened Common
  import opened TerminalSpec
  import opened TerminalLaws

  /** efifb.c; the driver's lock is left to the model of locks. */
  class Efifb {
    const width: nat
    const height: nat
    const fbBuffer: array<u32>   // the hardware framebuffer
    const doubleBuf: array<u32>  // its shadow in memory

    /** A scan line has as many pixels as the screen is wide, as the driver asserts. */
    ghost predicate Valid() {
      fbBuffer != doubleBuf && fbBuffer.Length == doubleBuf.Length == width * height
    }

    ghost predicate Agree()
      reads fbBuffer, doubleBuf
    {
      fbBuffer[..] == doubleBuf[..]
    }

    constructor (width: nat, height: nat, fbBuffer: array<u32>, doubleBuf: array<u32>)
      requires fbBuffer != doubleBuf && fbBuffer.Length == doubleBuf.Length == width * height
      ensures Valid() && this.width == width && this.height == height
      ensures this.fbBuffer == fbBuffer && this.doubleBuf == doubleBuf
    {
      this.width, this.height, this.fbBuffer, this.doubleBuf := width, height, fbBuffer, doubleBuf;
    }

    /** `efifb_setpixel` */
    method SetPixel(x: nat, y: nat, pixel: u32)
      requires Valid() && y * width + x < width * height
      modifies fbBuffer, doubleBuf
      ensures fbBuffer[..] == old(fbBuffer[..])[y * width + x := pixel]
      ensures doubleBuf[..] == old(doubleBuf[..])[y * width + x := pixel]
    {
      var idx := y * width + x;
      fbBuffer[idx] := pixel;
      doubleBuf[idx] := pixel;
    }

    /** `efifb_readpixels`; count is in bytes. */
    method ReadPixels(buf: array<u32>, offset: nat, count: nat)
      requires Valid() && count % 4 == 0 && offset + count / 4 <= width * height && count / 4 <= buf.Length
      requires buf != fbBuffer && buf != doubleBuf
      modifies buf
      ensures buf[..] == doubleBuf[offset..offset + count / 4] + old(buf[..])[count / 4..]
    {
      Copy(buf, 0, doubleBuf, offset, count / 4);
    }

    /** `efifb_memcpy`; count is in bytes. */
    method Memcpy(buf: array<u32>, offset: nat, count: nat)
      requires Valid() && count % 4 == 0 && offset + count / 4 <= width * height && count / 4 <= buf.Length
      requires buf != fbBuffer && buf != doubleBuf
      modifies fbBuffer, doubleBuf
      ensures fbBuffer[..] == old(fbBuffer[..])[..offset] + buf[..count / 4] + old(fbBuffer[..])[offset + count / 4..]
      ensures doubleBuf[..] ==
              old(doubleBuf[..])[..offset] + buf[..count / 4] + old(doubleBuf[..])[offset + count / 4..]
    {
      Copy(fbBuffer, offset, buf, 0, count / 4);
      Copy(doubleBuf, offset, buf, 0, count / 4);
    }

    /** `efifb_pixset` */
    method PixSet(color: u32, offset0: nat, count0: nat)
      requires Valid() && offset0 + count0 <= width * height
      modifies fbBuffer, doubleBuf
      ensures fbBuffer[..] == Filled(old(fbBuffer[..]), color, offset0, count0)
      ensures doubleBuf[..] == Filled(old(doubleBuf[..]), color, offset0, count0)
    {
      var offset, count := offset0, count0;
      while count > 0
        invariant 0 <= count <= count0 && offset + count == offset0 + count0
        invariant forall k :: 0 <= k < width * height ==>
          fbBuffer[k] == if offset0 <= k < offset then color else old(fbBuffer[k])
        invariant forall k :: 0 <= k < width * height ==>
          doubleBuf[k] == if offset0 <= k < offset then color else old(doubleBuf[k])
      {
        count := count - 1;
        fbBuffer[offset] := color;
        doubleBuf[offset] := color;
        offset := offset + 1;
      }
    }
  }

  function Filled(s: seq<u32>, color: u32, offset: nat, count: nat): (r: seq<u32>)
    ensures |r| == |s|
  {
    seq(|s|, k requires 0 <= k < |s| => if offset <= k < offset + count then color else s[k])
  }

  /** memcpy between different arrays. */
  method Copy(dst: array<u32>, at: nat, src: array<u32>, from: nat, n: nat)
    requires dst != src && at + n <= dst.Length && from + n <= src.Length
    modifies dst
    ensures dst[..] == old(dst[..])[..at] + src[from..from + n] + old(dst[..])[at + n..]
  {
    ghost var before := dst[..];
    var i := 0;
    while i < n
      invariant 0 <= i <= n
      invariant forall k :: 0 <= k < dst.Length ==>
        dst[k] == if at <= k < at + i then src[from + (k - at)] else before[k]
    {
      dst[at + i] := src[from + i];
      i := i + 1;
    }
  }

  /** fbtty.c */
  class Fbtty {
    const font: Font
    const fb: Efifb
    var cx: nat
    var cy: nat
    const fbw: nat
    const fbh: nat
    const scrollback: array<u32>
    ghost var grid: Grid

    ghost function View(): Screen {
      Screen(fbw, fbh, font)
    }

    /** The screen shows the grid: framebuffer and shadow are both its frame, the cursors agree, and the
        cells from the cursor on are blank. */
    ghost predicate Valid()
      reads this, fb.fbBuffer, fb.doubleBuf
    {
      && fb.Valid() && fb.width == fbw && fb.height == fbh
      && scrollback != fb.fbBuffer && scrollback != fb.doubleBuf
      && GridOk(View(), grid) && cx == grid.cx && cy == grid.cy
      && scrollback.Length == fbw * (fbh - font.height)
      && fb.fbBuffer[..] == Frame(View(), grid.cells)
      && fb.doubleBuf[..] == Frame(View(), grid.cells)
    }

    /** `fbtty_module_init` with a matching font, a driver, and memory for the scrollback buffer. */
    constructor (font: Font, fb: Efifb, scrollback: array<u32>)
      requires fb.Valid() && ScreenOk(Screen(fb.width, fb.height, font))
      requires scrollback != fb.fbBuffer && scrollback != fb.doubleBuf
      requires scrollback.Length == fb.width * (fb.height - font.height)
      modifies fb.fbBuffer, fb.doubleBuf
      ensures Valid() && this.font == font && this.fb == fb && this.scrollback == scrollback
      ensures grid == EmptyGrid(View())
    {
      this.font, this.fb, this.scrollback := font, fb, scrollback;
      cx, cy, fbw, fbh := 0, 0, fb.width, fb.height;
      grid := EmptyGrid(Screen(fb.width, fb.height, font));
      new;
      EmptyGridOk(View());
      fb.PixSet(BG_COLOR, 0, fbw * fbh);
      BlankFrame(View(), fb.fbBuffer[..], grid.cells);
      BlankFrame(View(), fb.doubleBuf[..], grid.cells);
    }

    /** The drawing loops of `fbtty_putchar`: only the set bits of the glyph are drawn. */
    method DrawGlyph(c: char, realX: nat, realY: nat)
      requires fb.Valid() && fb.width == fbw && fb.height == fbh && ScreenOk(View()) && fb.Agree()
      requires cx < Cols(View()) && cy < Rows(View()) && realX == cx * font.width && realY == cy * font.height
      requires HasGlyph(font, c)
      modifies fb.fbBuffer, fb.doubleBuf
      ensures fb.Agree() && Drawn(View(), old(fb.fbBuffer[..]), fb.fbBuffer[..], cy, cx, c, 0, font.height)
    {
      hide Drawn, InCell, Lit, Passed, GlyphBit, Cols, Rows, Quo, Rem;
      ghost var before := fb.fbBuffer[..];
      var offset := c as int * font.bytesPerGlyph + font.headerSize;
      var j := 0;
      NothingDrawn(View(), before, cy, cx, c);
      while j < font.height
        invariant 0 <= j <= font.height && fb.Agree()
        invariant Drawn(View(), before, fb.fbBuffer[..], cy, cx, c, 0, j)
      {
        var i := 0;
        while i < font.width
          invariant 0 <= i <= font.width && fb.Agree()
          invariant Drawn(View(), before, fb.fbBuffer[..], cy, cx, c, i, j)
        {
          NotNegative(realY + j, fbw);
          PixelAt(View(), cy, cx, i, j, realX + i, realY + j, (realY + j) * fbw + (realX + i));
          GlyphInFont(font, c, i, j);
          ghost var now := fb.fbBuffer[..];
          if Shifted(font.data[offset + j], i) {
            fb.SetPixel(realX + i, realY + j, FG_COLOR);
          }
          DrawStep(View(), before, now, fb.fbBuffer[..], cy, cx, c, i, j, (realY + j) * fbw + (realX + i));
          i := i + 1;
        }
        NextLine(View(), before, fb.fbBuffer[..], cy, cx, c, j);
        j := j + 1;
      }
    }

    /** The scroll of `fbtty_putchar`, through the scrollback buffer. */
    method Scroll()
      requires fb.Valid() && fb.width == fbw && fb.height == fbh && ScreenOk(View()) && fb.Agree()
      requires scrollback != fb.fbBuffer && scrollback != fb.doubleBuf
      requires scrollback.Length == fbw * (fbh - font.height)
      modifies fb.fbBuffer, fb.doubleBuf, scrollback
      ensures fb.Agree() && MovedUp(View(), old(fb.fbBuffer[..]), fb.fbBuffer[..])
    {
      hide Cols, Rows, MovedUp, FontOk;
      ghost var before := fb.fbBuffer[..];
      var offset := fbw * font.height;
      var pixels := fbw * (fbh - font.height);
      Distributes(fbh - font.height, font.height, fbw);
      var count := pixels * 4;
      fb.ReadPixels(scrollback, offset, count);
      fb.Memcpy(scrollback, 0, count);
      fb.PixSet(BG_COLOR, count / 4, offset);
      ShiftFromCopy(View(), before, fb.fbBuffer[..], pixels, offset);
    }

    /** `fbtty_putchar`: the screen shows the grid with the character put. */
    method PutChar(c: char)
      requires Valid() && (c != '\n' ==> HasGlyph(font, c))
      modifies this, fb.fbBuffer, fb.doubleBuf, scrollback
      ensures Valid() && grid == Put(View(), old(grid), c)
    {
      hide Frame, Pixel, Drawn, MovedUp, GlyphBit, Quo, Rem;
      CellsFit(View());
      PutKeepsGrid(View(), grid, c);
      ghost var g := grid;
      if c == '\n' {
        cy := cy + 1;
        cx := 0;
      } else {
        DrawGlyph(c, cx * font.width, cy * font.height);
        DrawnIsFrame(View(), grid.cells, fb.fbBuffer[..], cy, cx, c);
        grid := grid.(cells := grid.cells[cy := grid.cells[cy][cx := Some(c)]]);
        cx := cx + 1;
        PastCells(cx, fbw, font.width);
        if (cx + 1) * font.width >= fbw {
          cy := cy + 1;
          cx := 0;
        }
      }
      PastCells(cy, fbh, font.height);
      if (cy + 1) * font.height >= fbh {
        Scroll();
        ShiftIsScroll(View(), grid.cells, fb.fbBuffer[..]);
        grid := grid.(cells := ScrollUp(View(), grid.cells));
        cy := cy - 1;
      }
      grid := grid.(cx := cx, cy := cy);
      assert grid == Put(View(), g, c);
    }

    /** A string of characters. */
    method PutString(text: string)
      requires Valid() && forall i :: 0 <= i < |text| ==> text[i] != '\n' ==> HasGlyph(font, text[i])
      modifies this, fb.fbBuffer, fb.doubleBuf, scrollback
      ensures Valid() && grid == PutAll(View(), old(grid), text)
    {
      var i := 0;
      while i < |text|
        invariant 0 <= i <= |text| && Valid() && grid == PutAll(View(), old(grid), text[..i])
      {
        assert text[..i + 1][..i] == text[..i];
        PutChar(text[i]);
        i := i + 1;
      }
      assert text[..i] == text;
    }
  }

  lemma GlyphInFont(f: Font, c: char, i: nat, j: nat)
    requires FontOk(f) && HasGlyph(f, c) && i < f.width && j < f.height
    ensures var at := c as int * f.bytesPerGlyph + f.headerSize + j;
            at < |f.data| && GlyphBit(f, c, i, j) == Shifted(f.data[at], i)
  {
    assert (c as int + 1) * f.bytesPerGlyph == c as int * f.bytesPerGlyph + f.bytesPerGlyph;
  }

  lemma NothingDrawn(s: Screen, before: seq<u32>, r: nat, c: nat, ch: char)
    requires s.w > 0 && FontOk(s.font)
    ensures Drawn(s, before, before, r, c, ch, 0, 0)
  {
  }

  /** Both wrap conditions of fbtty_putchar ask whether the cursor has left the cells. */
  lemma PastCells(cx: nat, w: nat, cw: nat)
    requires w > cw > 0
    ensures (cx + 1) * cw >= w <==> cx >= (w - 1) / cw
  {
    CellFits(w, cw);
    var q := (w - 1) / cw;
    if cx >= q {
      NotNegative(cx - q, cw);
      assert (cx + 1) * cw == (q + 1) * cw + (cx - q) * cw;
    } else {
      MulLess(cx, q, cw);
      assert (cx + 1) * cw == cx * cw + cw;
    }
  }

  lemma BlankFrame(s: Screen, pixels: seq<u32>, cells: seq<seq<Option<char>>>)
    requires ScreenOk(s) && cells == EmptyGrid(s).cells
    requires |pixels| == s.w * s.h && forall k :: 0 <= k < |pixels| ==> pixels[k] == BG_COLOR
    ensures pixels == Frame(s, cells)
  {
    hide GlyphBit, Quo, Rem, Rows, Cols;
  }
}
