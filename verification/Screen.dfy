/** The framebuffer terminal of src/drivers/screen.c, with 32 bits per pixel: a cell of the
    framebuffer is a pixel, and `stride` is the pitch in cells. */
module Screen {
  import opened BitMath
  import opened Cursor
  import opened Raster
  import opened Text
  import Memory

  class Display {
    const fb: array<nat>
    const width: nat
    const height: nat
    const stride: nat
    const font: Font
    const fontScale: nat
    var cursorX: nat
    var cursorY: nat
    var color: nat

    ghost const rows: nat
    ghost const cols: nat

    /** What has been printed since the framebuffer was blank, and its dots. */
    ghost var printed: seq<Ink>
    ghost var raster: seq<seq<nat>>

    /** The screen is a whole number of glyphs wide and high. */
    ghost predicate Shape() {
      && rows > 0 && cols > 0 && fontScale > 0
      && width == Off(8 * cols, fontScale) && height == Off(8 * rows, fontScale)
      && width <= stride && fb.Length == Off(height, stride)
    }

    ghost function Picture(): seq<seq<nat>>
      requires Shape()
      reads fb
    {
      RowsOf(fb[..], stride, height)
    }

    ghost predicate ShowsTerminal(t: Terminal)
      requires Shape()
      reads this, fb
    {
      && Text.Fits(t, rows, cols)
      && cursorX == Off(8 * t.cx, fontScale) && cursorY == Off(8 * t.cy, fontScale)
      && IsRaster(raster, t.grid, font, rows, cols) && Shows(Picture(), raster, fontScale)
    }

    /** The invariant of every run: the pixels are the rendering of what has been printed. */
    ghost predicate Valid()
      reads this, fb
    {
      Shape() && ShowsTerminal(Showing(printed, rows, cols))
    }

    /** `screen_init` on a zeroed framebuffer. */
    constructor (ghost rows: nat, ghost cols: nat, width: nat, height: nat, stride: nat, font: Font,
                 fontScale: nat, color: nat)
      requires rows > 0 && cols > 0 && fontScale > 0 && width <= stride
      requires width == Off(8 * cols, fontScale) && height == Off(8 * rows, fontScale)
      ensures Valid() && printed == [] && this.color == color && fresh(fb)
    {
      this.rows, this.cols, this.width, this.height := rows, cols, width, height;
      this.stride, this.font, this.fontScale, this.color := stride, font, fontScale, color;
      cursorX, cursorY := 0, 0;
      OffIsProduct(height, stride);
      fb := new nat[height * stride](_ => 0);
      printed := [];
      raster := Zeros(8 * rows, 8 * cols);
      new;
      BlankScreen();
    }

    lemma BlankScreen()
      requires Shape() && printed == [] && cursorX == 0 && cursorY == 0
      requires forall i :: 0 <= i < fb.Length ==> fb[i] == 0
      requires raster == Zeros(8 * rows, 8 * cols)
      ensures Valid()
    {
      var t, p := Showing(printed, rows, cols), Picture();
      assert Paper([], cols) == [[]];
      assert forall y, x :: 0 <= y < height && 0 <= x < stride ==> p[y][x] == 0;
      forall r, c | 0 <= r < |raster| && 0 <= c < |raster[r]|
        ensures Square(p, fontScale, r, c, raster[r][c])
      {
        OffApart(r, 8 * rows, fontScale);
        OffApart(c, 8 * cols, fontScale);
      }
    }

    /** `draw_pixel`. */
    method DrawPixel(x: nat, y: nat)
      requires Shape() && x < width && y < height
      modifies fb
      ensures Picture() == Plot(old(Picture()), y, x, color)
    {
      OffIsProduct(y, stride);
      WritePixel(fb[..], stride, height, y, x, color);
      ghost var was := fb[..];
      fb[stride * y + x] := color;
      assert fb[..] == was[Off(y, stride) + x := color];
    }

    /** The pixels of a square that are drawn before column dx, and in it above row dy. */
    ghost predicate PartlyFilled(p: seq<seq<nat>>, p': seq<seq<nat>>, x: nat, y: nat, dx: nat, dy: nat)
      reads this
    {
      && Rectangle(p, height, stride) && Rectangle(p', height, stride)
      && forall v: nat, u: nat {:trigger p'[v][u]} :: v < height && u < stride ==>
           p'[v][u] == if y <= v < y + fontScale && x <= u < x + fontScale
                          && (u < x + dx || (u == x + dx && v < y + dy))
                       then color else p[v][u]
    }

    /** The innermost loop of `screen_putch`: one column of a square. */
    method FillColumn(x: nat, y: nat, dx: nat, ghost p: seq<seq<nat>>)
      requires Shape() && dx < fontScale && x + fontScale <= width && y + fontScale <= height
      requires PartlyFilled(p, Picture(), x, y, dx, 0)
      modifies fb
      ensures PartlyFilled(p, Picture(), x, y, dx + 1, 0)
    {
      var dy := 0;
      while dy < fontScale
        invariant 0 <= dy <= fontScale && PartlyFilled(p, Picture(), x, y, dx, dy)
      {
        DrawPixel(x + dx, y + dy);
        dy := dy + 1;
      }
    }

    /** The two inner loops of `screen_putch`: one dot becomes a square of pixels. */
    method FillSquare(x: nat, y: nat, ghost r: nat, ghost c: nat)
      requires Shape() && r < 8 * rows && c < 8 * cols
      requires x == Off(c, fontScale) && y == Off(r, fontScale)
      modifies fb
      ensures SquareFilled(old(Picture()), Picture(), fontScale, r, c, color)
    {
      OffApart(r, 8 * rows, fontScale);
      OffApart(c, 8 * cols, fontScale);
      ghost var p := Picture();
      var dx := 0;
      while dx < fontScale
        invariant 0 <= dx <= fontScale && PartlyFilled(p, Picture(), x, y, dx, 0)
      {
        FillColumn(x, y, dx, p);
        dx := dx + 1;
      }
    }

    /** A square of pixels is a dot of the raster. */
    method FillDot(x: nat, y: nat, ghost r: nat, ghost c: nat)
      requires Shape() && r < 8 * rows && c < 8 * cols
      requires x == Off(c, fontScale) && y == Off(r, fontScale)
      requires Shows(Picture(), raster, fontScale) && r < |raster| && c < |raster[r]|
      modifies fb, this`raster
      ensures Shows(Picture(), raster, fontScale)
      ensures raster == Plot(old(raster), r, c, color)
    {
      FillSquare(x, y, r, c);
      FillShows(old(Picture()), Picture(), raster, fontScale, r, c, color);
      raster := Plot(raster, r, c, color);
    }

    /** The first pixel of dot i behind the cursor. */
    method DotPosition(cursor: nat, i: nat, ghost cell: nat, ghost dot: nat) returns (pixel: nat)
      requires cursor == Off(8 * cell, fontScale) && dot == 8 * cell + i
      ensures pixel == Off(dot, fontScale)
    {
      OffPlusProduct(8 * cell, i, fontScale);
      pixel := cursor + i * fontScale;
    }

    /** One dot of a glyph: dot (i, j) of the font makes a square behind the cursor position. */
    method DrawDotAt(ch: Char7, i: nat, j: nat, ghost t: Terminal)
      requires Shape() && Text.Fits(t, rows, cols) && t.grid[t.cy][t.cx] == Blank
      requires cursorX == Off(8 * t.cx, fontScale) && cursorY == Off(8 * t.cy, fontScale)
      requires i < 8 && j < 8
      requires PartlyDrawn(raster, t.grid, font, rows, cols, t.cx, t.cy, Ink(ch, color), 8 * i + j)
      requires Shows(Picture(), raster, fontScale)
      modifies fb, this`raster
      ensures PartlyDrawn(raster, t.grid, font, rows, cols, t.cx, t.cy, Ink(ch, color), 8 * i + j + 1)
      ensures Shows(Picture(), raster, fontScale)
    {
      DrawDot(raster, t.grid, font, rows, cols, t.cx, t.cy, Ink(ch, color), i, j);
      if TestBit(font[ch][i], j) {
        ghost var r, c := 8 * t.cy + i, 8 * t.cx + j;
        var x := DotPosition(cursorX, j, t.cx, c);
        var y := DotPosition(cursorY, i, t.cy, r);
        assert r < 8 * rows && c < 8 * cols;
        FillDot(x, y, r, c);
      }
    }

    /** The drawing loops of `screen_putch`: the glyph appears in the cell of the cursor. */
    method DrawGlyph(ch: Char7, ghost t: Terminal)
      requires Shape() && ShowsTerminal(t) && t.grid[t.cy][t.cx] == Blank
      modifies fb, this`raster
      ensures ShowsTerminal(PutCell(t, rows, cols, Ink(ch, color)))
    {
      var i := 0;
      while i < 8
        invariant 0 <= i <= 8
        invariant PartlyDrawn(raster, t.grid, font, rows, cols, t.cx, t.cy, Ink(ch, color), 8 * i)
        invariant Shows(Picture(), raster, fontScale)
      {
        var j := 0;
        while j < 8
          invariant 0 <= j <= 8
          invariant PartlyDrawn(raster, t.grid, font, rows, cols, t.cx, t.cy, Ink(ch, color), 8 * i + j)
          invariant Shows(Picture(), raster, fontScale)
        {
          DrawDotAt(ch, i, j, t);
          j := j + 1;
        }
        i := i + 1;
      }
      DrawnGlyph(raster, t.grid, font, rows, cols, t.cx, t.cy, Ink(ch, color));
    }

    /** `screen_scroll`. */
    method Scroll(pixelCount: nat)
      requires Shape() && pixelCount <= height
      modifies fb
      ensures Picture() == MovedUp(old(Picture()), pixelCount, stride)
    {
      ScrollRows(fb[..], stride, height, pixelCount);
      OffIsProduct(height - pixelCount, stride);
      OffIsProduct(pixelCount, stride);
      ghost var was := fb[..];
      var cellsToMove := (height - pixelCount) * stride;
      Memory.Memmove(fb, 0, pixelCount * stride, cellsToMove);
      Memory.Memset(fb, cellsToMove, 0, pixelCount * stride);
      assert fb[..] == ScrolledCells(was, stride, pixelCount);
    }

    /** The line break of `screen_putch`. */
    method LineBreak(ghost t: Terminal)
      requires Shape() && ShowsTerminal(t)
      modifies this`cursorX, this`cursorY, this`raster, fb
      ensures ShowsTerminal(NewLine(t, rows, cols))
      ensures Cursor(cursorX, cursorY)
              == Cursor(0, if old(cursorY) + 8 * fontScale >= height then old(cursorY)
                           else old(cursorY) + 8 * fontScale)
    {
      cursorX := 0;
      GlyphSteps(t.cy, rows, fontScale);
      if cursorY + 8 * fontScale >= height {
        ScrollShows(Picture(), raster, fontScale, stride, 8 * cols, 8);
        ScrolledRaster(raster, t.grid, font, rows, cols);
        OffIsProduct(8, fontScale);
        Scroll(8 * fontScale);
        raster := MovedUp(raster, 8, 8 * cols);
      } else {
        cursorY := cursorY + 8 * fontScale;
      }
    }

    /** The end of `screen_putch`: the cursor goes one glyph further, or to a new line. */
    method MoveOn(ch: Char7, ghost t: Terminal)
      requires Shape() && Text.Fits(t, rows, cols)
      requires ShowsTerminal(if ch == NEWLINE then t else PutCell(t, rows, cols, Ink(ch, color)))
      modifies this`cursorX, this`cursorY, this`raster, fb
      ensures ShowsTerminal(Put(t, rows, cols, Ink(ch, color)))
      ensures Cursor(cursorX, cursorY)
              == Advance(Cursor(old(cursorX), old(cursorY)), width, height, 8 * fontScale, ch)
    {
      if ch != NEWLINE {
        GlyphSteps(t.cx, cols, fontScale);
        if cursorX + 8 * fontScale < width {
          cursorX := cursorX + 8 * fontScale;
          return;
        }
      }
      LineBreak(if ch == NEWLINE then t else PutCell(t, rows, cols, Ink(ch, color)));
    }

    /** `screen_putch`: the character is added to what the screen shows. */
    method Putch(ch: Char7)
      requires Valid()
      modifies this`cursorX, this`cursorY, this`raster, this`printed, fb
      ensures Valid() && printed == old(printed) + [Ink(ch, color)]
      ensures Cursor(cursorX, cursorY)
              == Advance(Cursor(old(cursorX), old(cursorY)), width, height, 8 * fontScale, ch)
    {
      ghost var t := Showing(printed, rows, cols);
      CursorCellIsBlank(printed, rows, cols);
      PutShowsLongerText(printed, rows, cols, Ink(ch, color));
      printed := printed + [Ink(ch, color)];
      if ch != NEWLINE {
        DrawGlyph(ch, t);
      }
      MoveOn(ch, t);
    }

    /** `screen_print`: the string ends at its first zero. */
    method Print(str: seq<Char7>)
      requires Valid() && |str| > 0 && str[|str| - 1] == 0
      requires forall i :: 0 <= i < |str| - 1 ==> str[i] != 0
      modifies this`cursorX, this`cursorY, this`raster, this`printed, fb
      ensures Valid() && printed == old(printed) + Inked(str[..|str| - 1], color)
    {
      var i := 0;
      while str[i] != 0
        invariant 0 <= i < |str| && Valid() && color == old(color)
        invariant printed == old(printed) + Inked(str[..i], color)
        decreases |str| - i
      {
        Putch(str[i]);
        InkedStep(old(printed), str, color, i);
        i := i + 1;
      }
    }

    /** `screen_set_color`. */
    method SetColor(newColor: nat)
      requires Valid()
      modifies this`color
      ensures Valid() && color == newColor && printed == old(printed)
    {
      color := newColor;
    }

    /** Every pixel of a glyph cell is the dot of the text laid out on paper: pixel (x, y) with
        y in the square row r and x in the square column c. */
    lemma PixelsShowText(r: nat, c: nat, y: nat, x: nat)
      requires Valid() && r < 8 * rows && c < 8 * cols && InSquare(fontScale, r, c, y, x)
      ensures y < height && x < width && Off(y, stride) + x < fb.Length
      ensures fb[Off(y, stride) + x]
              == DotAt(Window(Paper(printed, cols), rows, cols), font, r, c)
    {
      OffApart(r, 8 * rows, fontScale);
      OffApart(c, 8 * cols, fontScale);
      OffApart(y, height, stride);
      assert Square(Picture(), fontScale, r, c, raster[r][c]);
      assert Picture()[y][x] == fb[..][Off(y, stride) + x];
    }
  }
}
