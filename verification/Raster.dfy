/** From the cells of a text grid to pixels: eight by eight dots for every cell, and a square of
    pixels for every dot.  FONT_WIDTH and FONT_HEIGHT are both 8. */
module Raster {
  import opened BitMath
  import opened Text

  /** For every 7-bit character eight rows of eight dots. */
  type Font = f: seq<seq<nat>> | |f| == 128 && forall c :: 0 <= c < 128 ==> |f[c]| == 8
    witness seq(128, _ => seq(8, _ => 0))

  /** n * d, as a sum. */
  function Off(n: nat, d: nat): nat {
    if n == 0 then 0 else Off(n - 1, d) + d
  }

  lemma OffIsProduct(n: nat, d: nat)
    ensures Off(n, d) == n * d
  {
    if n > 0 {
      OffIsProduct(n - 1, d);
      MulDistributes(n, 1, d);
    }
  }

  lemma {:induction false} OffAdd(m: nat, n: nat, d: nat)
    ensures Off(m + n, d) == Off(m, d) + Off(n, d)
  {
    if n > 0 {
      OffAdd(m, n - 1, d);
    }
  }

  lemma OffApart(m: nat, n: nat, d: nat)
    requires m < n
    ensures Off(m, d) + d <= Off(n, d)
  {
    OffAdd(m, n - m, d);
    OffAdd(n - m - 1, 1, d);
  }

  lemma OffCompare(a: nat, b: nat, s: nat)
    requires a <= b && s > 0
    ensures Off(a, s) >= Off(b, s) <==> a == b
  {
    if a < b {
      OffApart(a, b, s);
    }
  }

  lemma OffPlusProduct(m: nat, n: nat, s: nat)
    ensures Off(m + n, s) == Off(m, s) + n * s
  {
    OffAdd(m, n, s);
    OffIsProduct(n, s);
  }

  lemma EightTimes(s: nat)
    ensures Off(8, s) == 8 * s
  {
    OffIsProduct(8, s);
  }

  /** Comparing pixel positions is comparing cell positions. */
  lemma GlyphSteps(i: nat, n: nat, s: nat)
    requires i < n && s > 0
    ensures Off(8 * (i + 1), s) == Off(8 * i, s) + 8 * s
    ensures Off(8 * (i + 1), s) >= Off(8 * n, s) <==> i + 1 >= n
  {
    OffAdd(8 * i, 8, s);
    EightTimes(s);
    OffCompare(8 * (i + 1), 8 * n, s);
  }

  // ----- dots

  function DotOf(cell: Cell, font: Font, i: nat, j: nat): nat
    requires i < 8 && j < 8
  {
    match cell
    case Blank => 0
    case Glyph(ink) => if TestBit(font[ink.ch][i], j) then ink.color else 0
  }

  /** The dots from j on in one row of a glyph, read as binary digits, the leftmost one the lowest. */
  function DigitsFrom(cell: Cell, font: Font, i: nat, j: nat): nat
    requires i < 8 && j <= 8
    decreases 8 - j
  {
    if j == 8 then 0 else (if DotOf(cell, font, i, j) != 0 then 1 else 0) + 2 * DigitsFrom(cell, font, i, j + 1)
  }

  lemma {:induction false} DigitsAreShifted(ink: Ink, font: Font, i: nat, j: nat)
    requires i < 8 && j <= 8 && font[ink.ch][i] < Pow2(8) && ink.color != 0
    ensures DigitsFrom(Glyph(ink), font, i, j) == Shr(font[ink.ch][i], j)
    decreases 8 - j
  {
    var w := font[ink.ch][i];
    if j == 8 {
      ShrOut(w, j);
    } else {
      DigitsAreShifted(ink, font, i, j + 1);
      ShrShr(w, j, 1);
      assert Shr(Shr(w, j), 1) == Shr(w, j) / 2;
    }
  }

  /** A row of a glyph, from left to right, spells the byte of the font, from its lowest digit on. */
  lemma GlyphRowSpellsByte(ink: Ink, font: Font, i: nat)
    requires i < 8 && font[ink.ch][i] < 256 && ink.color != 0
    ensures DigitsFrom(Glyph(ink), font, i, 0) == font[ink.ch][i]
  {
    assert Pow2(4) == 16;
    assert Pow2(8) == 16 * Pow2(4);
    DigitsAreShifted(ink, font, i, 0);
  }

  function DotAt(grid: seq<seq<Cell>>, font: Font, r: nat, c: nat): nat
    requires r / 8 < |grid| && c / 8 < |grid[r / 8]|
  {
    DotOf(grid[r / 8][c / 8], font, r % 8, c % 8)
  }

  ghost predicate Grid(grid: seq<seq<Cell>>, rows: nat, cols: nat) {
    |grid| == rows && forall r :: 0 <= r < rows ==> |grid[r]| == cols
  }

  /** A rectangle of dots or of pixels. */
  ghost predicate Rectangle(q: seq<seq<nat>>, rows: nat, cols: nat) {
    |q| == rows && forall r :: 0 <= r < rows ==> |q[r]| == cols
  }

  function Plot(q: seq<seq<nat>>, r: nat, c: nat, value: nat): seq<seq<nat>>
    requires r < |q| && c < |q[r]|
  {
    var row: seq<nat> := q[r][c := value];
    q[r := row]
  }

  function Zeros(rows: nat, cols: nat): seq<seq<nat>> {
    seq(rows, _ => seq(cols, _ => 0))
  }

  /** q is the raster of the grid. */
  ghost predicate IsRaster(q: seq<seq<nat>>, grid: seq<seq<Cell>>, font: Font, rows: nat, cols: nat) {
    && Grid(grid, rows, cols) && Rectangle(q, 8 * rows, 8 * cols)
    && forall r, c :: 0 <= r < 8 * rows && 0 <= c < 8 * cols ==>
         q[r][c] == DotAt(grid, font, r, c)
  }

  /** While a glyph is drawn into a blank cell, its first k dots are there. */
  ghost predicate PartlyDrawn(q: seq<seq<nat>>, grid: seq<seq<Cell>>, font: Font, rows: nat, cols: nat,
                              cx: nat, cy: nat, ink: Ink, k: nat)
  {
    && Grid(grid, rows, cols) && Rectangle(q, 8 * rows, 8 * cols)
    && forall r, c :: 0 <= r < 8 * rows && 0 <= c < 8 * cols ==>
         q[r][c] == if r / 8 == cy && c / 8 == cx
                       && 8 * (r % 8) + c % 8 < k
                    then DotOf(Glyph(ink), font, r % 8, c % 8)
                    else DotAt(grid, font, r, c)
  }

  lemma DrawDot(q: seq<seq<nat>>, grid: seq<seq<Cell>>, font: Font, rows: nat, cols: nat,
                cx: nat, cy: nat, ink: Ink, i: nat, j: nat)
    requires i < 8 && j < 8 && cy < rows && cx < cols
    requires PartlyDrawn(q, grid, font, rows, cols, cx, cy, ink, 8 * i + j)
    requires grid[cy][cx] == Blank
    ensures var r, c := 8 * cy + i, 8 * cx + j;
            && r < |q| && c < |q[r]|
            && PartlyDrawn(if TestBit(font[ink.ch][i], j) then Plot(q, r, c, ink.color) else q,
                           grid, font, rows, cols, cx, cy, ink, 8 * i + j + 1)
  {
    var r, c := 8 * cy + i, 8 * cx + j;
    assert r / 8 == cy && r % 8 == i && c / 8 == cx && c % 8 == j;
    assert q[r][c] == DotAt(grid, font, r, c) == 0;
    forall r', c' | 0 <= r' < 8 * rows && 0 <= c' < 8 * cols
        && r' / 8 == cy && c' / 8 == cx
        && 8 * (r' % 8) + c' % 8 == 8 * i + j
      ensures r' == r && c' == c
    {
    }
  }

  lemma DrawnGlyph(q: seq<seq<nat>>, grid: seq<seq<Cell>>, font: Font, rows: nat, cols: nat,
                   cx: nat, cy: nat, ink: Ink)
    requires cy < rows && cx < cols
    requires PartlyDrawn(q, grid, font, rows, cols, cx, cy, ink, 64)
    ensures IsRaster(q, grid[cy := grid[cy][cx := Glyph(ink)]], font, rows, cols)
  {
  }

  /** Scrolling the grid by a row scrolls its raster by eight. */
  lemma ScrolledRaster(q: seq<seq<nat>>, grid: seq<seq<Cell>>, font: Font, rows: nat, cols: nat)
    requires IsRaster(q, grid, font, rows, cols) && rows > 0
    ensures IsRaster(MovedUp(q, 8, 8 * cols), grid[1..] + [Padded([], cols)], font, rows, cols)
  {
    var grid' := grid[1..] + [Padded([], cols)];
    forall r, c | 0 <= r < 8 * rows && 0 <= c < 8 * cols
      ensures MovedUp(q, 8, 8 * cols)[r][c] == DotAt(grid', font, r, c)
    {
      ScrolledDot(q, grid, font, rows, cols, r, c);
    }
  }

  lemma ScrolledDot(q: seq<seq<nat>>, grid: seq<seq<Cell>>, font: Font, rows: nat, cols: nat, r: nat, c: nat)
    requires IsRaster(q, grid, font, rows, cols) && rows > 0 && r < 8 * rows && c < 8 * cols
    ensures r / 8 < rows && c / 8 < cols
    ensures MovedUp(q, 8, 8 * cols)[r][c] == DotAt(grid[1..] + [Padded([], cols)], font, r, c)
  {
    var grid' := grid[1..] + [Padded([], cols)];
    if r < 8 * (rows - 1) {
      assert (r + 8) / 8 == r / 8 + 1 && (r + 8) % 8 == r % 8;
      assert q[r + 8][c] == DotAt(grid, font, r + 8, c);
      assert grid'[r / 8] == grid[r / 8 + 1];
    } else {
      assert r / 8 == rows - 1;
      assert grid'[rows - 1] == Padded([], cols);
      assert grid'[rows - 1][c / 8] == Blank;
    }
  }

  // ----- pixels

  /** The square of pixels of one dot. */
  ghost predicate InSquare(s: nat, r: nat, c: nat, y: nat, x: nat) {
    Off(r, s) <= y < Off(r, s) + s && Off(c, s) <= x < Off(c, s) + s
  }

  ghost predicate Square(p: seq<seq<nat>>, s: nat, r: nat, c: nat, value: nat) {
    forall y: nat, x: nat {:trigger InSquare(s, r, c, y, x)} {:trigger p[y][x]} ::
      InSquare(s, r, c, y, x) ==> y < |p| && x < |p[y]| && p[y][x] == value
  }

  /** The picture shows the raster with squares of s by s pixels for a dot. */
  ghost predicate Shows(p: seq<seq<nat>>, q: seq<seq<nat>>, s: nat) {
    forall r, c {:trigger Square(p, s, r, c, q[r][c])} ::
      0 <= r < |q| && 0 <= c < |q[r]| ==> Square(p, s, r, c, q[r][c])
  }

  /** p' is p with a square filled. */
  ghost predicate SquareFilled(p: seq<seq<nat>>, p': seq<seq<nat>>, s: nat, r: nat, c: nat, value: nat) {
    && |p'| == |p| && (forall y :: 0 <= y < |p| ==> |p'[y]| == |p[y]|)
    && forall y: nat, x: nat {:trigger p'[y][x]} :: y < |p| && x < |p[y]| ==>
         p'[y][x] == if InSquare(s, r, c, y, x) then value else p[y][x]
  }

  lemma FillShows(p: seq<seq<nat>>, p': seq<seq<nat>>, q: seq<seq<nat>>, s: nat, r: nat, c: nat, value: nat)
    requires Shows(p, q, s) && r < |q| && c < |q[r]| && SquareFilled(p, p', s, r, c, value)
    ensures Shows(p', Plot(q, r, c, value), s)
  {
    var q' := Plot(q, r, c, value);
    forall r', c' | 0 <= r' < |q'| && 0 <= c' < |q'[r']|
      ensures Square(p', s, r', c', q'[r'][c'])
    {
      assert Square(p, s, r', c', q[r'][c']);
      if r' != r {
        OffApart(if r' < r then r' else r, if r' < r then r else r', s);
      }
      if c' != c {
        OffApart(if c' < c then c' else c, if c' < c then c else c', s);
      }
    }
  }

  /** The picture moved up by k rows of pixels, with zeros below. */
  function MovedUp(p: seq<seq<nat>>, k: nat, width: nat): (p': seq<seq<nat>>)
    requires k <= |p|
    ensures |p'| == |p|
    ensures forall y :: 0 <= y < |p| ==> p'[y] == if y < |p| - k then p[y + k] else seq(width, _ => 0)
  {
    p[k..] + Zeros(k, width)
  }

  /** Scrolling the picture by n dots scrolls the raster. */
  lemma ScrollShows(p: seq<seq<nat>>, q: seq<seq<nat>>, s: nat, stride: nat, cols: nat, n: nat)
    requires Shows(p, q, s) && |q| >= n && Off(|q|, s) == |p|
    requires forall r :: 0 <= r < |q| ==> |q[r]| == cols
    requires Off(cols, s) <= stride && forall y :: 0 <= y < |p| ==> |p[y]| == stride
    ensures Off(n, s) <= |p|
    ensures Shows(MovedUp(p, Off(n, s), stride), MovedUp(q, n, cols), s)
  {
    OffAdd(|q| - n, n, s);
    var p', q' := MovedUp(p, Off(n, s), stride), MovedUp(q, n, cols);
    forall r, c | 0 <= r < |q'| && 0 <= c < |q'[r]|
      ensures Square(p', s, r, c, q'[r][c])
    {
      if r < |q| - n {
        ScrolledSquare(p, q, s, stride, cols, n, r, c);
      } else {
        BlankSquare(p, q, s, stride, cols, n, r, c);
      }
    }
  }

  lemma ScrolledSquare(p: seq<seq<nat>>, q: seq<seq<nat>>, s: nat, stride: nat, cols: nat, n: nat,
                       r: nat, c: nat)
    requires Shows(p, q, s) && |q| >= n && Off(|q|, s) == |p| && Off(n, s) <= |p|
    requires r + n < |q| && c < |q[r + n]|
    ensures Square(MovedUp(p, Off(n, s), stride), s, r, c, q[r + n][c])
  {
    var p', v := MovedUp(p, Off(n, s), stride), q[r + n][c];
    assert Square(p, s, r + n, c, v);
    OffAdd(r, n, s);
    OffApart(r + n, |q|, s);
    forall y: nat, x: nat | InSquare(s, r, c, y, x)
      ensures y < |p'| && x < |p'[y]| && p'[y][x] == v
    {
      assert InSquare(s, r + n, c, y + Off(n, s), x);
    }
  }

  lemma BlankSquare(p: seq<seq<nat>>, q: seq<seq<nat>>, s: nat, stride: nat, cols: nat, n: nat,
                    r: nat, c: nat)
    requires |q| >= n && Off(|q|, s) == |p| && Off(n, s) <= |p| && Off(cols, s) <= stride
    requires |q| - n <= r < |q| && c < cols
    ensures Square(MovedUp(p, Off(n, s), stride), s, r, c, 0)
  {
    var p', m := MovedUp(p, Off(n, s), stride), |q| - n;
    OffAdd(m, n, s);
    OffAdd(m, r - m, s);
    OffApart(r, |q|, s);
    OffApart(c, cols, s);
    assert |p| - Off(n, s) <= Off(r, s) && Off(r, s) + s <= |p| && Off(c, s) + s <= stride;
    forall y: nat, x: nat | InSquare(s, r, c, y, x)
      ensures y < |p'| && x < |p'[y]| && p'[y][x] == 0
    {
      assert |p| - Off(n, s) <= y < |p| && x < stride;
      assert p'[y] == seq(stride, _ => 0);
    }
  }

  // ----- the linear framebuffer

  /** Row y of a framebuffer of `height` rows of `stride` cells. */
  ghost function RowOf(fb: seq<nat>, stride: nat, height: nat, y: nat): (row: seq<nat>)
    requires |fb| == Off(height, stride) && y < height
    ensures |row| == stride && Off(y, stride) + stride <= |fb|
    ensures forall x :: 0 <= x < stride ==> row[x] == fb[Off(y, stride) + x]
  {
    OffApart(y, height, stride);
    fb[Off(y, stride)..Off(y, stride) + stride]
  }

  ghost function RowsOf(fb: seq<nat>, stride: nat, height: nat): (p: seq<seq<nat>>)
    requires |fb| == Off(height, stride)
    ensures |p| == height && forall y :: 0 <= y < height ==> p[y] == RowOf(fb, stride, height, y)
    ensures Rectangle(p, height, stride)
  {
    var p := seq(height, y requires 0 <= y < height => RowOf(fb, stride, height, y));
    assert forall y :: 0 <= y < height ==> p[y] == RowOf(fb, stride, height, y);
    p
  }

  lemma WriteRow(fb: seq<nat>, stride: nat, height: nat, y: nat, x: nat, value: nat, z: nat)
    requires |fb| == Off(height, stride) && y < height && x < stride && z < height
    ensures Off(y, stride) + x < |fb|
    ensures var row := RowOf(fb, stride, height, z);
            RowOf(fb[Off(y, stride) + x := value], stride, height, z)
            == if z == y then row[x := value] else row
  {
    OffApart(y, height, stride);
    OffApart(z, height, stride);
    if z < y {
      OffApart(z, y, stride);
    } else if y < z {
      OffApart(y, z, stride);
    }
  }

  lemma WritePixel(fb: seq<nat>, stride: nat, height: nat, y: nat, x: nat, value: nat)
    requires |fb| == Off(height, stride) && y < height && x < stride
    ensures Off(y, stride) + x < |fb|
    ensures var p := RowsOf(fb, stride, height);
            RowsOf(fb[Off(y, stride) + x := value], stride, height) == Plot(p, y, x, value)
  {
    OffApart(y, height, stride);
    forall z | 0 <= z < height
      ensures var row := RowOf(fb, stride, height, z);
              RowOf(fb[Off(y, stride) + x := value], stride, height, z)
              == if z == y then row[x := value] else row
    {
      WriteRow(fb, stride, height, y, x, value, z);
    }
  }

  /** The framebuffer moved up by k rows, with zeros below. */
  function ScrolledCells(fb: seq<nat>, stride: nat, k: nat): seq<nat>
    requires Off(k, stride) <= |fb|
  {
    fb[Off(k, stride)..] + seq(Off(k, stride), _ => 0)
  }

  lemma KeptRow(fb: seq<nat>, stride: nat, height: nat, k: nat, y: nat)
    requires |fb| == Off(height, stride) && k <= height && y < height - k
    ensures Off(k, stride) <= |fb|
    ensures RowOf(ScrolledCells(fb, stride, k), stride, height, y) == RowOf(fb, stride, height, y + k)
  {
    OffAdd(height - k, k, stride);
    OffAdd(y, k, stride);
    OffApart(y, height, stride);
    OffApart(y + k, height, stride);
    OffApart(y, height - k, stride);
  }

  lemma BlankRow(fb: seq<nat>, stride: nat, height: nat, k: nat, y: nat)
    requires |fb| == Off(height, stride) && k <= height && height - k <= y < height
    ensures Off(k, stride) <= |fb|
    ensures RowOf(ScrolledCells(fb, stride, k), stride, height, y) == seq(stride, _ => 0)
  {
    OffAdd(height - k, k, stride);
    OffApart(y, height, stride);
    if y > height - k {
      OffApart(height - k, y, stride);
    }
  }

  lemma ScrollRows(fb: seq<nat>, stride: nat, height: nat, k: nat)
    requires |fb| == Off(height, stride) && k <= height
    ensures Off(k, stride) <= |fb| && Off(height - k, stride) + Off(k, stride) == |fb|
    ensures RowsOf(ScrolledCells(fb, stride, k), stride, height)
            == MovedUp(RowsOf(fb, stride, height), k, stride)
  {
    OffAdd(height - k, k, stride);
    var p, p' := RowsOf(fb, stride, height), RowsOf(ScrolledCells(fb, stride, k), stride, height);
    var want := MovedUp(p, k, stride);
    forall y | 0 <= y < height
      ensures p'[y] == want[y]
    {
      if y < height - k {
        KeptRow(fb, stride, height, k, y);
        assert want[y] == p[y + k];
      } else {
        BlankRow(fb, stride, height, k, y);
      }
    }
  }
}
