/** Where src/drivers/screen.c draws, on screens of any size: the cursor of `screen_putch`, and the
    screens on which no glyph reaches past the edge. */
module Cursor {
  import opened BitMath
  import opened Raster
  import opened Text

  datatype Cursor = Cursor(x: nat, y: nat)

  /** The end of `screen_putch`: the cursor after a character, for glyphs of `glyph` pixels. */
  function Advance(at: Cursor, width: nat, height: nat, glyph: nat, ch: Char7): Cursor {
    if ch != NEWLINE && at.x + glyph < width then Cursor(at.x + glyph, at.y)
    else if at.y + glyph >= height then Cursor(0, at.y)
    else Cursor(0, at.y + glyph)
  }

  function CursorAfter(text: seq<Char7>, width: nat, height: nat, glyph: nat): Cursor {
    if text == [] then Cursor(0, 0)
    else
      var last := |text| - 1;
      Advance(CursorAfter(text[..last], width, height, glyph), width, height, glyph, text[last])
  }

  /** Every pixel that `screen_putch` writes for a character is on the screen. */
  ghost predicate DrawsInside(font: Font, ch: Char7, at: Cursor, scale: nat, width: nat, height: nat) {
    ch != NEWLINE ==>
      forall i: nat, j: nat, dx: nat, dy: nat {:trigger TestBit(font[ch][i], j), InDot(scale, dx, dy)} ::
        i < 8 && j < 8 && TestBit(font[ch][i], j) && InDot(scale, dx, dy) ==>
        at.x + j * scale + dx < width && at.y + i * scale + dy < height
  }

  predicate InDot(scale: nat, dx: nat, dy: nat) {
    dx < scale && dy < scale
  }

  /** The cursor stands at multiples of the glyph size, on the screen. */
  lemma {:induction false} CursorOnGrid(text: seq<Char7>, width: nat, height: nat, glyph: nat)
    requires width > 0 && height > 0 && glyph > 0
    ensures var at := CursorAfter(text, width, height, glyph);
            at.x % glyph == 0 && at.y % glyph == 0 && at.x < width && at.y < height
    decreases |text|
  {
    DivModUnique(0, glyph, 0, 0);
    if text != [] {
      CursorOnGrid(text[..|text| - 1], width, height, glyph);
      var at := CursorAfter(text[..|text| - 1], width, height, glyph);
      DivModUnique(glyph, glyph, 1, 0);
      MultiplesClosed(at.x, glyph, glyph);
      MultiplesClosed(at.y, glyph, glyph);
    }
  }

  /** The columns and the rows that the cursor reaches. */
  lemma {:induction false} ReachesColumn(k: nat, width: nat, height: nat, glyph: nat, ch: Char7)
    requires k * glyph < width && ch != NEWLINE
    ensures CursorAfter(seq(k, _ => ch), width, height, glyph) == Cursor(k * glyph, 0)
    decreases k
  {
    if k > 0 {
      MulDistributes(k, 1, glyph);
      ReachesColumn(k - 1, width, height, glyph, ch);
      assert seq(k, _ => ch)[..k - 1] == seq(k - 1, _ => ch);
    }
  }

  lemma {:induction false} ReachesRow(k: nat, width: nat, height: nat, glyph: nat)
    requires k * glyph < height
    ensures CursorAfter(seq(k, _ => NEWLINE), width, height, glyph) == Cursor(0, k * glyph)
    decreases k
  {
    if k > 0 {
      MulDistributes(k, 1, glyph);
      ReachesRow(k - 1, width, height, glyph);
      assert seq(k, _ => NEWLINE)[..k - 1] == seq(k - 1, _ => NEWLINE);
    }
  }

  lemma DotInGlyph(i: nat, scale: nat, d: nat)
    requires i < 8 && d < scale
    ensures i * scale + d < 8 * scale
  {
    MulMonotone(i + 1, 8, scale);
    MulDistributes(i, 1, scale);
  }

  /** On a screen of whole glyphs everything is drawn inside. */
  lemma WholeGlyphsFit(font: Font, text: seq<Char7>, ch: Char7, scale: nat, width: nat, height: nat)
    requires scale > 0 && width > 0 && height > 0
    requires width % (8 * scale) == 0 && height % (8 * scale) == 0
    ensures DrawsInside(font, ch, CursorAfter(text, width, height, 8 * scale), scale, width, height)
  {
    var at := CursorAfter(text, width, height, 8 * scale);
    CursorOnGrid(text, width, height, 8 * scale);
    MultiplesApart(at.x, width, 8 * scale);
    MultiplesApart(at.y, height, 8 * scale);
    forall i: nat, j: nat, dx: nat, dy: nat {:trigger TestBit(font[ch][i], j), InDot(scale, dx, dy)}
      | i < 8 && j < 8 && TestBit(font[ch][i], j) && InDot(scale, dx, dy)
      ensures at.x + j * scale + dx < width && at.y + i * scale + dy < height
    {
      DotInGlyph(j, scale, dx);
      DotInGlyph(i, scale, dy);
    }
  }

  /** The last whole or partial glyph of a length that is not a multiple reaches past it. */
  lemma LastGlyph(length: nat, glyph: nat) returns (k: nat)
    requires length > 0 && glyph > 0
    ensures k * glyph < length <= k * glyph + glyph
    ensures length == k * glyph + glyph ==> length % glyph == 0
  {
    k := (length - 1) / glyph;
    DivMod(length - 1, glyph);
    MulDistributes(k, 1, glyph);
    if length == k * glyph + glyph {
      DivModUnique(length, glyph, k + 1, 0);
    }
  }

  /** EDGES.  With a font whose glyph `ch` has a dot in its last row and column (in the font of the
      source the underscore has one) every pixel of every text is written on the screen if and only
      if the screen is a whole number of glyphs wide and high. */
  lemma DrawsInsideIffWholeGlyphs(font: Font, ch: Char7, scale: nat, width: nat, height: nat)
    requires scale > 0 && width > 0 && height > 0
    requires ch != NEWLINE && TestBit(font[ch][7], 7)
    ensures (forall text: seq<Char7>, c: Char7
               {:trigger DrawsInside(font, c, CursorAfter(text, width, height, 8 * scale), scale, width, height)} ::
               DrawsInside(font, c, CursorAfter(text, width, height, 8 * scale), scale, width, height))
            <==> width % (8 * scale) == 0 && height % (8 * scale) == 0
  {
    var glyph := 8 * scale;
    if width % glyph == 0 && height % glyph == 0 {
      forall text: seq<Char7>, c: Char7
        ensures DrawsInside(font, c, CursorAfter(text, width, height, glyph), scale, width, height)
      {
        WholeGlyphsFit(font, text, c, scale, width, height);
      }
    } else {
      var k := LastGlyph(width, glyph);
      var l := LastGlyph(height, glyph);
      ReachesColumn(k, width, height, glyph, ch);
      ReachesRow(l, width, height, glyph);
      assert InDot(scale, scale - 1, scale - 1);
      if width % glyph != 0 {
        assert !DrawsInside(font, ch, CursorAfter(seq(k, _ => ch), width, height, glyph), scale, width, height);
      } else {
        assert !DrawsInside(font, ch, CursorAfter(seq(l, _ => NEWLINE), width, height, glyph), scale, width, height);
      }
    }
  }
}
