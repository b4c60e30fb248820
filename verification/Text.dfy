/** What the framebuffer terminal of src/drivers/screen.c is to show, from the text that has been
    printed down to the pixels:

      - the paper, an endless sheet on which the text is laid out in lines;
      - the grid, the window of the paper that the screen shows.

    Module Raster continues with the dots and pixels of the grid. */
module Text {

  const NEWLINE: nat := '\n' as nat

  type Char7 = c: nat | c < 128

  /** A character that has been printed, and the colour it was printed in. */
  datatype Ink = Ink(ch: Char7, color: nat)

  /** A string in one colour. */
  function Inked(str: seq<Char7>, color: nat): (text: seq<Ink>)
    ensures |text| == |str| && forall i :: 0 <= i < |str| ==> text[i] == Ink(str[i], color)
  {
    seq(|str|, i requires 0 <= i < |str| => Ink(str[i], color))
  }

  lemma InkedStep(before: seq<Ink>, str: seq<Char7>, color: nat, i: nat)
    requires i < |str|
    ensures before + Inked(str[..i + 1], color) == (before + Inked(str[..i], color)) + [Ink(str[i], color)]
  {
  }

  datatype Cell = Blank | Glyph(ink: Ink)

  // ----- paper and window

  /** Lines of at most `cols` characters, the last one with room for another. */
  ghost predicate IsPaper(p: seq<seq<Ink>>, cols: nat) {
    |p| >= 1 && |p[|p| - 1]| < cols && forall i :: 0 <= i < |p| ==> |p[i]| <= cols
  }

  /** One more character on the paper: a line ends at a newline, or when it is full. */
  function PaperStep(p: seq<seq<Ink>>, cols: nat, c: Ink): (q: seq<seq<Ink>>)
    requires cols > 0 && IsPaper(p, cols)
    ensures IsPaper(q, cols)
  {
    var n := |p| - 1;
    if c.ch == NEWLINE then p + [[]]
    else if |p[n]| + 1 == cols then p[..n] + [p[n] + [c], []]
    else p[..n] + [p[n] + [c]]
  }

  /** The lines of a text. */
  function Paper(text: seq<Ink>, cols: nat): (p: seq<seq<Ink>>)
    requires cols > 0
    ensures IsPaper(p, cols)
    decreases |text|
  {
    if text == [] then [[]]
    else PaperStep(Paper(text[..|text| - 1], cols), cols, text[|text| - 1])
  }

  // ----- the paper of a string

  /** The text is this string, in whatever colours. */
  ghost predicate Spells(text: seq<Ink>, str: string) {
    |text| == |str| && forall i :: 0 <= i < |str| ==> text[i].ch == str[i] as nat
  }

  /** A line that is too long goes on in the next one. */
  function Cut(line: seq<Ink>, cols: nat): (p: seq<seq<Ink>>)
    requires cols > 0
    ensures IsPaper(p, cols)
  {
    if |line| < cols then [line] else [line[..cols]] + Cut(line[cols..], cols)
  }

  /** Where the first newline is; at the end if there is none. */
  function LineEnd(str: string): (i: nat)
    ensures i <= |str| && (i < |str| ==> str[i] == '\n')
    ensures forall j :: 0 <= j < i ==> str[j] != '\n'
  {
    if str == "" || str[0] == '\n' then 0 else 1 + LineEnd(str[1..])
  }

  /** The pieces of a string between its newlines, each cut where it is too long. */
  function Laid(text: seq<Ink>, str: string, cols: nat): seq<seq<Ink>>
    requires cols > 0 && |text| == |str|
    decreases |str|
  {
    var i := LineEnd(str);
    if i == |str| then Cut(text[..i], cols)
    else Cut(text[..i], cols) + Laid(text[i + 1..], str[i + 1..], cols)
  }

  lemma PaperOfStep(text: seq<Ink>, cols: nat, c: Ink)
    requires cols > 0
    ensures Paper(text + [c], cols) == PaperStep(Paper(text, cols), cols, c)
  {
    assert (text + [c])[..|text|] == text;
  }

  lemma {:induction false} CutStep(line: seq<Ink>, cols: nat, c: Ink)
    requires cols > 0 && c.ch != NEWLINE
    ensures Cut(line + [c], cols) == PaperStep(Cut(line, cols), cols, c)
  {
    if |line| < cols {
      if |line| + 1 == cols {
        assert (line + [c])[..cols] == line + [c] && (line + [c])[cols..] == [];
      }
    } else {
      assert (line + [c])[..cols] == line[..cols] && (line + [c])[cols..] == line[cols..] + [c];
      CutStep(line[cols..], cols, c);
      StepBehind([line[..cols]], Cut(line[cols..], cols), cols, c);
    }
  }

  /** Lines that are complete do not matter to what follows. */
  lemma StepBehind(before: seq<seq<Ink>>, p: seq<seq<Ink>>, cols: nat, c: Ink)
    requires cols > 0 && IsPaper(p, cols) && forall i :: 0 <= i < |before| ==> |before[i]| <= cols
    ensures IsPaper(before + p, cols)
    ensures PaperStep(before + p, cols, c) == before + PaperStep(p, cols, c)
  {
    var q, n := before + p, |p| - 1;
    assert q[..|q| - 1] == before + p[..n] && q[|q| - 1] == p[n];
  }

  lemma {:induction false} PaperOfLine(line: seq<Ink>, cols: nat)
    requires cols > 0 && forall i :: 0 <= i < |line| ==> line[i].ch != NEWLINE
    ensures Paper(line, cols) == Cut(line, cols)
    decreases |line|
  {
    if line != [] {
      var n := |line| - 1;
      PaperOfLine(line[..n], cols);
      CutStep(line[..n], cols, line[n]);
      assert line[..n] + [line[n]] == line;
    }
  }

  lemma {:induction false} PaperBehindNewline(a: seq<Ink>, nl: Ink, b: seq<Ink>, cols: nat)
    requires cols > 0 && nl.ch == NEWLINE
    ensures Paper(a + [nl] + b, cols) == Paper(a, cols) + Paper(b, cols)
    decreases |b|
  {
    if b == [] {
      assert a + [nl] + b == a + [nl];
      PaperOfStep(a, cols, nl);
    } else {
      var n := |b| - 1;
      PaperBehindNewline(a, nl, b[..n], cols);
      assert a + [nl] + b == (a + [nl] + b[..n]) + [b[n]];
      PaperOfStep(a + [nl] + b[..n], cols, b[n]);
      StepBehind(Paper(a, cols), Paper(b[..n], cols), cols, b[n]);
    }
  }

  lemma PaperFromLine(text: seq<Ink>, i: nat, cols: nat)
    requires cols > 0 && i <= |text| && forall j :: 0 <= j < i ==> text[j].ch != NEWLINE
    requires i < |text| ==> text[i].ch == NEWLINE
    ensures Paper(text, cols) ==
            if i == |text| then Cut(text[..i], cols) else Cut(text[..i], cols) + Paper(text[i + 1..], cols)
  {
    PaperOfLine(text[..i], cols);
    if i == |text| {
      assert text[..i] == text;
    } else {
      PaperBehindNewline(text[..i], text[i], text[i + 1..], cols);
      assert text[..i] + [text[i]] + text[i + 1..] == text;
    }
  }

  lemma LineOfString(text: seq<Ink>, str: string, i: nat)
    requires Spells(text, str) && i == LineEnd(str)
    ensures i <= |text| && (forall j :: 0 <= j < i ==> text[j].ch != NEWLINE)
    ensures i < |text| ==> text[i].ch == NEWLINE && Spells(text[i + 1..], str[i + 1..])
  {
    forall j | 0 <= j < i
      ensures text[j].ch != NEWLINE
    {
      assert str[j] != '\n';
    }
  }

  lemma LaidStep(text: seq<Ink>, str: string, cols: nat, i: nat)
    requires cols > 0 && |text| == |str| && i == LineEnd(str)
    ensures Laid(text, str, cols) ==
            if i == |str| then Cut(text[..i], cols)
            else Cut(text[..i], cols) + Laid(text[i + 1..], str[i + 1..], cols)
  {
  }

  /** The lines of the paper are the pieces of the string between its newlines, cut at `cols`. */
  lemma {:induction false} PaperOfString(text: seq<Ink>, str: string, cols: nat)
    requires cols > 0 && Spells(text, str)
    ensures Paper(text, cols) == Laid(text, str, cols)
    decreases |str|
  {
    var i := LineEnd(str);
    LineOfString(text, str, i);
    LaidStep(text, str, cols, i);
    PaperFromLine(text, i, cols);
    if i < |str| {
      PaperOfString(text[i + 1..], str[i + 1..], cols);
    }
  }

  /** A line of the paper, filled up with blanks. */
  function Padded(line: seq<Ink>, cols: nat): (r: seq<Cell>)
    requires |line| <= cols
    ensures |r| == cols
    ensures forall i :: 0 <= i < cols ==> r[i] == if i < |line| then Glyph(line[i]) else Blank
  {
    seq(cols, i requires 0 <= i < cols => if i < |line| then Glyph(line[i]) else Blank)
  }

  /** The r-th row of the window that shows the last rows of the paper. */
  function WindowRow(paper: seq<seq<Ink>>, rows: nat, cols: nat, r: nat): (row: seq<Cell>)
    requires forall i :: 0 <= i < |paper| ==> |paper[i]| <= cols
    ensures |row| == cols
  {
    var i := r + (if |paper| > rows then |paper| - rows else 0);
    Padded(if i < |paper| then paper[i] else [], cols)
  }

  function Window(paper: seq<seq<Ink>>, rows: nat, cols: nat): (g: seq<seq<Cell>>)
    requires forall i :: 0 <= i < |paper| ==> |paper[i]| <= cols
    ensures |g| == rows
    ensures forall r :: 0 <= r < rows ==> g[r] == WindowRow(paper, rows, cols, r)
  {
    seq(rows, r requires 0 <= r < rows => WindowRow(paper, rows, cols, r))
  }

  // ----- the terminal

  datatype Terminal = Terminal(grid: seq<seq<Cell>>, cx: nat, cy: nat)

  ghost predicate Fits(t: Terminal, rows: nat, cols: nat) {
    && |t.grid| == rows && (forall r :: 0 <= r < rows ==> |t.grid[r]| == cols)
    && t.cx < cols && t.cy < rows
  }

  /** The terminal that shows a paper: the cursor is behind the end of the last line. */
  function ShowingPaper(p: seq<seq<Ink>>, rows: nat, cols: nat): (t: Terminal)
    requires rows > 0 && IsPaper(p, cols)
    ensures Fits(t, rows, cols)
  {
    Terminal(Window(p, rows, cols), |p[|p| - 1]|, LastRow(p, rows))
  }

  function LastRow(p: seq<seq<Ink>>, rows: nat): nat
    requires rows > 0 && |p| > 0
  {
    (if |p| > rows then rows else |p|) - 1
  }

  /** The terminal that shows a text. */
  function Showing(text: seq<Ink>, rows: nat, cols: nat): (t: Terminal)
    requires rows > 0 && cols > 0
    ensures Fits(t, rows, cols)
  {
    ShowingPaper(Paper(text, cols), rows, cols)
  }

  /** The line break of `screen_putch`. */
  function NewLine(t: Terminal, rows: nat, cols: nat): Terminal
    requires Fits(t, rows, cols)
  {
    if t.cy + 1 >= rows then Terminal(t.grid[1..] + [Padded([], cols)], 0, t.cy)
    else Terminal(t.grid, 0, t.cy + 1)
  }

  function PutCell(t: Terminal, rows: nat, cols: nat, c: Ink): Terminal
    requires Fits(t, rows, cols)
  {
    t.(grid := t.grid[t.cy := t.grid[t.cy][t.cx := Glyph(c)]])
  }

  /** `screen_putch` on the grid. */
  function Put(t: Terminal, rows: nat, cols: nat, c: Ink): Terminal
    requires Fits(t, rows, cols)
  {
    if c.ch == NEWLINE then NewLine(t, rows, cols) else
    var u := PutCell(t, rows, cols, c);
    if t.cx + 1 >= cols then NewLine(u, rows, cols) else u.(cx := t.cx + 1)
  }

  /** Breaking the line turns the paper into one with a new empty line. */
  lemma NewLineOnPaper(p: seq<seq<Ink>>, rows: nat, cols: nat, cx: nat)
    requires rows > 0 && 0 < |p| && cx < cols && forall i :: 0 <= i < |p| ==> |p[i]| <= cols
    ensures NewLine(Terminal(Window(p, rows, cols), cx, LastRow(p, rows)), rows, cols)
            == ShowingPaper(p + [[]], rows, cols)
  {
    var q := p + [[]];
    var t := Terminal(Window(p, rows, cols), cx, LastRow(p, rows));
    var g, h := NewLine(t, rows, cols).grid, Window(q, rows, cols);
    forall r | 0 <= r < rows
      ensures g[r] == h[r]
    {
      if |p| >= rows && r < rows - 1 {
        assert g[r] == t.grid[r + 1];
      }
    }
    assert g == h;
  }

  /** Writing a cell adds a character to the last line of the paper. */
  lemma PutCellOnPaper(p: seq<seq<Ink>>, rows: nat, cols: nat, c: Ink)
    requires rows > 0 && IsPaper(p, cols)
    ensures var q := p[..|p| - 1] + [p[|p| - 1] + [c]];
            && (forall i :: 0 <= i < |q| ==> |q[i]| <= cols)
            && PutCell(ShowingPaper(p, rows, cols), rows, cols, c)
               == Terminal(Window(q, rows, cols), |p[|p| - 1]|, LastRow(q, rows))
  {
    var line := p[|p| - 1];
    var q := p[..|p| - 1] + [line + [c]];
    var t := ShowingPaper(p, rows, cols);
    var g, h := PutCell(t, rows, cols, c).grid, Window(q, rows, cols);
    forall r | 0 <= r < rows
      ensures g[r] == h[r]
    {
      if r == t.cy {
        assert g[r] == Padded(line, cols)[|line| := Glyph(c)];
        assert h[r] == Padded(line + [c], cols);
      }
    }
    assert g == h;
  }

  /** `screen_putch` on the grid is one more character on the paper. */
  lemma PutIsPaperStep(p: seq<seq<Ink>>, rows: nat, cols: nat, c: Ink)
    requires rows > 0 && IsPaper(p, cols)
    ensures Put(ShowingPaper(p, rows, cols), rows, cols, c)
            == ShowingPaper(PaperStep(p, cols, c), rows, cols)
  {
    var n := |p| - 1;
    if c.ch == NEWLINE {
      NewLineOnPaper(p, rows, cols, |p[n]|);
    } else {
      PutCellOnPaper(p, rows, cols, c);
      var q := p[..n] + [p[n] + [c]];
      if |p[n]| + 1 >= cols {
        NewLineOnPaper(q, rows, cols, |p[n]|);
        assert q + [[]] == p[..n] + [p[n] + [c], []];
      }
    }
  }

  /** Printing one more character shows the longer text. */
  lemma PutShowsLongerText(text: seq<Ink>, rows: nat, cols: nat, c: Ink)
    requires rows > 0 && cols > 0
    ensures Put(Showing(text, rows, cols), rows, cols, c) == Showing(text + [c], rows, cols)
  {
    assert (text + [c])[..|text|] == text;
    PutIsPaperStep(Paper(text, cols), rows, cols, c);
  }

  /** The cell at the cursor is blank, so nothing is ever drawn over something else. */
  lemma CursorCellIsBlank(text: seq<Ink>, rows: nat, cols: nat)
    requires rows > 0 && cols > 0
    ensures var t := Showing(text, rows, cols); t.grid[t.cy][t.cx] == Blank
  {
    var p := Paper(text, cols);
    assert Window(p, rows, cols)[LastRow(p, rows)] == Padded(p[|p| - 1], cols);
  }
}
