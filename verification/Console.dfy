/** The frame buffer console: cursor, line breaks, the clearing of a full screen, and serial output. */
module Console {
  import opened Bits
  import opened Bytes
  import opened Glyph
  import opened RingLog

  const BLACK: uint32 := 0xFF000000
  const WHITE: uint32 := 0xFFFFFFFF
  const YELLOW: uint32 := 0xFFFFFF00
  const LF: byte := 10
  const CR: byte := 13
  const SPACE: byte := 32
  /** Two words a character, from the space on. */
  const FONT_SIZE: nat := 192

  /** The screen in pixels. */
  datatype Screen = Screen(width: nat, height: nat) {
    function MaxX(): int {
      width / (FONT_WIDTH + 1)
    }

    function MaxY(): int {
      (height - 1) / FONT_HEIGHT
    }

    /** Room for one character. */
    predicate Ok() {
      MaxX() >= 1 && MaxY() >= 1
    }

    /** How many rows the cursor gets to. */
    function Rows(): int {
      if MaxY() >= 2 then MaxY() - 1 else 1
    }
  }

  /** The grid is as wide and as high as the screen has room for cells of 6 by 12, less one row of pixels. */
  lemma GridIs(s: Screen)
    requires s.height > 0
    ensures 6 * s.MaxX() <= s.width < 6 * (s.MaxX() + 1)
    ensures 12 * s.MaxY() <= s.height - 1 < 12 * (s.MaxY() + 1)
  {
  }

  function CellAt(s: Screen, x: nat, y: nat): nat {
    y * (FONT_HEIGHT * s.width) + x * (FONT_WIDTH + 1)
  }

  /** Every pixel of the screen after a glyph was drawn at a cursor position. */
  ghost predicate ShowsGlyph(before: seq<uint32>, after: seq<uint32>, s: Screen, x: nat, y: nat, glyph: (nat, nat),
                             foreground: uint32, background: uint32)
    requires |before| == s.width * s.height
  {
    && |after| == |before|
    && forall row: nat, column: nat :: row < s.height && column < s.width ==>
         PixelShows(before, after, s, x, y, glyph, foreground, background, row, column)
  }

  /** A pixel of the 5 by 12 cell shows its bit, any other one what it showed before. */
  predicate PixelShows(before: seq<uint32>, after: seq<uint32>, s: Screen, x: nat, y: nat, glyph: (nat, nat),
                       foreground: uint32, background: uint32, row: nat, column: nat)
    requires |before| == |after| == s.width * s.height && row < s.height && column < s.width
  {
    AtInside(s.width, s.height, row, column);
    var q := At(s.width, row, column);
    after[q] ==
      if 12 * y <= row < 12 * y + 12 && 6 * x <= column < 6 * x + 5 then
        if GlyphBit(glyph, row - 12 * y, column - 6 * x) then foreground else background
      else before[q]
  }

  /** What the font has for row r and column k of a character: two words a character, six rows a word,
      five bits a row. */
  predicate FontBit(font: seq<uint32>, c: byte, r: nat, k: nat)
    requires |font| == FONT_SIZE && 32 <= c <= 127 && r < 12
  {
    font[2 * (c - 32) + r / 6] / Pow2(r % 6 * 5 + k) % 2 == 1
  }

  // ----- printed text

  /** Characters that take a cell each, written from the top left on a grid of so many columns. */
  predicate Printable(text: seq<byte>, columns: nat)
    requires columns > 0
  {
    forall i :: 0 <= i < |text| ==> 32 <= text[i] <= 127 && (text[i] == SPACE ==> i % columns != 0)
  }

  /** A pixel of the screen shows its bit of the character in its cell, or what it showed before. */
  predicate TextPixel(before: seq<uint32>, after: seq<uint32>, s: Screen, font: seq<uint32>, text: seq<byte>,
                      foreground: uint32, background: uint32, row: nat, column: nat)
    requires |before| == |after| == s.width * s.height && row < s.height && column < s.width
    requires |font| == FONT_SIZE && s.MaxX() >= 1 && Printable(text, s.MaxX())
  {
    AtInside(s.width, s.height, row, column);
    var q, x, y := At(s.width, row, column), column / 6, row / 12;
    var i := y * s.MaxX() + x;
    after[q] ==
      if x < s.MaxX() && column % 6 < 5 && 0 <= i < |text| then
        if FontBit(font, text[i], row % 12, column % 6) then foreground else background
      else before[q]
  }

  /** The whole screen with a text on it: character i in column i % MaxX of line i / MaxX. */
  ghost predicate ShowsText(before: seq<uint32>, after: seq<uint32>, s: Screen, font: seq<uint32>, text: seq<byte>,
                            foreground: uint32, background: uint32)
    requires |before| == s.width * s.height && |font| == FONT_SIZE && s.MaxX() >= 1 && Printable(text, s.MaxX())
  {
    && |after| == |before|
    && forall row: nat, column: nat | row < s.height && column < s.width ::
         TextPixel(before, after, s, font, text, foreground, background, row, column)
  }

  lemma NothingShown(screen: seq<uint32>, s: Screen, font: seq<uint32>, foreground: uint32, background: uint32)
    requires |screen| == s.width * s.height && |font| == FONT_SIZE && s.MaxX() >= 1
    ensures ShowsText(screen, screen, s, font, [], foreground, background)
  {
    hide At;
  }

  /** A cell number is its line and its column. */
  lemma CellNumber(columns: nat, i: nat, x: nat, y: nat)
    requires x < columns
    ensures y * columns + x == i <==> x == i % columns && y == i / columns
  {
    DivMod(i, columns);
    if y * columns + x == i {
      ModIs(i, columns, y, x);
    }
  }

  lemma NextCell(columns: nat, i: nat)
    requires columns > 0
    ensures i % columns + 1 < columns ==> (i + 1) % columns == i % columns + 1 && (i + 1) / columns == i / columns
    ensures i % columns + 1 == columns ==> (i + 1) % columns == 0 && (i + 1) / columns == i / columns + 1
    ensures 0 <= i % columns < columns && i / columns >= 0
  {
    DivMod(i, columns);
    NextOf(columns, i, i / columns, i % columns);
  }

  lemma NextOf(columns: nat, i: nat, y: nat, x: nat)
    requires x < columns && i == y * columns + x
    ensures x + 1 < columns ==> (i + 1) % columns == x + 1 && (i + 1) / columns == y
    ensures x + 1 == columns ==> (i + 1) % columns == 0 && (i + 1) / columns == y + 1
  {
    if x + 1 < columns {
      ModIs(i + 1, columns, y, x + 1);
    } else {
      Rows(y + 1, y, columns);
      ModIs(i + 1, columns, y + 1, 0);
    }
  }

  /** Before the last cell of the grid, a line that is full is not the last one. */
  lemma NotTheLast(columns: nat, lines: nat, x: nat, y: nat)
    requires x < columns && y * columns + x + 1 < columns * lines
    ensures y < lines && (x + 1 == columns ==> y + 1 < lines)
  {
    if y >= lines {
      Rows(y, lines, columns);
      Times(y - lines, columns);
    } else if y + 1 == lines {
      Rows(lines, y, columns);
    }
  }

  /** Where character i of a text goes, that it is drawn there, and where the next one goes. */
  lemma CellOf(s: Screen, text: seq<byte>, i: nat)
    requires s.Ok() && i < |text| < s.MaxX() * (s.MaxY() - 1) && Printable(text, s.MaxX())
    ensures var columns := s.MaxX();
      var x, y := i % columns, i / columns;
      && x >= 0 && y >= 0 && y * columns + x == i && Visible(text[i], x, false) && text[i] != LF
      && (x + 1 == columns ==> y != s.MaxY() - 2)
      && (i + 1) % columns == (if x + 1 == columns then 0 else x + 1)
      && (i + 1) / columns == (if x + 1 == columns then y + 1 else y)
    ensures text[..i + 1] == text[..i] + [text[i]] && Printable(text[..i], s.MaxX()) && Printable(text[..i + 1], s.MaxX())
  {
    hide Screen.MaxX, Screen.MaxY;
    NextCell(s.MaxX(), i);
    DivMod(i, s.MaxX());
    NotTheLast(s.MaxX(), s.MaxY() - 1, i % s.MaxX(), i / s.MaxX());
  }

  /** A pixel lies in the cell at the cursor exactly if its line and column say so. */
  lemma CellOfPixel(x: nat, y: nat, row: nat, column: nat)
    ensures 12 * y <= row < 12 * y + 12 <==> row / 12 == y
    ensures 6 * x <= column < 6 * x + 5 <==> column / 6 == x && column % 6 < 5
    ensures row / 12 == y ==> row - 12 * y == row % 12
    ensures column / 6 == x ==> column - 6 * x == column % 6
  {
  }

  predicate InGrid(s: Screen, x: nat, y: nat) {
    x < s.MaxX() && y < s.Rows()
  }

  /** The cell of a cursor position lies inside the frame buffer. */
  lemma CellInside(s: Screen, x: nat, y: nat)
    requires s.Ok() && InGrid(s, x, y)
    ensures 6 * x + 6 <= s.width && 12 * y + 12 <= s.height
    ensures CellAt(s, x, y) == At(s.width, 12 * y, 6 * x)
    ensures CellAt(s, x, y) + 11 * s.width + FONT_WIDTH <= s.width * s.height
  {
    AtInside(s.width, s.height, 12 * y + 11, 6 * x + 4);
    CellRows(s.width, y);
  }

  lemma CellRows(w: nat, y: nat)
    ensures y * (12 * w) == 12 * y * w && (12 * y + 11) * w == 12 * y * w + 11 * w
  {
  }

  /** Which pixels of the screen the pointer passes while drawing. */
  lemma PixelOfCell(s: Screen, x: nat, y: nat, row: nat, column: nat)
    requires s.Ok() && InGrid(s, x, y) && row < s.height && column < s.width
    ensures var q, p, w := At(s.width, row, column), CellAt(s, x, y), s.width;
      && (AfterStart(q, p) && Passed(q, p, w, 12, 0) <==> 12 * y <= row < 12 * y + 12 && 6 * x <= column < 6 * x + 5)
      && (AfterStart(q, p) && Passed(q, p, w, 12, 0) ==> (q - p) / w == row - 12 * y && (q - p) % w == column - 6 * x)
  {
    hide At, Screen.Ok;
    CellInside(s, x, y);
    if row < 12 * y {
      AboveCell(s.width, 12 * y, 6 * x, row, column);
    } else if column >= 6 * x {
      RightOfEdge(s.width, 12 * y, 6 * x, row, column);
    } else {
      LeftOfEdge(s.width, 12 * y, 6 * x, row, column);
    }
  }

  lemma AboveCell(w: nat, row0: nat, column0: nat, row: nat, column: nat)
    requires row < row0 && column < w
    ensures At(w, row, column) < At(w, row0, column0)
  {
    Rows(row0, row, w);
    AtLeastOnce(row0 - row, w);
  }

  lemma RightOfEdge(w: nat, row0: nat, column0: nat, row: nat, column: nat)
    requires row0 <= row && column0 <= column < w
    ensures var q, p := At(w, row, column), At(w, row0, column0);
      q >= p && (q - p) / w == row - row0 && (q - p) % w == column - column0
  {
    Rows(row, row0, w);
    ModIs(At(w, row, column) - At(w, row0, column0), w, row - row0, column - column0);
  }

  /** Left of the cell, a pixel counts as one to the far right in the row before. */
  lemma LeftOfEdge(w: nat, row0: nat, column0: nat, row: nat, column: nat)
    requires row0 <= row && column < column0 && column0 + 6 <= w
    ensures var q, p := At(w, row, column), At(w, row0, column0);
      q < p || (q - p) % w >= 6
  {
    hide At;
    RowBack(w, row0, column0, row, column);
    if row > row0 {
      ModIs(At(w, row, column) - At(w, row0, column0), w, row - row0 - 1, w + column - column0);
    }
  }

  lemma RowBack(w: nat, row0: nat, column0: nat, row: nat, column: nat)
    requires row0 <= row && column < column0 && column0 + 6 <= w
    ensures row == row0 ==> At(w, row, column) < At(w, row0, column0)
    ensures row > row0 ==> At(w, row, column) - At(w, row0, column0) == (row - row0 - 1) * w + (w + column - column0) >= 0
  {
    Rows(row, row0, w);
    if row > row0 {
      Rows(row - row0, 1, w);
      Times(row - row0 - 1, w);
    }
  }

  lemma Times(a: nat, b: nat)
    ensures a * b >= 0
  {
  }

  lemma Rows(a: nat, b: nat, w: nat)
    requires a >= b
    ensures a * w - b * w == (a - b) * w
  {
  }

  /** Characters that are drawn; a space at the start of a line saves its place, except in titles. */
  predicate Visible(c: byte, x: nat, title: bool) {
    32 <= c <= 127 && !(c == SPACE && x == 0 && !title)
  }

  function BlackScreen(s: Screen): (b: seq<uint32>)
    ensures |b| == s.width * s.height
  {
    seq(s.width * s.height, _ => BLACK)
  }

  class FrameBufferConsole {
    const screen: Screen
    const fb: array<uint32>
    const font: seq<uint32>
    var x: nat
    var y: nat
    var foreground: uint32
    var background: uint32

    ghost predicate Valid()
      reads this
    {
      screen.Ok() && fb.Length == screen.width * screen.height && |font| == FONT_SIZE && InGrid(screen, x, y)
    }

    /** Reset leaves the cursor alone; here it starts at the top left. */
    constructor (screen: Screen, fb: array<uint32>, font: seq<uint32>)
      requires screen.Ok() && fb.Length == screen.width * screen.height && |font| == FONT_SIZE
      ensures Valid() && this.screen == screen && this.fb == fb && this.font == font && x == 0 && y == 0
      ensures foreground == WHITE && background == BLACK
    {
      this.screen, this.fb, this.font := screen, fb, font;
      x, y, foreground, background := 0, 0, WHITE, BLACK;
    }

    function GlyphOf(c: byte): (uint32, uint32)
      requires 32 <= c <= 127 && |font| == FONT_SIZE
    {
      (font[(c - 32) * 2], font[(c - 32) * 2 + 1])
    }

    /** The glyph of a character is the one the font has for it. */
    lemma GlyphIsInFont(c: byte, r: nat, k: nat)
      requires 32 <= c <= 127 && |font| == FONT_SIZE && r < 12 && k < 5
      ensures GlyphBit(GlyphOf(c), r, k) <==> FontBit(font, c, r, k)
    {
      hide Pow2;
    }

    /** One character more in its cell. */
    lemma OneMoreCharacter(b: seq<uint32>, b1: seq<uint32>, b2: seq<uint32>, head: seq<byte>, c: byte, x0: nat, y0: nat)
      requires |b| == screen.width * screen.height && |font| == FONT_SIZE && screen.Ok()
      requires Printable(head, screen.MaxX()) && Printable(head + [c], screen.MaxX()) && 32 <= c <= 127
      requires ShowsText(b, b1, screen, font, head, foreground, background)
      requires x0 < screen.MaxX() && y0 * screen.MaxX() + x0 == |head|
      requires ShowsGlyph(b1, b2, screen, x0, y0, GlyphOf(c), foreground, background)
      ensures ShowsText(b, b2, screen, font, head + [c], foreground, background)
    {
      hide At, GlyphBit, FontBit, TextPixel, PixelShows;
      var s, text := screen, head + [c];
      forall row: nat, column: nat | row < s.height && column < s.width
        ensures TextPixel(b, b2, s, font, text, foreground, background, row, column)
      {
        assert TextPixel(b, b1, s, font, head, foreground, background, row, column);
        assert PixelShows(b1, b2, s, x0, y0, GlyphOf(c), foreground, background, row, column);
        PixelOfOneMore(b, b1, b2, head, c, x0, y0, row, column);
      }
    }

    lemma PixelOfOneMore(b: seq<uint32>, b1: seq<uint32>, b2: seq<uint32>, head: seq<byte>, c: byte, x0: nat, y0: nat,
                         row: nat, column: nat)
      requires |b| == |b1| == |b2| == screen.width * screen.height && |font| == FONT_SIZE && screen.Ok()
      requires Printable(head, screen.MaxX()) && Printable(head + [c], screen.MaxX()) && 32 <= c <= 127
      requires row < screen.height && column < screen.width
      requires TextPixel(b, b1, screen, font, head, foreground, background, row, column)
      requires x0 < screen.MaxX() && y0 * screen.MaxX() + x0 == |head|
      requires PixelShows(b1, b2, screen, x0, y0, GlyphOf(c), foreground, background, row, column)
      ensures TextPixel(b, b2, screen, font, head + [c], foreground, background, row, column)
    {
      hide At, GlyphBit, FontBit, Printable, Screen.MaxX, GlyphOf;
      var s, columns, i := screen, screen.MaxX(), |head|;
      AtInside(s.width, s.height, row, column);
      var x, y := column / 6, row / 12;
      CellOfPixel(x0, y0, row, column);
      if x < columns && column % 6 < 5 {
        CellNumber(columns, i, x, y);
        CellNumber(columns, i, x0, y0);
        GlyphIsInFont(c, row % 12, column % 6);
      }
    }

    /** Paints every pixel black. */
    method ResetFb()
      requires fb.Length == screen.width * screen.height
      modifies fb
      ensures fb[..] == BlackScreen(screen)
    {
      var pixels: nat := 0;
      for i := 0 to screen.width
        invariant pixels == i * screen.height
        invariant forall q :: 0 <= q < pixels && q < fb.Length ==> fb[q] == BLACK
      {
        Rows(screen.width, i, screen.height);
        AtLeastOnce(screen.width - i, screen.height);
        for j := 0 to screen.height
          invariant pixels == i * screen.height + j
          invariant forall q :: 0 <= q < pixels && q < fb.Length ==> fb[q] == BLACK
        {
          fb[pixels] := BLACK;
          pixels := pixels + 1;
        }
        Rows(i + 1, i, screen.height);
      }
    }

    /** Draws a character at the cursor. */
    method DrawAtCursor(c: byte)
      requires Valid() && 32 <= c <= 127
      modifies fb
      ensures ShowsGlyph(old(fb[..]), fb[..], screen, x, y, GlyphOf(c), foreground, background)
      // row r, column k of the cell shows its bit of the font
      ensures forall r: nat, k: nat | r < 12 && k < 5 ::
                InCell(r, k) && fb[At(screen.width, 12 * y + r, 6 * x + k)] == if FontBit(font, c, r, k) then foreground else background
    {
      hide Passed, CellAt, At, GlyphBit;
      var pixels := CellAt(screen, x, y);
      CellInside(screen, x, y);
      ghost var before := fb[..];
      DrawGlyph(fb, pixels, screen.width, GlyphOf(c), foreground, background);
      forall row: nat, column: nat | row < screen.height && column < screen.width
        ensures PixelShows(before, fb[..], screen, x, y, GlyphOf(c), foreground, background, row, column)
      {
        PixelOfCell(screen, x, y, row, column);
        AtInside(screen.width, screen.height, row, column);
      }
      forall r: nat, k: nat | r < 12 && k < 5
        ensures InCell(r, k)
        ensures fb[At(screen.width, 12 * y + r, 6 * x + k)] == if FontBit(font, c, r, k) then foreground else background
      {
        AtInside(screen.width, screen.height, 12 * y + r, 6 * x + k);
        assert PixelShows(before, fb[..], screen, x, y, GlyphOf(c), foreground, background, 12 * y + r, 6 * x + k);
        GlyphIsInFont(c, r, k);
      }
    }

    ghost predicate InCell(r: nat, k: nat)
      reads this
    {
      var q := At(screen.width, 12 * y + r, 6 * x + k);
      12 * y + r < screen.height && 6 * x + k < screen.width && q < fb.Length
    }

    /** Whether a character at the cursor ends the line. */
    predicate EndsLine(c: byte, title: bool)
      reads this
    {
      c == LF || (Visible(c, x, title) && x + 1 == screen.MaxX())
    }

    /** One pass through the painting code: true where the source jumps back to paint again. */
    method Paint(c: byte, title: bool) returns (again: bool)
      requires Valid()
      modifies this`x, this`y, fb
      ensures Valid()
      ensures again <==> old(EndsLine(c, title)) && old(y) >= screen.MaxY() - 2
      ensures again ==> x == 0 && y == 0 && fb[..] == BlackScreen(screen)
      ensures !again ==> Moved(c, title) && Shown(c, title)
    {
      hide ShowsGlyph, BlackScreen;
      if c > 127 {
        return false;
      }
      if c < 32 {
        if c == CR {
          x := 0;
          return false;
        } else if c != LF {
          return false;
        }
      } else {
        if x == 0 && c == SPACE && !title {
          return false;
        }
        DrawAtCursor(c);
        x := x + 1;
        if x < screen.MaxX() {
          return false;
        }
      }
      y := y + 1;
      x := 0;
      if y >= screen.MaxY() - 1 {
        ResetFb();
        y := 0;
        return true;
      }
      again := false;
    }

    /** The jump back to painting, taken a number of times for a line feed. On a screen with two rows of
        text or fewer, and only there, it is taken for ever. */
    method PaintLineFeeds(n: nat) returns (again: bool)
      requires Valid() && n >= 2
      modifies this`x, this`y, fb
      ensures Valid()
      ensures again <==> screen.MaxY() <= 2
      ensures again ==> x == 0 && y == 0 && fb[..] == BlackScreen(screen)
    {
      hide ShowsGlyph, BlackScreen;
      again := Paint(LF, false);
      for i := 1 to n
        invariant Valid()
        invariant screen.MaxY() <= 2 ==> again
        invariant screen.MaxY() > 2 && i >= 2 ==> !again
        invariant again ==> x == 0 && y == 0 && fb[..] == BlackScreen(screen)
      {
        if !again {
          return;
        }
        again := Paint(LF, false);
      }
    }

    /** Where the cursor goes without a full screen. */
    twostate predicate Moved(c: byte, title: bool)
      reads this
    {
      if old(EndsLine(c, title)) then x == 0 && y == old(y) + 1
      else if old(Visible(c, x, title)) then x == old(x) + 1 && y == old(y)
      else if c == CR then x == 0 && y == old(y)
      else x == old(x) && y == old(y)
    }

    /** What is on the screen then: the character at the old cursor, or what there was. */
    twostate predicate Shown(c: byte, title: bool)
      requires |font| == FONT_SIZE && fb.Length == screen.width * screen.height
      reads this, fb
    {
      if old(Visible(c, x, title))
      then ShowsGlyph(old(fb[..]), fb[..], screen, old(x), old(y), GlyphOf(c), foreground, background)
      else fb[..] == old(fb[..])
    }

    /** A character that ends the last line clears the screen once and is painted again at the top. */
    twostate predicate OnFreshScreen(c: byte, title: bool)
      requires |font| == FONT_SIZE && fb.Length == screen.width * screen.height
      reads this, fb
    {
      if c == LF then x == 0 && y == 1 && fb[..] == BlackScreen(screen)
      else if Visible(c, 0, title) then
        && (if screen.MaxX() == 1 then x == 0 && y == 1 else x == 1 && y == 0)
        && ShowsGlyph(BlackScreen(screen), fb[..], screen, 0, 0, GlyphOf(c), foreground, background)
      else x == 0 && y == 0 && fb[..] == BlackScreen(screen)
    }

    /** On a screen with more than two rows of text, a character comes to an end. */
    method PutChar(c: byte, title: bool) returns (clears: nat)
      requires Valid() && screen.MaxY() >= 3
      modifies this`x, this`y, fb
      ensures Valid()
      ensures clears == if old(EndsLine(c, title)) && old(y) == screen.MaxY() - 2 then 1 else 0
      ensures clears == 0 ==> Moved(c, title) && Shown(c, title)
      ensures clears == 1 ==> 32 <= c <= 127 || c == LF
      ensures clears == 1 ==> OnFreshScreen(c, title)
    {
      hide ShowsGlyph, BlackScreen;
      clears := 0;
      var again := Paint(c, title);
      while again
        invariant Valid() && clears <= 1
        invariant clears == 0 && !again ==> Moved(c, title) && Shown(c, title)
        invariant again ==> clears == 0 && x == 0 && y == 0 && fb[..] == BlackScreen(screen)
        invariant again || clears == 1 <==> old(EndsLine(c, title)) && old(y) == screen.MaxY() - 2
        invariant clears == 1 ==> OnFreshScreen(c, title)
        decreases again
      {
        clears := clears + 1;
        again := Paint(c, title);
      }
    }
  }

  /** The serial port: everything goes to the ring log first, then to the screen. */
  class SerialPort {
    const log: Ring
    const console: FrameBufferConsole

    ghost predicate Valid()
      reads this, log, console
    {
      console.Valid() && console.screen.MaxY() >= 3 && 0 < log.data.Length < 0x1_0000_0000_0000_0000
    }

    /** A text that fills no more than the grid above its last line, written from the top left. */
    predicate FitsFromTop(text: seq<byte>)
      reads this, console
    {
      && console.screen.Ok() && console.x == 0 && console.y == 0
      && Printable(text, console.screen.MaxX()) && |text| < console.screen.MaxX() * (console.screen.MaxY() - 1)
    }

    /** The first n characters of a text are on the screen, and the cursor stands behind them. */
    ghost predicate Printed(before: seq<uint32>, text: seq<byte>, n: nat)
      requires Valid() && n <= |text|
      reads this, log, console, console.fb
    {
      var s := console.screen;
      && Printable(text[..n], s.MaxX()) && |before| == s.width * s.height
      && console.x == n % s.MaxX() && console.y == n / s.MaxX()
      && ShowsText(before, console.fb[..], s, console.font, text[..n], console.foreground, console.background)
    }

    constructor (log: Ring, console: FrameBufferConsole)
      requires console.Valid() && console.screen.MaxY() >= 3 && 0 < log.data.Length < 0x1_0000_0000_0000_0000
      ensures Valid() && this.log == log && this.console == console
    {
      this.log, this.console := log, console;
    }

    /** Whatever is written, the cursor stays in the grid, the screen is cleared at most once a byte,
        and the log holds all of it. */
    method Write(buffer: seq<byte>) returns (written: nat, ghost clears: nat)
      requires Valid()
      modifies log, log.data, console`x, console`y, console.fb
      ensures Valid() && written == |buffer| && clears <= |buffer|
      ensures log.data[..] == After(old(log.data[..]), old(log.offset), buffer)
      ensures buffer != [] ==> log.offset == Place(old(log.offset), |buffer|, log.data.Length)
      // a text that fits is on the screen, character i in column i % MaxX of line i / MaxX, and nothing else changes
      ensures old(FitsFromTop(buffer)) ==> clears == 0 && Printed(old(console.fb[..]), buffer, |buffer|)
    {
      hide After, Place, BlackScreen, ShowsGlyph, ShowsText;
      log.Write(buffer);
      clears := 0;
      ghost var fits, before := FitsFromTop(buffer), console.fb[..];
      assert buffer[..0] == [];
      NothingShown(before, console.screen, console.font, console.foreground, console.background);
      for i := 0 to |buffer|
        invariant Valid() && clears <= i
        invariant log.data[..] == After(old(log.data[..]), old(log.offset), buffer)
        invariant buffer != [] ==> log.offset == Place(old(log.offset), |buffer|, log.data.Length)
        invariant fits ==> clears == 0 && Printed(before, buffer, i)
      {
        ghost var now, x, y := console.fb[..], console.x, console.y;
        if fits {
          CellOf(console.screen, buffer, i);
        }
        var cleared := console.PutChar(buffer[i], false);
        if fits {
          console.OneMoreCharacter(before, now, console.fb[..], buffer[..i], buffer[i], x, y);
        }
        clears := clears + cleared;
      }
      written := |buffer|;
    }

    /** The same in yellow; afterwards the colour is what it was. */
    method WriteCritical(buffer: seq<byte>) returns (written: nat, ghost clears: nat)
      requires Valid()
      modifies log, log.data, console, console.fb
      ensures Valid() && written == |buffer| && clears <= |buffer|
      ensures log.data[..] == After(old(log.data[..]), old(log.offset), buffer)
      ensures buffer != [] ==> log.offset == Place(old(log.offset), |buffer|, log.data.Length)
      ensures console.foreground == old(console.foreground)
      ensures old(FitsFromTop(buffer)) ==>
        clears == 0
        && ShowsText(old(console.fb[..]), console.fb[..], console.screen, console.font, buffer, YELLOW, console.background)
    {
      hide ShowsText, After, Place;
      assert buffer[..|buffer|] == buffer;
      var current := console.foreground;
      console.foreground := YELLOW;
      written, clears := Write(buffer);
      console.foreground := current;
    }
  }
}
