/** Drawing a character cell into a linear frame buffer with a moving pointer. */
module Glyph {
  import opened Bits
  import opened Bytes

  const FONT_WIDTH: nat := 5
  const FONT_HEIGHT: nat := 12

  /** The pixel at a row and a column. */
  function At(width: nat, row: nat, column: nat): nat {
    row * width + column
  }

  lemma AtInside(width: nat, height: nat, row: nat, column: nat)
    requires row < height && column < width
    ensures At(width, row, column) < width * height
  {
    AtLeastOnce(height - row, width);
    assert (height - row) * width == width * height - row * width;
  }

  /** Bit n of a number, counted from the lowest. */
  predicate Bit(g: nat, n: nat) {
    g / Pow2(n) % 2 == 1
  }

  /** Pixel q lies in the cell at p, among the whole rows before row y or the first x pixels of row y. */
  predicate Passed(q: nat, p: nat, width: nat, y: nat, x: nat)
    requires width > 0
  {
    q >= p && (((q - p) / width < y && (q - p) % width < FONT_WIDTH) || ((q - p) / width == y && (q - p) % width < x))
  }

  lemma OnePixelMore(q: nat, p: nat, width: nat, y: nat, x: nat)
    requires x < FONT_WIDTH <= width
    ensures Passed(q, p, width, y, x + 1) <==> Passed(q, p, width, y, x) || q == p + At(width, y, x)
    ensures q == p + At(width, y, x) ==> (q - p) / width == y && (q - p) % width == x && !Passed(q, p, width, y, x)
  {
    if q >= p {
      DivMod(q - p, width);
      if q == p + At(width, y, x) {
        ModIs(q - p, width, y, x);
      }
    }
  }

  lemma RowDone(q: nat, p: nat, width: nat, y: nat)
    requires FONT_WIDTH <= width
    ensures Passed(q, p, width, y + 1, 0) <==> Passed(q, p, width, y, FONT_WIDTH)
    ensures !Passed(q, p, width, 0, 0)
  {
    if q >= p {
      NotNegative(q - p, width);
    }
  }

  lemma NotNegative(a: nat, p: nat)
    requires p > 0
    ensures a / p >= 0 && a % p >= 0
  {
  }

  /** Six rows, and six rows behind them. */
  lemma TwoHalves(q: nat, p: nat, width: nat)
    requires FONT_WIDTH <= width
    ensures Passed(q, p, width, 12, 0) <==> Passed(q, p, width, 6, 0) || Passed(q, p + 6 * width, width, 6, 0)
    ensures Passed(q, p + 6 * width, width, 6, 0) ==>
              !Passed(q, p, width, 6, 0)
              && (q - p) / width == 6 + (q - (p + 6 * width)) / width && (q - p) % width == (q - (p + 6 * width)) % width
  {
    if q >= p + 6 * width {
      var d := q - (p + 6 * width);
      DivMod(d, width);
      ModIs(d + 6 * width, width, d / width + 6, d % width);
      NotNegative(d, width);
    } else if q >= p {
      DivMod(q - p, width);
      NotNegative(q - p, width);
      if (q - p) / width >= 6 {
        AtLeastSix((q - p) / width, width);
      }
    }
  }

  lemma AtLeastSix(n: nat, p: nat)
    requires n >= 6
    ensures n * p >= 6 * p
  {
    assert n * p - 6 * p == (n - 6) * p;
    if n > 6 {
      AtLeastOnce(n - 6, p);
    }
  }

  // ----- painting

  /** The bit of the glyph for a pixel of its cell: six rows a word, five bits a row. */
  predicate GlyphBit(glyph: (nat, nat), row: nat, column: nat) {
    if row < 6 then Bit(glyph.0, row * FONT_WIDTH + column) else Bit(glyph.1, (row - 6) * FONT_WIDTH + column)
  }

  lemma Expand(a: nat, b: nat, p: nat)
    ensures (2 * a + b) * p == a * (2 * p) + b * p
  {
  }

  lemma HalfOfQuotient(g: nat, p: nat)
    requires p > 0
    ensures g / p / 2 == g / (2 * p)
  {
    var a, b := g / p / 2, g / p % 2;
    DivMod(g, p);
    Expand(a, b, p);
    assert b * p <= p by {
      if b == 0 {
      } else {
        assert b == 1;
      }
    }
    ModIs(g, 2 * p, a, b * p + g % p);
  }

  /** Shifting right by one moves on to the next bit. */
  lemma NextBit(g: nat, n: nat)
    ensures g / Pow2(n) / 2 == g / Pow2(n + 1)
  {
    HalfOfQuotient(g, Pow2(n));
  }

  lemma FirstBit(g: nat)
    ensures g / Pow2(0) == g
  {
  }

  /** Paints six rows of the cell in one colour. */
  method FillRows(fb: array<uint32>, p: nat, width: nat, color: uint32) returns (next: nat)
    requires FONT_WIDTH <= width && p + 5 * width + FONT_WIDTH <= fb.Length
    modifies fb
    ensures next == p + 6 * width
    ensures forall q :: 0 <= q < fb.Length ==> fb[q] == if Passed(q, p, width, 6, 0) then color else old(fb[q])
  {
    hide Passed, At;
    next := p;
    forall q: nat
      ensures !Passed(q, p, width, 0, 0)
    {
      RowDone(q, p, width, 0);
    }
    RowStart(width, 0);
    for y := 0 to 6
      invariant next == p + At(width, y, 0)
      invariant forall q :: 0 <= q < fb.Length ==> fb[q] == if Passed(q, p, width, y, 0) then color else old(fb[q])
    {
      RowStart(width, y);
      for x := 0 to FONT_WIDTH
        invariant next == p + At(width, y, x)
        invariant forall q :: 0 <= q < fb.Length ==> fb[q] == if Passed(q, p, width, y, x) then color else old(fb[q])
      {
        PixelBounds(width, y, x);
        forall q: nat
          ensures Passed(q, p, width, y, x + 1) <==> Passed(q, p, width, y, x) || q == next
        {
          OnePixelMore(q, p, width, y, x);
        }
        fb[next] := color;
        next := next + 1;
      }
      next := next + (width - FONT_WIDTH);
      PixelBounds(width, y, 0);
      forall q: nat
        ensures Passed(q, p, width, y + 1, 0) <==> Passed(q, p, width, y, FONT_WIDTH)
      {
        RowDone(q, p, width, y);
      }
    }
    RowStart(width, 6);
  }

  lemma RowStart(width: nat, y: nat)
    ensures At(width, 0, 0) == 0 && At(width, 6, 0) == 6 * width
  {
  }

  lemma PixelBounds(width: nat, y: nat, x: nat)
    requires y < 6
    ensures At(width, y, x + 1) == At(width, y, x) + 1 && At(width, y, x) == At(width, y, 0) + x
    ensures At(width, y + 1, 0) == At(width, y, FONT_WIDTH) - FONT_WIDTH + width
    ensures At(width, y, x) <= 5 * width + x
  {
    if y < 5 {
      AtLeastOnce(5 - y, width);
      assert (5 - y) * width == 5 * width - y * width;
    }
  }

  /** The bit for pixel q of a half cell at p. */
  predicate BitAt(glyph: nat, q: nat, p: nat, width: nat)
    requires width > 0 && q >= p
  {
    Bit(glyph, (q - p) / width * FONT_WIDTH + (q - p) % width)
  }

  /** Draws six rows of a glyph: sets the pixels of its bits, lowest bit first, and leaves the others. */
  method DrawRows(fb: array<uint32>, p: nat, width: nat, glyph: uint32, color: uint32) returns (next: nat)
    requires FONT_WIDTH <= width && p + 5 * width + FONT_WIDTH <= fb.Length
    modifies fb
    ensures next == p + 6 * width
    ensures forall q :: 0 <= q < fb.Length ==>
              fb[q] == if AfterStart(q, p) && Passed(q, p, width, 6, 0) && BitAt(glyph, q, p, width) then color else old(fb[q])
  {
    hide Passed, At, Pow2, BitAt;
    next := p;
    var data: nat := glyph;
    FirstBit(glyph);
    forall q: nat
      ensures !Passed(q, p, width, 0, 0)
    {
      RowDone(q, p, width, 0);
    }
    RowStart(width, 0);
    for y := 0 to 6
      invariant next == p + At(width, y, 0) && data == glyph / Pow2(y * FONT_WIDTH)
      invariant forall q :: 0 <= q < fb.Length ==>
                  fb[q] == if AfterStart(q, p) && Passed(q, p, width, y, 0) && BitAt(glyph, q, p, width) then color else old(fb[q])
    {
      for x := 0 to FONT_WIDTH
        invariant next == p + At(width, y, x) && data == glyph / Pow2(y * FONT_WIDTH + x)
        invariant forall q :: 0 <= q < fb.Length ==>
                    fb[q] == if AfterStart(q, p) && Passed(q, p, width, y, x) && BitAt(glyph, q, p, width) then color else old(fb[q])
      {
        PixelBounds(width, y, x);
        forall q: nat
          ensures Passed(q, p, width, y, x + 1) <==> Passed(q, p, width, y, x) || q == next
          ensures q == next ==> !Passed(q, p, width, y, x)
        {
          OnePixelMore(q, p, width, y, x);
        }
        BitHere(glyph, p, width, y, x);
        if data % 2 == 1 {
          fb[next] := color;
        }
        next := next + 1;
        data := data / 2;
        NextBit(glyph, y * FONT_WIDTH + x);
      }
      next := next + (width - FONT_WIDTH);
      PixelBounds(width, y, 0);
      forall q: nat
        ensures Passed(q, p, width, y + 1, 0) <==> Passed(q, p, width, y, FONT_WIDTH)
      {
        RowDone(q, p, width, y);
      }
    }
    RowStart(width, 6);
  }

  predicate AfterStart(q: nat, p: nat) {
    q >= p
  }

  lemma BitHere(glyph: nat, p: nat, width: nat, y: nat, x: nat)
    requires x < FONT_WIDTH <= width
    ensures BitAt(glyph, p + At(width, y, x), p, width) <==> glyph / Pow2(y * FONT_WIDTH + x) % 2 == 1
  {
    hide Pow2;
    OnePixelMore(p + At(width, y, x), p, width, y, x);
  }

  /** The whole cell: background, then the glyph on it. Every pixel outside the cell stays. */
  method DrawGlyph(fb: array<uint32>, p: nat, width: nat, glyph: (uint32, uint32), foreground: uint32, background: uint32)
    requires FONT_WIDTH <= width && p + 11 * width + FONT_WIDTH <= fb.Length
    modifies fb
    ensures forall q :: 0 <= q < fb.Length ==>
              fb[q] == if !(AfterStart(q, p) && Passed(q, p, width, 12, 0)) then old(fb[q])
                       else if GlyphBit(glyph, (q - p) / width, (q - p) % width) then foreground else background
  {
    hide Passed, Bit;
    var middle := FillRows(fb, p, width, background);
    var end := FillRows(fb, middle, width, background);
    middle := DrawRows(fb, p, width, glyph.0, foreground);
    end := DrawRows(fb, middle, width, glyph.1, foreground);
    forall q | 0 <= q < fb.Length
      ensures fb[q] == if !(AfterStart(q, p) && Passed(q, p, width, 12, 0)) then old(fb[q])
                       else if GlyphBit(glyph, (q - p) / width, (q - p) % width) then foreground else background
    {
      PassedStarts(q, p, width, 6);
      PassedStarts(q, p + 6 * width, width, 6);
      TwoHalves(q, p, width);
    }
  }

  lemma PassedStarts(q: nat, p: nat, width: nat, y: nat)
    requires width > 0
    ensures Passed(q, p, width, y, 0) ==> AfterStart(q, p) && 0 <= (q - p) / width < y && 0 <= (q - p) % width < FONT_WIDTH
  {
    if q >= p {
      NotNegative(q - p, width);
    }
  }
}
