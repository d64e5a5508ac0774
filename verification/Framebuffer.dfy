/** The framebuffer text renderer: pixels in a byte buffer, scaled glyphs, scrolling by one text row, and
    the byte stream that drives them. */
module Framebuffer {
  import opened Bits
  import opened Options
  import opened Colors
  import T = TextGrid

  const CHAR_WIDTH: nat := 8
  const CHAR_HEIGHT: nat := 16
  const FONT_OFFSET: nat := 32
  const FALLBACK_INDEX: nat := 95
  const FONT_LEN: nat := 1536
  const CURSOR_HEIGHT: nat := 2

  datatype PixelFormat = Rgb | Bgr | OtherFormat

  datatype Info = Info(width: nat, height: nat, stride: nat, bytesPerPixel: nat, format: PixelFormat)

  /** The byte offset of pixel (x, y). */
  function Offset(info: Info, x: nat, y: nat): nat {
    (y * info.stride + x) * info.bytesPerPixel
  }

  /** A screen whose pixels do not overlap and all lie in a buffer of `len` bytes. */
  ghost predicate Covers(info: Info, len: nat) {
    info.width <= info.stride && 3 <= info.bytesPerPixel && info.height * info.stride * info.bytesPerPixel <= len
  }

  predicate OnScreen(info: Info, x: nat, y: nat) {
    x < info.width && y < info.height
  }

  // ---------------------------------------------------------------- offsets

  lemma MulLe(a: nat, b: nat, c: nat)
    requires a <= b
    ensures a * c <= b * c
  {
    assert (b - a) * c >= 0;
  }

  /** A pixel's three bytes lie inside the buffer. */
  lemma OffsetInBuffer(info: Info, len: nat, x: nat, y: nat)
    requires Covers(info, len) && OnScreen(info, x, y)
    ensures Offset(info, x, y) + 2 < len
  {
    var p := y * info.stride + x;
    var n := info.height * info.stride;
    MulLe(y + 1, info.height, info.stride);
    assert (y + 1) * info.stride == y * info.stride + info.stride;
    assert p + 1 <= n;
    MulLe(p + 1, n, info.bytesPerPixel);
    assert (p + 1) * info.bytesPerPixel == p * info.bytesPerPixel + info.bytesPerPixel;
  }

  lemma OffsetOrder(info: Info, x: nat, y: nat, u: nat, v: nat)
    requires info.width <= info.stride && 3 <= info.bytesPerPixel && x < info.width && u < info.width
    requires y < v || (y == v && x < u)
    ensures Offset(info, x, y) + 3 <= Offset(info, u, v)
  {
    var p, q := y * info.stride + x, v * info.stride + u;
    if y < v {
      MulLe(y + 1, v, info.stride);
      assert (y + 1) * info.stride == y * info.stride + info.stride;
    }
    assert p + 1 <= q;
    MulLe(p + 1, q, info.bytesPerPixel);
    assert (p + 1) * info.bytesPerPixel == p * info.bytesPerPixel + info.bytesPerPixel;
  }

  /** Different pixels use different bytes. */
  lemma PixelsApart(info: Info, x: nat, y: nat, u: nat, v: nat)
    requires info.width <= info.stride && 3 <= info.bytesPerPixel && x < info.width && u < info.width
    requires (x, y) != (u, v)
    ensures Offset(info, x, y) + 3 <= Offset(info, u, v) || Offset(info, u, v) + 3 <= Offset(info, x, y)
  {
    if y < v || (y == v && x < u) {
      OffsetOrder(info, x, y, u, v);
    } else {
      OffsetOrder(info, u, v, x, y);
    }
  }

  /** One text row down in pixels is one text row down in bytes. */
  lemma OffsetBelow(info: Info, x: nat, y: nat, rows: nat)
    ensures Offset(info, x, y) + info.stride * info.bytesPerPixel * rows == Offset(info, x, y + rows)
  {
    var s, b := info.stride, info.bytesPerPixel;
    assert (y + rows) * s == y * s + rows * s;
    assert ((y + rows) * s + x) * b == (y * s + x) * b + rows * s * b;
    assert rows * s * b == s * b * rows;
  }

  /** Pixels lie side by side from the start of the buffer, row after row, a stride apart. */
  lemma OffsetSteps(info: Info, x: nat, y: nat)
    ensures Offset(info, 0, 0) == 0
    ensures Offset(info, x + 1, y) == Offset(info, x, y) + info.bytesPerPixel
    ensures Offset(info, x, y + 1) == Offset(info, x, y) + info.stride * info.bytesPerPixel
  {
    var s, b := info.stride, info.bytesPerPixel;
    assert (y * s + x + 1) * b == (y * s + x) * b + b;
    assert (y + 1) * s == y * s + s;
    assert (y * s + s + x) * b == (y * s + x) * b + s * b;
  }

  // ---------------------------------------------------------------- pixels of a byte buffer

  /** The color of pixel (x, y). */
  function Pixel(bytes: seq<bv8>, info: Info, x: nat, y: nat): Color
    requires Covers(info, |bytes|) && OnScreen(info, x, y)
  {
    OffsetInBuffer(info, |bytes|, x, y);
    var o := Offset(info, x, y);
    if info.format.Bgr? then Color(bytes[o + 2], bytes[o + 1], bytes[o]) else Color(bytes[o], bytes[o + 1], bytes[o + 2])
  }

  /** The buffer after `write_pixel`; pixels off the screen or past the buffer are ignored. */
  function Painted(bytes: seq<bv8>, info: Info, x: nat, y: nat, c: Color): (r: seq<bv8>)
    ensures |r| == |bytes|
  {
    var o := Offset(info, x, y);
    if !OnScreen(info, x, y) || o + 2 >= |bytes| then bytes
    else if info.format.Bgr? then bytes[o := c.b][o + 1 := c.g][o + 2 := c.r]
    else bytes[o := c.r][o + 1 := c.g][o + 2 := c.b]
  }

  /** Painting changes one pixel and no other. */
  lemma PaintedPixel(bytes: seq<bv8>, info: Info, x: nat, y: nat, c: Color, u: nat, v: nat)
    requires Covers(info, |bytes|) && OnScreen(info, u, v)
    ensures Pixel(Painted(bytes, info, x, y, c), info, u, v) ==
            if (u, v) == (x, y) then c else Pixel(bytes, info, u, v)
  {
    hide Offset, Covers;
    OffsetInBuffer(info, |bytes|, u, v);
    if OnScreen(info, x, y) && (u, v) != (x, y) {
      CoversApart(info, |bytes|, x, y, u, v);
    }
  }

  /** The bytes of a painted pixel: red, green, blue, or the reverse in a BGR buffer. */
  lemma PaintedBytes(bytes: seq<bv8>, info: Info, x: nat, y: nat, c: Color)
    requires OnScreen(info, x, y) && Offset(info, x, y) + 2 < |bytes|
    ensures var o := Offset(info, x, y);
            Painted(bytes, info, x, y, c)[o..o + 3] == if info.format == Bgr then [c.b, c.g, c.r] else [c.r, c.g, c.b]
  {
    hide Offset;
  }

  lemma CoversApart(info: Info, len: nat, x: nat, y: nat, u: nat, v: nat)
    requires Covers(info, len) && OnScreen(info, x, y) && OnScreen(info, u, v) && (x, y) != (u, v)
    ensures Offset(info, x, y) + 3 <= Offset(info, u, v) || Offset(info, u, v) + 3 <= Offset(info, x, y)
  {
    PixelsApart(info, x, y, u, v);
  }

  // ---------------------------------------------------------------- glyphs

  /** The glyph index of a character; everything outside the font shows the fallback glyph. */
  function GlyphIndex(c: nat): (g: nat)
    ensures g <= FALLBACK_INDEX
  {
    if FONT_OFFSET <= c < FONT_OFFSET + FALLBACK_INDEX then c - FONT_OFFSET else FALLBACK_INDEX
  }

  /** Bit `7 - col` of row `row` of the glyph. */
  predicate GlyphBit(font: seq<nat>, c: nat, row: nat, col: nat)
    requires |font| == FONT_LEN && row < CHAR_HEIGHT && col < CHAR_WIDTH
  {
    And(font[GlyphIndex(c) * CHAR_HEIGHT + row], Pow2(7 - col)) != 0
  }

  /** The first `n` columns of a glyph row, read from left to right as a binary number. */
  function RowBits(font: seq<nat>, c: nat, row: nat, n: nat): nat
    requires |font| == FONT_LEN && row < CHAR_HEIGHT && n <= CHAR_WIDTH
  {
    if n == 0 then 0 else 2 * RowBits(font, c, row, n - 1) + if GlyphBit(font, c, row, n - 1) then 1 else 0
  }

  lemma {:induction false} RowBitsAre(font: seq<nat>, c: nat, row: nat, n: nat)
    requires |font| == FONT_LEN && row < CHAR_HEIGHT && n <= CHAR_WIDTH
    requires font[GlyphIndex(c) * CHAR_HEIGHT + row] < 256
    ensures RowBits(font, c, row, n) == Shr(font[GlyphIndex(c) * CHAR_HEIGHT + row], 8 - n)
  {
    hide And, Shr, TestBit, Pow2;
    var byte := font[GlyphIndex(c) * CHAR_HEIGHT + row];
    if n == 0 {
      EightBits();
      ShrBelow(byte, 8);
    } else {
      RowBitsAre(font, c, row, n - 1);
      ShrOneLess(byte, 8 - n);
      AndPow2(byte, 8 - n);
    }
  }

  lemma EightBits()
    ensures Pow2(8) == 256
  {
    assert Pow2(4) == 16;
  }

  /** A glyph's row spells the byte the font holds for it: the glyph of a printable character is the one at
      its distance from the space, and every other byte shows the last glyph. */
  lemma GlyphSpellsFont(font: seq<nat>, c: nat, row: nat)
    requires |font| == FONT_LEN && row < CHAR_HEIGHT && forall i: nat :: i < FONT_LEN ==> font[i] < 256
    ensures RowBits(font, c, row, 8) == font[(if 0x20 <= c <= 0x7e then c - 0x20 else 95) * 16 + row]
  {
    hide RowBits;
    RowBitsAre(font, c, row, 8);
    assert Shr(font[GlyphIndex(c) * CHAR_HEIGHT + row], 0) == font[GlyphIndex(c) * CHAR_HEIGHT + row];
  }

  /** `write_string` passes text and control bytes on, and what it replaces shows the same glyph as before. */
  lemma FilterKeepsGlyph(b: nat)
    ensures 0x20 <= b <= 0x7e || b == 10 || b == 8 || b == 0x1b ==> T.Filtered(b) == b
    ensures T.Filtered(b) == b || (T.IsDrawn(T.Filtered(b)) && GlyphIndex(T.Filtered(b)) == GlyphIndex(b))
  {
  }

  /** Pixel (u, v) lies in the cell of scale `s` at (x, y). */
  predicate InCell(x: nat, y: nat, s: nat, u: nat, v: nat) {
    x <= u < x + CHAR_WIDTH * s && y <= v < y + CHAR_HEIGHT * s
  }

  lemma CellCoordinates(x: nat, y: nat, s: nat, u: nat, v: nat)
    requires s > 0 && InCell(x, y, s, u, v)
    ensures (u - x) / s < CHAR_WIDTH && (v - y) / s < CHAR_HEIGHT
  {
    DivBelow(u - x, s, CHAR_WIDTH);
    DivBelow(v - y, s, CHAR_HEIGHT);
  }

  lemma DivBelow(a: nat, s: nat, n: nat)
    requires s > 0 && a < n * s
    ensures a / s < n
  {
    var q := a / s;
    assert q * s <= a;
    assert q >= n ==> (q - n) * s >= 0;
  }

  /** The pixels with glyph coordinates (row, col) are one `s` by `s` block. */
  lemma BlockOfGlyphBit(a: nat, s: nat, k: nat)
    requires s > 0
    ensures a / s == k <==> k * s <= a < k * s + s
  {
    var q, r := a / s, a % s;
    assert a == q * s + r;
    if k * s <= a < k * s + s {
      DivModUnique(a, s, k, a - k * s);
    }
  }

  /** The color `draw_char` gives pixel (u, v) of the cell. */
  function CellColor(font: seq<nat>, c: nat, x: nat, y: nat, s: nat, fg: Color, bg: Color, u: nat, v: nat): Color
    requires |font| == FONT_LEN && s > 0 && InCell(x, y, s, u, v)
  {
    CellCoordinates(x, y, s, u, v);
    if GlyphBit(font, c, (v - y) / s, (u - x) / s) then fg else bg
  }

  // ---------------------------------------------------------------- progress of the drawing loops

  /** The first `sy` rows, `s` pixels wide, of the block at (px, py), and `sx` pixels of the next. */
  predicate InBlockBefore(px: nat, py: nat, s: nat, sy: nat, sx: nat, u: nat, v: nat) {
    px <= u < px + s && (py <= v < py + sy || (v == py + sy && u < px + sx))
  }

  ghost predicate Filled(before: seq<bv8>, after: seq<bv8>, info: Info, px: nat, py: nat, s: nat, sy: nat, sx: nat, c: Color)
    requires Covers(info, |before|) && |after| == |before|
  {
    forall u: nat, v: nat {:trigger Pixel(after, info, u, v)} :: OnScreen(info, u, v) ==>
      Pixel(after, info, u, v) == if InBlockBefore(px, py, s, sy, sx, u, v) then c else Pixel(before, info, u, v)
  }

  lemma FilledStep(before: seq<bv8>, after: seq<bv8>, info: Info, px: nat, py: nat, s: nat, sy: nat, sx: nat, c: Color)
    requires Covers(info, |before|) && |after| == |before| && sx < s
    requires Filled(before, after, info, px, py, s, sy, sx, c)
    ensures Filled(before, Painted(after, info, px + sx, py + sy, c), info, px, py, s, sy, sx + 1, c)
  {
    hide Covers, Painted, Pixel;
    var next := Painted(after, info, px + sx, py + sy, c);
    forall u: nat, v: nat | OnScreen(info, u, v)
      ensures Pixel(next, info, u, v) ==
              if InBlockBefore(px, py, s, sy, sx + 1, u, v) then c else Pixel(before, info, u, v)
    {
      PaintedPixel(after, info, px + sx, py + sy, c, u, v);
    }
  }

  lemma FilledRow(before: seq<bv8>, after: seq<bv8>, info: Info, px: nat, py: nat, s: nat, sy: nat, c: Color)
    requires Covers(info, |before|) && |after| == |before|
    requires Filled(before, after, info, px, py, s, sy, s, c)
    ensures Filled(before, after, info, px, py, s, sy + 1, 0, c)
  {
    hide Covers, Pixel;
  }

  /** Pixels of glyph rows before `row`, and of columns before `col` of glyph row `row`. */
  predicate InCellBefore(x: nat, y: nat, s: nat, row: nat, col: nat, u: nat, v: nat)
    requires s > 0
  {
    InCell(x, y, s, u, v) && ((v - y) / s < row || ((v - y) / s == row && (u - x) / s < col))
  }

  /** What has been drawn so far, and that nothing else changed. */
  ghost predicate Drawn(before: seq<bv8>, after: seq<bv8>, info: Info, font: seq<nat>, c: nat, x: nat, y: nat, s: nat,
                        fg: Color, bg: Color, row: nat, col: nat)
    requires Covers(info, |before|) && |after| == |before| && |font| == FONT_LEN && s > 0
  {
    forall u: nat, v: nat {:trigger Pixel(after, info, u, v)} :: OnScreen(info, u, v) ==>
      Pixel(after, info, u, v) ==
        if InCellBefore(x, y, s, row, col, u, v) then CellColor(font, c, x, y, s, fg, bg, u, v)
        else Pixel(before, info, u, v)
  }

  lemma BlockInCell(x: nat, y: nat, s: nat, row: nat, col: nat, u: nat, v: nat)
    requires s > 0 && row < CHAR_HEIGHT && col < CHAR_WIDTH
    ensures InBlockBefore(x + col * s, y + row * s, s, s, 0, u, v) <==>
            InCell(x, y, s, u, v) && (v - y) / s == row && (u - x) / s == col
  {
    MulLe(col + 1, CHAR_WIDTH, s);
    MulLe(row + 1, CHAR_HEIGHT, s);
    assert (col + 1) * s == col * s + s && (row + 1) * s == row * s + s;
    if u >= x { BlockOfGlyphBit(u - x, s, col); }
    if v >= y { BlockOfGlyphBit(v - y, s, row); }
  }

  /** Filling one glyph bit's block advances the drawing by one column. */
  lemma DrawnStep(before: seq<bv8>, middle: seq<bv8>, after: seq<bv8>, info: Info, font: seq<nat>, c: nat,
                  x: nat, y: nat, s: nat, fg: Color, bg: Color, row: nat, col: nat)
    requires Covers(info, |before|) && |middle| == |after| == |before| && |font| == FONT_LEN && s > 0
    requires row < CHAR_HEIGHT && col < CHAR_WIDTH
    requires Drawn(before, middle, info, font, c, x, y, s, fg, bg, row, col)
    requires Filled(middle, after, info, x + col * s, y + row * s, s, s, 0, if GlyphBit(font, c, row, col) then fg else bg)
    ensures Drawn(before, after, info, font, c, x, y, s, fg, bg, row, col + 1)
  {
    hide Covers, Pixel, GlyphBit, InBlockBefore, InCell;
    forall u: nat, v: nat | OnScreen(info, u, v)
      ensures Pixel(after, info, u, v) ==
              if InCellBefore(x, y, s, row, col + 1, u, v) then CellColor(font, c, x, y, s, fg, bg, u, v)
              else Pixel(before, info, u, v)
    {
      var p := Pixel(middle, info, u, v);
      BlockInCell(x, y, s, row, col, u, v);
    }
  }

  lemma DrawnRow(before: seq<bv8>, after: seq<bv8>, info: Info, font: seq<nat>, c: nat, x: nat, y: nat, s: nat,
                 fg: Color, bg: Color, row: nat)
    requires Covers(info, |before|) && |after| == |before| && |font| == FONT_LEN && s > 0
    requires Drawn(before, after, info, font, c, x, y, s, fg, bg, row, CHAR_WIDTH)
    ensures Drawn(before, after, info, font, c, x, y, s, fg, bg, row + 1, 0)
  {
    hide Covers, Pixel, GlyphBit, CellColor;
    forall u: nat, v: nat | OnScreen(info, u, v)
      ensures InCellBefore(x, y, s, row + 1, 0, u, v) <==> InCellBefore(x, y, s, row, CHAR_WIDTH, u, v)
    {
      if InCell(x, y, s, u, v) { CellCoordinates(x, y, s, u, v); }
    }
  }

  // ---------------------------------------------------------------- scrolling

  /** The bytes after `scroll_up` by `row` bytes, of which `total` belong to the screen. */
  function Scrolled(bytes: seq<bv8>, row: nat, total: nat): (r: seq<bv8>)
    requires row <= total <= |bytes|
    ensures |r| == |bytes|
  {
    bytes[row..total] + seq(row, _ => 0) + bytes[total..]
  }

  lemma ScrolledByte(bytes: seq<bv8>, row: nat, total: nat, k: nat)
    requires row <= total <= |bytes| && k < total
    ensures Scrolled(bytes, row, total)[k] == if k + row < total then bytes[k + row] else 0
  {
  }

  function CharRowBytes(info: Info, rows: nat): nat {
    info.stride * info.bytesPerPixel * rows
  }

  function ScreenSize(info: Info): nat {
    info.height * info.stride * info.bytesPerPixel
  }

  /** Every pixel moved up by `rows`, with black rows at the bottom; a screen that short is unchanged. */
  ghost predicate ScrolledScreen(before: seq<bv8>, after: seq<bv8>, info: Info, rows: nat)
    requires Covers(info, |before|) && |after| == |before|
  {
    forall u: nat, v: nat {:trigger Pixel(after, info, u, v)} :: OnScreen(info, u, v) ==>
      Pixel(after, info, u, v) ==
        if rows >= info.height then Pixel(before, info, u, v)
        else if v + rows < info.height then Pixel(before, info, u, v + rows)
        else BLACK
  }

  /** Scrolling by `rows` pixel rows moves every pixel up and leaves black rows at the bottom. */
  lemma ScrolledPixel(bytes: seq<bv8>, info: Info, rows: nat, u: nat, v: nat)
    requires Covers(info, |bytes|) && OnScreen(info, u, v) && rows <= info.height
    ensures var row, total := CharRowBytes(info, rows), ScreenSize(info);
            && row <= total <= |bytes|
            && Pixel(Scrolled(bytes, row, total), info, u, v) ==
               if v + rows < info.height then Pixel(bytes, info, u, v + rows) else BLACK
  {
    var row, total := info.stride * info.bytesPerPixel * rows, info.height * info.stride * info.bytesPerPixel;
    RowBytes(info, rows);
    OffsetBelow(info, u, v, rows);
    hide Offset;
    ScreenBytes(info, u, v);
    var o := Offset(info, u, v);
    if v + rows < info.height {
      ScreenBytes(info, u, v + rows);
    } else {
      BelowScreen(info, u, v + rows);
    }
    ScrolledByte(bytes, row, total, o);
    ScrolledByte(bytes, row, total, o + 1);
    ScrolledByte(bytes, row, total, o + 2);
  }

  lemma RowBytes(info: Info, rows: nat)
    requires rows <= info.height
    ensures info.stride * info.bytesPerPixel * rows <= info.height * info.stride * info.bytesPerPixel
  {
    var w := info.stride * info.bytesPerPixel;
    MulLe(rows, info.height, w);
    assert info.height * info.stride * info.bytesPerPixel == info.height * w;
  }

  lemma ScreenBytes(info: Info, u: nat, v: nat)
    requires info.width <= info.stride && 3 <= info.bytesPerPixel && OnScreen(info, u, v)
    ensures Offset(info, u, v) + 2 < info.height * info.stride * info.bytesPerPixel
  {
    OffsetInBuffer(info, info.height * info.stride * info.bytesPerPixel, u, v);
  }

  lemma BelowScreen(info: Info, u: nat, v: nat)
    requires v >= info.height
    ensures Offset(info, u, v) >= info.height * info.stride * info.bytesPerPixel
  {
    MulLe(info.height, v, info.stride);
    MulLe(info.height * info.stride, v * info.stride + u, info.bytesPerPixel);
  }

  // ---------------------------------------------------------------- cells of the text grid

  /** The pixels of cell (r, c) that are on the screen show the glyph. */
  ghost predicate ShowsCell(bytes: seq<bv8>, info: Info, font: seq<nat>, s: nat, r: nat, c: nat, g: T.Glyph)
    requires Covers(info, |bytes|) && |font| == FONT_LEN && s > 0
  {
    forall u: nat, v: nat {:trigger Pixel(bytes, info, u, v)} ::
      OnScreen(info, u, v) && InCell(c * (CHAR_WIDTH * s), r * (CHAR_HEIGHT * s), s, u, v) ==>
        Pixel(bytes, info, u, v) == CellColor(font, g.c, c * (CHAR_WIDTH * s), r * (CHAR_HEIGHT * s), s, g.fg, g.bg, u, v)
  }

  ghost predicate ShowsCells(bytes: seq<bv8>, info: Info, font: seq<nat>, s: nat, cells: T.Cells)
    requires Covers(info, |bytes|) && |font| == FONT_LEN && s > 0
  {
    forall k :: k in cells ==> ShowsCell(bytes, info, font, s, k.0, k.1, cells[k])
  }

  /** Different cells share no pixel. */
  lemma CellsApart(s: nat, r: nat, c: nat, r': nat, c': nat, u: nat, v: nat)
    requires s > 0 && InCell(c * (CHAR_WIDTH * s), r * (CHAR_HEIGHT * s), s, u, v)
    requires InCell(c' * (CHAR_WIDTH * s), r' * (CHAR_HEIGHT * s), s, u, v)
    ensures r == r' && c == c'
  {
    BlockOfGlyphBit(u, CHAR_WIDTH * s, c);
    BlockOfGlyphBit(u, CHAR_WIDTH * s, c');
    BlockOfGlyphBit(v, CHAR_HEIGHT * s, r);
    BlockOfGlyphBit(v, CHAR_HEIGHT * s, r');
  }

  /** Only pixels of cell (r, c) changed. */
  ghost predicate OnlyCellChanged(before: seq<bv8>, after: seq<bv8>, info: Info, s: nat, r: nat, c: nat)
    requires Covers(info, |before|) && |after| == |before|
  {
    forall u: nat, v: nat {:trigger Pixel(after, info, u, v)} ::
      OnScreen(info, u, v) && !InCell(c * (CHAR_WIDTH * s), r * (CHAR_HEIGHT * s), s, u, v) ==>
        Pixel(after, info, u, v) == Pixel(before, info, u, v)
  }

  /** A change inside one cell leaves what the other cells show. */
  lemma OtherCellsKept(before: seq<bv8>, after: seq<bv8>, info: Info, font: seq<nat>, s: nat, cells: T.Cells, r: nat, c: nat)
    requires Covers(info, |before|) && |after| == |before| && |font| == FONT_LEN && s > 0
    requires ShowsCells(before, info, font, s, cells) && OnlyCellChanged(before, after, info, s, r, c)
    ensures ShowsCells(after, info, font, s, cells - {(r, c)})
  {
    hide Pixel, Covers, CellColor, InCell;
    forall k | k in cells - {(r, c)} ensures ShowsCell(after, info, font, s, k.0, k.1, cells[k]) {
      assert ShowsCell(before, info, font, s, k.0, k.1, cells[k]);
      forall u: nat, v: nat |
        OnScreen(info, u, v) && InCell(k.1 * (CHAR_WIDTH * s), k.0 * (CHAR_HEIGHT * s), s, u, v)
        ensures Pixel(after, info, u, v) == Pixel(before, info, u, v)
      {
        if InCell(c * (CHAR_WIDTH * s), r * (CHAR_HEIGHT * s), s, u, v) { CellsApart(s, r, c, k.0, k.1, u, v); }
      }
    }
  }

  /** Pixel (u, v) lies in the cursor's bar, the lowest pixel rows of cell (r, c). */
  predicate InBar(s: nat, r: nat, c: nat, u: nat, v: nat) {
    InBlockBefore(c * (CHAR_WIDTH * s), r * (CHAR_HEIGHT * s) + CHAR_HEIGHT * s - CURSOR_HEIGHT * s,
                  CHAR_WIDTH * s, CURSOR_HEIGHT * s, 0, u, v)
  }

  ghost predicate ShowsBar(bytes: seq<bv8>, info: Info, s: nat, r: nat, c: nat, color: Color)
    requires Covers(info, |bytes|)
  {
    forall u: nat, v: nat {:trigger Pixel(bytes, info, u, v)} ::
      OnScreen(info, u, v) && InBar(s, r, c, u, v) ==> Pixel(bytes, info, u, v) == color
  }

  /** The cursor's bar lies inside its cell. */
  lemma BarInCell(before: seq<bv8>, after: seq<bv8>, info: Info, s: nat, r: nat, c: nat, color: Color)
    requires Covers(info, |before|) && |after| == |before| && s > 0
    requires Filled(before, after, info, c * (CHAR_WIDTH * s), r * (CHAR_HEIGHT * s) + CHAR_HEIGHT * s - CURSOR_HEIGHT * s,
                    CHAR_WIDTH * s, CURSOR_HEIGHT * s, 0, color)
    ensures OnlyCellChanged(before, after, info, s, r, c) && ShowsBar(after, info, s, r, c, color)
  {
    hide Pixel, Covers;
  }

  /** A glyph drawn in a cell: the cell shows it, and the others what they showed. */
  lemma GlyphShown(before: seq<bv8>, after: seq<bv8>, info: Info, font: seq<nat>, s: nat, cells: T.Cells, r: nat, c: nat, g: T.Glyph)
    requires Covers(info, |before|) && |after| == |before| && |font| == FONT_LEN && s > 0
    requires ShowsCells(before, info, font, s, cells) && OnlyCellChanged(before, after, info, s, r, c)
    requires ShowsCell(after, info, font, s, r, c, g)
    ensures ShowsCells(after, info, font, s, cells[(r, c) := g])
  {
    hide Pixel, Covers, CellColor, InCell, ShowsCell, OnlyCellChanged;
    OtherCellsKept(before, after, info, font, s, cells, r, c);
    forall k | k in cells[(r, c) := g] ensures ShowsCell(after, info, font, s, k.0, k.1, cells[(r, c) := g][k]) {
      if k != (r, c) { assert k in cells - {(r, c)}; }
    }
  }

  /** All known cells lie on rows of the grid. */
  ghost predicate RowsOnGrid(g: T.Grid, cells: T.Cells) {
    forall k :: k in cells ==> k.0 == 0 || k.0 < g.rows
  }

  lemma CountLe(a: nat, d: nat, k: nat)
    requires d > 0
    ensures k * d <= a <==> k <= a / d
  {
    var q := a / d;
    assert q * d <= a < q * d + d;
    if k <= q { MulLe(k, q, d); } else {
      MulLe(q + 1, k, d);
      assert (q + 1) * d == q * d + d;
    }
  }

  /** One text row up: the cell below, as far as it was on the grid, now shows here. */
  lemma ScrolledShows(before: seq<bv8>, after: seq<bv8>, info: Info, font: seq<nat>, s: nat, cells: T.Cells, g: T.Grid)
    requires Covers(info, |before|) && |after| == |before| && |font| == FONT_LEN && s > 0
    requires g.rows == info.height / (CHAR_HEIGHT * s) && RowsOnGrid(g, cells)
    requires ShowsCells(before, info, font, s, cells) && ScrolledScreen(before, after, info, CHAR_HEIGHT * s)
    ensures ShowsCells(after, info, font, s, T.ScrolledCells(cells)) && RowsOnGrid(g, T.ScrolledCells(cells))
  {
    hide Pixel, Covers, CellColor, InCell, ShowsCell, ScrolledScreen, T.ScrolledCells;
    forall k | k in T.ScrolledCells(cells)
      ensures ShowsCell(after, info, font, s, k.0, k.1, T.ScrolledCells(cells)[k]) && (k.0 == 0 || k.0 < g.rows)
    {
      T.ScrolledCell(cells, k.0, k.1);
      ScrolledShowsCell(before, after, info, font, s, k.0, k.1, cells[(k.0 + 1, k.1)], g.rows);
    }
  }

  lemma ScrolledShowsCell(before: seq<bv8>, after: seq<bv8>, info: Info, font: seq<nat>, s: nat, r: nat, c: nat, g: T.Glyph, rows: nat)
    requires Covers(info, |before|) && |after| == |before| && |font| == FONT_LEN && s > 0
    requires rows == info.height / (CHAR_HEIGHT * s) && r + 1 < rows
    requires ShowsCell(before, info, font, s, r + 1, c, g) && ScrolledScreen(before, after, info, CHAR_HEIGHT * s)
    ensures ShowsCell(after, info, font, s, r, c, g)
  {
    hide Pixel, Covers, GlyphBit;
    var ch := CHAR_HEIGHT * s;
    CountLe(info.height, ch, r + 2);
    assert (r + 2) * ch == r * ch + ch + ch && (r + 1) * ch == r * ch + ch;
    MulLe(0, r, ch);
    forall u: nat, v: nat | OnScreen(info, u, v) && InCell(c * (CHAR_WIDTH * s), r * ch, s, u, v)
      ensures Pixel(after, info, u, v) == CellColor(font, g.c, c * (CHAR_WIDTH * s), r * ch, s, g.fg, g.bg, u, v)
    {
      var p := Pixel(before, info, u, v + ch);
      assert v + ch - (r + 1) * ch == v - r * ch;
    }
  }

  datatype EscapeState = Normal | SawEsc | SawBracket | InCsi

  class FrameBufferWriter {
    const buffer: array<bv8>
    const info: Info
    const font: seq<nat>
    const csiBuf: array<nat>
    var xPos: nat
    var yPos: nat
    var fg: Color
    var bg: Color
    var scale: nat
    var escapeState: EscapeState
    var csiPos: nat
    var cursorShown: bool

    /** The text terminal the screen shows. */
    ghost var text: T.Term

    constructor (buffer: array<bv8>, info: Info, font: seq<nat>)
      requires |font| == FONT_LEN
      ensures this.buffer == buffer && this.info == info && this.font == font && scale == 1
      ensures text == T.Term(map[], 0, 0, GREY, BLACK, T.Normal, false, GREY)
      ensures Covers(info, buffer.Length) ==> Valid()
      ensures fresh(csiBuf)
    {
      this.buffer := buffer;
      this.info := info;
      this.font := font;
      xPos, yPos, scale := 0, 0, 1;
      fg, bg := Color(170, 170, 170), Color(0, 0, 0);
      escapeState, csiPos, cursorShown := Normal, 0, false;
      csiBuf := new nat[T.CSI_LEN](_ => 0);
      text := T.Term(map[], 0, 0, GREY, BLACK, T.Normal, false, GREY);
    }

    /** The cells that fit the screen. */
    ghost function TheGrid(): T.Grid
      requires scale > 0
      reads this
    {
      T.Grid(info.height / (CHAR_HEIGHT * scale), info.width / (CHAR_WIDTH * scale))
    }

    ghost function TheEscape(): T.Escape
      requires csiPos <= csiBuf.Length
      reads this, csiBuf
    {
      match escapeState
      case Normal => T.Normal
      case SawEsc => T.SawEsc
      case SawBracket => T.SawBracket
      case InCsi => T.InCsi(csiBuf[..csiPos])
    }

    /** The screen shows the terminal: cursor on its cell, colors, escape state, and every known cell. */
    ghost predicate Valid()
      reads this, buffer, csiBuf
    {
      && Covers(info, buffer.Length) && |font| == FONT_LEN && scale > 0
      && csiBuf.Length == T.CSI_LEN && csiPos <= T.CSI_LEN && buffer as object != csiBuf as object
      && xPos == text.col * (CHAR_WIDTH * scale) && yPos == text.row * (CHAR_HEIGHT * scale)
      && text.fg == fg && text.bg == bg && text.shown == cursorShown && text.esc == TheEscape()
      && T.CursorOnGrid(TheGrid(), text)
      && RowsOnGrid(TheGrid(), text.cells) && ShowsCells(buffer[..], info, font, scale, text.cells)
      && (cursorShown ==> ShowsBar(buffer[..], info, scale, text.row, text.col, text.bar))
    }

    method ReadPixel(x: nat, y: nat) returns (c: Option<Color>)
      ensures c.None? <==> !OnScreen(info, x, y) || Offset(info, x, y) + 2 >= buffer.Length
      ensures Covers(info, buffer.Length) && OnScreen(info, x, y) ==> c == Some(Pixel(buffer[..], info, x, y))
    {
      if x >= info.width || y >= info.height {
        return None;
      }
      var offset := (y * info.stride + x) * info.bytesPerPixel;
      if Covers(info, buffer.Length) { OffsetInBuffer(info, buffer.Length, x, y); }
      if offset + 2 >= buffer.Length {
        return None;
      }
      match info.format {
        case Rgb => return Some(Color(buffer[offset], buffer[offset + 1], buffer[offset + 2]));
        case Bgr => return Some(Color(buffer[offset + 2], buffer[offset + 1], buffer[offset]));
        case OtherFormat => return Some(Color(buffer[offset], buffer[offset + 1], buffer[offset + 2]));
      }
    }

    method WritePixel(x: nat, y: nat, c: Color)
      modifies buffer
      ensures buffer[..] == Painted(old(buffer[..]), info, x, y, c)
    {
      if x >= info.width || y >= info.height {
        return;
      }
      var offset := (y * info.stride + x) * info.bytesPerPixel;
      if offset + 2 >= buffer.Length {
        return;
      }
      match info.format {
        case Rgb =>
          buffer[offset] := c.r;
          buffer[offset + 1] := c.g;
          buffer[offset + 2] := c.b;
        case Bgr =>
          buffer[offset] := c.b;
          buffer[offset + 1] := c.g;
          buffer[offset + 2] := c.r;
        case OtherFormat =>
          buffer[offset] := c.r;
          buffer[offset + 1] := c.g;
          buffer[offset + 2] := c.b;
      }
    }

    /** Paints a block of `w` by `h` pixels: one glyph bit, or the cursor. */
    method FillBlock(px: nat, py: nat, w: nat, h: nat, c: Color)
      modifies buffer
      ensures Covers(info, buffer.Length) ==> Filled(old(buffer[..]), buffer[..], info, px, py, w, h, 0, c)
    {
      hide Covers, Painted, Filled;
      ghost var before := buffer[..];
      NothingFilled(before, info, px, py, w, c);
      for sy := 0 to h
        invariant Covers(info, buffer.Length) ==> Filled(before, buffer[..], info, px, py, w, sy, 0, c)
      {
        for sx := 0 to w
          invariant Covers(info, buffer.Length) ==> Filled(before, buffer[..], info, px, py, w, sy, sx, c)
        {
          if Covers(info, buffer.Length) { FilledStep(before, buffer[..], info, px, py, w, sy, sx, c); }
          WritePixel(px + sx, py + sy, c);
        }
        if Covers(info, buffer.Length) { FilledRow(before, buffer[..], info, px, py, w, sy, c); }
      }
    }

    static lemma NothingFilled(bytes: seq<bv8>, i: Info, px: nat, py: nat, s: nat, c: Color)
      ensures Covers(i, |bytes|) ==> Filled(bytes, bytes, i, px, py, s, 0, 0, c)
    {
    }

    /** Draws a character: every pixel of the scaled cell that is on the screen gets its glyph bit's
        color, and every other pixel keeps its own. */
    method DrawChar(x: nat, y: nat, c: nat)
      requires |font| == FONT_LEN && scale > 0
      modifies buffer
      ensures Covers(info, buffer.Length) ==>
                forall u: nat, v: nat :: OnScreen(info, u, v) ==>
                  Pixel(buffer[..], info, u, v) ==
                    if InCell(x, y, scale, u, v) then CellColor(font, c, x, y, scale, fg, bg, u, v)
                    else Pixel(old(buffer[..]), info, u, v)
    {
      hide Covers, Pixel, Filled, Drawn;
      ghost var before := buffer[..];
      var glyphStart := GlyphIndex(c) * CHAR_HEIGHT;
      var s := scale;
      NothingDrawn(before, info, font, c, x, y, s, fg, bg);
      for row := 0 to CHAR_HEIGHT
        invariant Covers(info, buffer.Length) ==>
                    Drawn(before, buffer[..], info, font, c, x, y, s, fg, bg, row, 0)
      {
        var glyphByte := font[glyphStart + row];
        for col := 0 to CHAR_WIDTH
          invariant Covers(info, buffer.Length) ==>
                      Drawn(before, buffer[..], info, font, c, x, y, s, fg, bg, row, col)
        {
          var color := if And(glyphByte, Pow2(7 - col)) != 0 then fg else bg;
          ghost var middle := buffer[..];
          FillBlock(x + col * s, y + row * s, s, s, color);
          if Covers(info, buffer.Length) {
            DrawnStep(before, middle, buffer[..], info, font, c, x, y, s, fg, bg, row, col);
          }
        }
        if Covers(info, buffer.Length) { DrawnRow(before, buffer[..], info, font, c, x, y, s, fg, bg, row); }
      }
      if Covers(info, buffer.Length) { AllDrawn(before, buffer[..], info, font, c, x, y, s, fg, bg); }
    }

    static lemma NothingDrawn(bytes: seq<bv8>, i: Info, f: seq<nat>, c: nat, x: nat, y: nat, s: nat, on: Color, off: Color)
      requires |f| == FONT_LEN && s > 0
      ensures Covers(i, |bytes|) ==> Drawn(bytes, bytes, i, f, c, x, y, s, on, off, 0, 0)
    {
      hide Pixel, GlyphBit, CellColor;
      forall u: nat, v: nat ensures !InCellBefore(x, y, s, 0, 0, u, v) {
        if InCell(x, y, s, u, v) { CellCoordinates(x, y, s, u, v); }
      }
    }

    static lemma AllDrawn(before: seq<bv8>, after: seq<bv8>, i: Info, f: seq<nat>, c: nat, x: nat, y: nat, s: nat, on: Color, off: Color)
      requires Covers(i, |before|) && |after| == |before| && |f| == FONT_LEN && s > 0
      requires Drawn(before, after, i, f, c, x, y, s, on, off, CHAR_HEIGHT, 0)
      ensures forall u: nat, v: nat :: OnScreen(i, u, v) ==>
                Pixel(after, i, u, v) ==
                  if InCell(x, y, s, u, v) then CellColor(f, c, x, y, s, on, off, u, v) else Pixel(before, i, u, v)
    {
      hide Pixel, GlyphBit, CellColor, Covers;
      forall u: nat, v: nat | OnScreen(i, u, v)
        ensures InCellBefore(x, y, s, CHAR_HEIGHT, 0, u, v) <==> InCell(x, y, s, u, v)
      {
        if InCell(x, y, s, u, v) { CellCoordinates(x, y, s, u, v); }
      }
    }

    // ---------------------------------------------------------------- scrolling

    /** `buffer.copy_within(from..to, 0)` */
    method CopyDown(from: nat, to: nat)
      requires from <= to <= buffer.Length
      modifies buffer
      ensures buffer[..] == old(buffer[from..to]) + old(buffer[to - from..])
    {
      for k := 0 to to - from
        invariant forall j: nat :: j < k ==> buffer[j] == old(buffer[j + from])
        invariant forall j: nat :: k <= j < buffer.Length ==> buffer[j] == old(buffer[j])
      {
        buffer[k] := buffer[k + from];
      }
      assert forall j: nat :: j < to - from ==> old(buffer[from..to])[j] == old(buffer[j + from]);
      assert buffer[..] == old(buffer[from..to]) + old(buffer[to - from..]);
    }

    /** `buffer[from..to].fill(0)` */
    method FillZero(from: nat, to: nat)
      requires from <= to <= buffer.Length
      modifies buffer
      ensures buffer[..] == old(buffer[..from]) + seq(to - from, _ => 0) + old(buffer[to..])
    {
      for k := from to to
        invariant forall j: nat :: from <= j < k ==> buffer[j] == 0
        invariant forall j: nat :: j < from || k <= j < buffer.Length ==> j < buffer.Length ==> buffer[j] == old(buffer[j])
      {
        buffer[k] := 0;
      }
      assert buffer[..] == old(buffer[..from]) + seq(to - from, _ => 0) + old(buffer[to..]);
    }

    /** Scrolls the screen up by one text row, if it is taller than one. */
    method ScrollUp()
      requires ScreenSize(info) <= buffer.Length
      modifies buffer
      ensures Covers(info, buffer.Length) ==>
                ScrolledScreen(old(buffer[..]), buffer[..], info, CHAR_HEIGHT * scale)
    {
      var ch := CHAR_HEIGHT * scale;
      var bytesPerCharRow := info.stride * info.bytesPerPixel * ch;
      var totalBytes := info.height * info.stride * info.bytesPerPixel;
      assert bytesPerCharRow == CharRowBytes(info, ch) && totalBytes == ScreenSize(info);
      hide Covers, Scrolled, CharRowBytes, ScreenSize, ScrolledScreen;
      ghost var before := buffer[..];
      if totalBytes <= bytesPerCharRow {
        NotScrolled(before, info, ch);
        return;
      }
      CopyDown(bytesPerCharRow, totalBytes);
      var clearStart := totalBytes - bytesPerCharRow;
      ghost var copied := buffer[..];
      FillZero(clearStart, totalBytes);
      PhasesAreScrolled(before, copied, buffer[..], bytesPerCharRow, totalBytes);
      ScrollDone(before, info, ch);
    }

    static lemma PhasesAreScrolled(before: seq<bv8>, copied: seq<bv8>, after: seq<bv8>, row: nat, total: nat)
      requires row <= total <= |before| && |copied| == |before|
      requires copied == before[row..total] + before[total - row..]
      requires after == copied[..total - row] + seq(row, _ => 0) + copied[total..]
      ensures after == Scrolled(before, row, total)
    {
      assert copied[..total - row] == before[row..total];
      assert copied[total..] == before[total..];
    }

    static lemma NotScrolled(bytes: seq<bv8>, i: Info, rows: nat)
      requires ScreenSize(i) <= CharRowBytes(i, rows)
      ensures Covers(i, |bytes|) ==> ScrolledScreen(bytes, bytes, i, rows)
    {
      hide Pixel;
      if Covers(i, |bytes|) && i.width > 0 { TallerThanOneRow(i, rows); }
    }

    static lemma ScrollDone(before: seq<bv8>, i: Info, rows: nat)
      requires CharRowBytes(i, rows) < ScreenSize(i) <= |before|
      ensures Covers(i, |before|) ==>
                ScrolledScreen(before, Scrolled(before, CharRowBytes(i, rows), ScreenSize(i)), i, rows)
    {
      hide Pixel, Scrolled;
      if Covers(i, |before|) {
        var after := Scrolled(before, CharRowBytes(i, rows), ScreenSize(i));
        forall u: nat, v: nat | OnScreen(i, u, v)
          ensures rows < i.height && Pixel(after, i, u, v) ==
                  if v + rows < i.height then Pixel(before, i, u, v + rows) else BLACK
        {
          TallerThanOneRow(i, rows);
          ScrolledPixel(before, i, rows, u, v);
        }
      }
    }

    static lemma TallerThanOneRow(i: Info, rows: nat)
      requires i.width <= i.stride && 3 <= i.bytesPerPixel && i.width > 0
      ensures ScreenSize(i) <= CharRowBytes(i, rows) <==> i.height <= rows
    {
      var w := i.stride * i.bytesPerPixel;
      assert w > 0;
      assert i.height * i.stride * i.bytesPerPixel == i.height * w;
      if i.height <= rows { MulLe(i.height, rows, w); } else {
        MulLe(rows + 1, i.height, w);
        assert (rows + 1) * w == rows * w + w;
      }
    }

    /** The text cursor's row fits the screen, or is the first row of a screen too short for one. */
    ghost predicate CursorOk()
      reads this
    {
      yPos == 0 || yPos + CHAR_HEIGHT * scale <= info.height
    }

    /** Moves to the next text row, scrolling when it would leave the screen. */
    method NewLine()
      requires ScreenSize(info) <= buffer.Length
      modifies `xPos, `yPos, buffer
      ensures old(CursorOk()) ==> CursorOk()
      ensures xPos == 0
      ensures old(yPos) + 2 * (CHAR_HEIGHT * scale) <= info.height ==>
                yPos == old(yPos) + CHAR_HEIGHT * scale && buffer[..] == old(buffer[..])
      ensures old(yPos) + 2 * (CHAR_HEIGHT * scale) > info.height ==>
                && yPos == old(yPos)
                && (Covers(info, buffer.Length) ==>
                      ScrolledScreen(old(buffer[..]), buffer[..], info, CHAR_HEIGHT * scale))
    {
      hide Covers, Pixel, ScreenSize, ScrolledScreen;
      var ch := CHAR_HEIGHT * scale;
      yPos := yPos + ch;
      xPos := 0;
      if yPos + ch > info.height {
        ScrollUp();
        yPos := yPos - ch;
      }
    }

    // ---------------------------------------------------------------- the byte stream

    /** Paints the cursor's bar: the lowest pixel rows of its cell, and nothing else. */
    method PaintCursor(color: Color)
      requires Valid() && !cursorShown
      modifies buffer, `text
      ensures Valid() && text == T.Touched(old(text))
      ensures ShowsBar(buffer[..], info, scale, text.row, text.col, color)
      ensures OnlyCellChanged(old(buffer[..]), buffer[..], info, scale, text.row, text.col)
    {
      hide Covers, Pixel, ShowsCells, Filled, OnlyCellChanged, ShowsBar;
      ghost var before := buffer[..];
      var ch := CHAR_HEIGHT * scale;
      var cursorH := CURSOR_HEIGHT * scale;
      FillBlock(xPos, yPos + ch - cursorH, CHAR_WIDTH * scale, cursorH, color);
      BarInCell(before, buffer[..], info, scale, text.row, text.col, color);
      OtherCellsKept(before, buffer[..], info, font, scale, text.cells, text.row, text.col);
      text := T.Touched(text);
    }

    /** Paints the bar in the background color, if it is shown. */
    method EraseCursor()
      requires Valid()
      modifies buffer, `cursorShown, `text
      ensures Valid() && text == T.Erased(old(text)) && !cursorShown
      ensures old(cursorShown) ==> ShowsBar(buffer[..], info, scale, text.row, text.col, bg)
    {
      hide Covers, ShowsCells, RowsOnGrid, ShowsBar;
      if !cursorShown {
        return;
      }
      cursorShown := false;
      text := text.(shown := false);
      PaintCursor(bg);
    }

    /** Paints the bar in the foreground color, unless it is shown. */
    method DrawCursor()
      requires Valid()
      modifies buffer, `cursorShown, `text
      ensures Valid() && text == T.Drawn(old(text)) && cursorShown
    {
      hide Covers, ShowsCells, RowsOnGrid, ShowsBar;
      if cursorShown {
        return;
      }
      PaintCursor(fg);
      cursorShown := true;
      text := text.(shown := true, bar := fg);
    }

    /** `new_line` as the terminal sees it. */
    method LineFeed()
      requires Valid() && !cursorShown
      modifies `xPos, `yPos, buffer, `text
      ensures Valid() && text == T.NewLine(TheGrid(), old(text))
    {
      hide Covers, Pixel, ShowsCells, ScrolledScreen, T.ScrolledCells, RowsOnGrid;
      ghost var before := buffer[..];
      RowFits(info, scale, text.row);
      CoversScreen(info, buffer.Length);
      NewLine();
      if yPos == old(yPos) {
        ScrolledShows(before, buffer[..], info, font, scale, text.cells, TheGrid());
      }
      text := T.NewLine(TheGrid(), text);
    }

    static lemma CoversScreen(i: Info, len: nat)
      requires Covers(i, len)
      ensures ScreenSize(i) <= len
    {
    }

    /** Two more text rows fit in pixels exactly when they fit on the grid. */
    static lemma RowFits(i: Info, s: nat, row: nat)
      requires s > 0
      ensures var ch := CHAR_HEIGHT * s;
              && (row * ch + 2 * ch <= i.height <==> row + 2 <= i.height / ch)
              && (row + 1) * ch == row * ch + ch && row * ch + ch != row * ch
    {
      var ch := CHAR_HEIGHT * s;
      CountLe(i.height, ch, row + 2);
      assert (row + 2) * ch == row * ch + 2 * ch;
    }

    static lemma ColumnFits(i: Info, s: nat, col: nat)
      requires s > 0
      ensures var cw := CHAR_WIDTH * s;
              && (col * cw + cw > i.width <==> col + 1 > i.width / cw)
              && (col + 1) * cw == col * cw + cw
              && (col * cw >= cw <==> col > 0) && (col > 0 ==> (col - 1) * cw == col * cw - cw)
    {
      var cw := CHAR_WIDTH * s;
      CountLe(i.width, cw, col + 1);
      assert (col + 1) * cw == col * cw + cw;
      if col > 0 { MulLe(1, col, cw); }
    }

    /** Draws the byte's glyph in the cursor's cell and moves on one cell. */
    method DrawGlyph(byte: nat)
      requires Valid() && (text.col < 1 || text.col < TheGrid().cols)
      modifies buffer, `xPos, `cursorShown, `text
      ensures Valid()
      ensures var t := old(text);
              text == t.(cells := t.cells[(t.row, t.col) := T.Glyph(byte, t.fg, t.bg)], col := t.col + 1, shown := false)
    {
      hide Covers, Pixel, ShowsCells, OnlyCellChanged, ShowsCell, CellColor, InCell, ShowsBar;
      ghost var before := buffer[..];
      ghost var g := T.Glyph(byte, fg, bg);
      DrawChar(xPos, yPos, byte);
      CellDrawn(before, buffer[..], info, font, scale, text.row, text.col, g);
      GlyphShown(before, buffer[..], info, font, scale, text.cells, text.row, text.col, g);
      ColumnFits(info, scale, text.col);
      cursorShown := false;
      xPos := xPos + CHAR_WIDTH * scale;
      text := text.(cells := text.cells[(text.row, text.col) := g], col := text.col + 1, shown := false);
    }

    static lemma CellDrawn(before: seq<bv8>, after: seq<bv8>, i: Info, f: seq<nat>, s: nat, r: nat, c: nat, g: T.Glyph)
      requires Covers(i, |before|) && |after| == |before| && |f| == FONT_LEN && s > 0
      requires var x, y := c * (CHAR_WIDTH * s), r * (CHAR_HEIGHT * s);
               forall u: nat, v: nat :: OnScreen(i, u, v) ==>
                 Pixel(after, i, u, v) ==
                   if InCell(x, y, s, u, v) then CellColor(f, g.c, x, y, s, g.fg, g.bg, u, v) else Pixel(before, i, u, v)
      ensures OnlyCellChanged(before, after, i, s, r, c) && ShowsCell(after, i, f, s, r, c, g)
    {
      hide Covers, Pixel, CellColor, InCell;
    }

    /** A byte outside escape sequences and control codes: wraps if the row is full, then draws. */
    method PutByte(byte: nat)
      requires Valid()
      modifies buffer, `xPos, `yPos, `cursorShown, `text
      ensures Valid() && text == T.Put(TheGrid(), old(text), byte)
    {
      hide Covers, ShowsCells, ShowsBar, RowsOnGrid, T.NewLine;
      ColumnFits(info, scale, text.col);
      if xPos + CHAR_WIDTH * scale > info.width {
        EraseCursor();
        LineFeed();
        ColumnZero(TheGrid(), T.Erased(old(text)));
      }
      DrawGlyph(byte);
      DrawCursor();
    }

    static lemma ColumnZero(g: T.Grid, t: T.Term)
      ensures T.NewLine(g, t).col == 0
    {
    }

    /** Sets the colors by the first parameter of the collected sequence. */
    method ApplySgr()
      requires Valid() && escapeState.InCsi?
      modifies `fg, `bg, `text
      ensures Valid() && text == T.WithColor(old(text), T.FirstParam(csiBuf[..csiPos], 0))
    {
      hide Covers, ShowsCells, ShowsBar, RowsOnGrid;
      var param := T.FirstParam(csiBuf[..csiPos], 0);
      text := T.WithColor(text, param);
      if param == 0 {
        fg, bg := Color(170, 170, 170), Color(0, 0, 0);
      } else if 30 <= param <= 37 {
        fg := AnsiColor(param - 30);
      } else if 40 <= param <= 47 {
        bg := AnsiColor(param - 40);
      }
    }

    /** A byte while no escape sequence is open. */
    method WriteNormal(byte: nat)
      requires Valid() && escapeState.Normal?
      modifies buffer, `xPos, `yPos, `cursorShown, `text, `escapeState
      ensures Valid() && text == T.Write(TheGrid(), old(text), byte)
    {
      hide Covers, ShowsCells, ShowsBar, RowsOnGrid, T.NewLine, T.Put;
      if byte == T.ESC {
        escapeState := SawEsc;
        text := text.(esc := T.SawEsc);
      } else if byte == T.NEWLINE {
        EraseCursor();
        LineFeed();
        DrawCursor();
      } else if byte == T.BACKSPACE {
        EraseCursor();
        ColumnFits(info, scale, text.col);
        if xPos >= CHAR_WIDTH * scale {
          xPos := xPos - CHAR_WIDTH * scale;
        }
        text := T.Back(text);
        DrawCursor();
      } else {
        PutByte(byte);
      }
    }

    /** A byte inside an escape sequence; never touches the screen. */
    method WriteEscape(byte: nat)
      requires Valid() && !escapeState.Normal?
      modifies csiBuf, `csiPos, `escapeState, `fg, `bg, `text
      ensures Valid() && text == T.Write(TheGrid(), old(text), byte)
    {
      hide Covers, ShowsCells, ShowsBar, RowsOnGrid;
      ghost var t := text;
      ghost var params := csiBuf[..csiPos];
      match escapeState {
        case SawEsc =>
          escapeState := if byte == T.BRACKET then SawBracket else Normal;
        case SawBracket =>
          if T.IsParam(byte) {
            escapeState := InCsi;
            csiBuf[0] := byte;
            csiPos := 1;
            assert csiBuf[..1] == [byte];
          } else {
            escapeState := Normal;
          }
        case InCsi =>
          if T.IsParam(byte) && csiPos < csiBuf.Length {
            csiBuf[csiPos] := byte;
            csiPos := csiPos + 1;
            assert csiBuf[..csiPos] == params + [byte];
          } else if byte == T.LETTER_M {
            ApplySgr();
            escapeState := Normal;
          } else {
            escapeState := Normal;
          }
      }
      text := T.Write(TheGrid(), t, byte);
    }

    /** The screen after a byte shows the terminal after it. */
    method WriteByte(byte: nat)
      requires Valid()
      modifies buffer, csiBuf, `xPos, `yPos, `cursorShown, `text, `escapeState, `csiPos, `fg, `bg
      ensures Valid() && text == T.Write(TheGrid(), old(text), byte)
    {
      hide Covers, ShowsCells, ShowsBar, RowsOnGrid, T.Write;
      if escapeState.Normal? {
        WriteNormal(byte);
      } else {
        WriteEscape(byte);
      }
    }

    /** The screen after a string shows the terminal after its bytes, unprintable ones replaced. */
    method WriteString(bytes: seq<nat>)
      requires Valid()
      modifies buffer, csiBuf, `xPos, `yPos, `cursorShown, `text, `escapeState, `csiPos, `fg, `bg
      ensures Valid() && text == T.WriteAll(TheGrid(), old(text), T.FilteredAll(bytes))
    {
      hide Covers, ShowsCells, ShowsBar, RowsOnGrid, T.Write, T.Filtered;
      ghost var all := T.FilteredAll(bytes);
      for i := 0 to |bytes|
        invariant Valid() && text == T.WriteAll(TheGrid(), old(text), all[..i])
      {
        WriteByte(T.Filtered(bytes[i]));
        assert all[..i + 1][..i] == all[..i];
      }
      assert all[..|bytes|] == all;
    }

    /** A known cell of the terminal is seen on the screen, pixel by pixel. */
    lemma CellSeen(k: (nat, nat), u: nat, v: nat)
      requires Valid() && k in text.cells && OnScreen(info, u, v)
      requires InCell(k.1 * (CHAR_WIDTH * scale), k.0 * (CHAR_HEIGHT * scale), scale, u, v)
      ensures var g := text.cells[k];
              Pixel(buffer[..], info, u, v) ==
                CellColor(font, g.c, k.1 * (CHAR_WIDTH * scale), k.0 * (CHAR_HEIGHT * scale), scale, g.fg, g.bg, u, v)
    {
      hide Covers, Pixel, CellColor, InCell;
      assert ShowsCell(buffer[..], info, font, scale, k.0, k.1, text.cells[k]);
    }
  }
}
