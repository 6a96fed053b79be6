/** The 5x7 glyph renderer (`st7735_draw_char`) and the left-to-right text
    writer (`st7735_draw_string`). A character cell is 6 by 8 pixels: the five
    font columns and seven font rows, plus one column and one row of background. */
module Text {
  import opened CInt
  import opened St7735

  /** Five column bitmaps of one font entry. */
  type Glyph = g: seq<Byte> | |g| == 5 witness [0, 0, 0, 0, 0]

  /** The glyph of the space character: no pixel lit. */
  const Blank: Glyph := [0, 0, 0, 0, 0]

  /** A glyph table for the 96 printable characters. */
  type FontTable = f: seq<Glyph> | |f| == 96 witness seq<Glyph>(96, _ => Blank)

  /** `font5x7`: the column bitmaps of the printable characters 32 (space)
      to 127, in twelve blocks of eight characters. */
  const Font0: seq<Glyph> := [
    [0x00, 0x00, 0x00, 0x00, 0x00], [0x00, 0x00, 0x5F, 0x00, 0x00], [0x00, 0x07, 0x00, 0x07, 0x00], [0x14, 0x7F, 0x14, 0x7F, 0x14],
    [0x24, 0x2A, 0x7F, 0x2A, 0x12], [0x23, 0x13, 0x08, 0x64, 0x62], [0x36, 0x49, 0x55, 0x22, 0x50], [0x00, 0x05, 0x03, 0x00, 0x00]
  ]

  const Font1: seq<Glyph> := [
    [0x00, 0x1C, 0x22, 0x41, 0x00], [0x00, 0x41, 0x22, 0x1C, 0x00], [0x14, 0x08, 0x3E, 0x08, 0x14], [0x08, 0x08, 0x3E, 0x08, 0x08],
    [0x00, 0x50, 0x30, 0x00, 0x00], [0x08, 0x08, 0x08, 0x08, 0x08], [0x00, 0x60, 0x60, 0x00, 0x00], [0x20, 0x10, 0x08, 0x04, 0x02]
  ]

  const Font2: seq<Glyph> := [
    [0x3E, 0x51, 0x49, 0x45, 0x3E], [0x00, 0x42, 0x7F, 0x40, 0x00], [0x42, 0x61, 0x51, 0x49, 0x46], [0x21, 0x41, 0x45, 0x4B, 0x31],
    [0x18, 0x14, 0x12, 0x7F, 0x10], [0x27, 0x45, 0x45, 0x45, 0x39], [0x3C, 0x4A, 0x49, 0x49, 0x30], [0x01, 0x71, 0x09, 0x05, 0x03]
  ]

  const Font3: seq<Glyph> := [
    [0x36, 0x49, 0x49, 0x49, 0x36], [0x06, 0x49, 0x49, 0x29, 0x1E], [0x00, 0x36, 0x36, 0x00, 0x00], [0x00, 0x56, 0x36, 0x00, 0x00],
    [0x08, 0x14, 0x22, 0x41, 0x00], [0x14, 0x14, 0x14, 0x14, 0x14], [0x00, 0x41, 0x22, 0x14, 0x08], [0x02, 0x01, 0x51, 0x09, 0x06]
  ]

  const Font4: seq<Glyph> := [
    [0x32, 0x49, 0x79, 0x41, 0x3E], [0x7E, 0x11, 0x11, 0x11, 0x7E], [0x7F, 0x49, 0x49, 0x49, 0x36], [0x3E, 0x41, 0x41, 0x41, 0x22],
    [0x7F, 0x41, 0x41, 0x22, 0x1C], [0x7F, 0x49, 0x49, 0x49, 0x41], [0x7F, 0x09, 0x09, 0x09, 0x01], [0x3E, 0x41, 0x49, 0x49, 0x7A]
  ]

  const Font5: seq<Glyph> := [
    [0x7F, 0x08, 0x08, 0x08, 0x7F], [0x00, 0x41, 0x7F, 0x41, 0x00], [0x20, 0x40, 0x41, 0x3F, 0x01], [0x7F, 0x08, 0x14, 0x22, 0x41],
    [0x7F, 0x40, 0x40, 0x40, 0x40], [0x7F, 0x02, 0x0C, 0x02, 0x7F], [0x7F, 0x04, 0x08, 0x10, 0x7F], [0x3E, 0x41, 0x41, 0x41, 0x3E]
  ]

  const Font6: seq<Glyph> := [
    [0x7F, 0x09, 0x09, 0x09, 0x06], [0x3E, 0x41, 0x51, 0x21, 0x5E], [0x7F, 0x09, 0x19, 0x29, 0x46], [0x46, 0x49, 0x49, 0x49, 0x31],
    [0x01, 0x01, 0x7F, 0x01, 0x01], [0x3F, 0x40, 0x40, 0x40, 0x3F], [0x1F, 0x20, 0x40, 0x20, 0x1F], [0x3F, 0x40, 0x38, 0x40, 0x3F]
  ]

  const Font7: seq<Glyph> := [
    [0x63, 0x14, 0x08, 0x14, 0x63], [0x07, 0x08, 0x70, 0x08, 0x07], [0x61, 0x51, 0x49, 0x45, 0x43], [0x00, 0x7F, 0x41, 0x41, 0x00],
    [0x02, 0x04, 0x08, 0x10, 0x20], [0x00, 0x41, 0x41, 0x7F, 0x00], [0x04, 0x02, 0x01, 0x02, 0x04], [0x40, 0x40, 0x40, 0x40, 0x40]
  ]

  const Font8: seq<Glyph> := [
    [0x00, 0x01, 0x02, 0x04, 0x00], [0x20, 0x54, 0x54, 0x54, 0x78], [0x7F, 0x48, 0x44, 0x44, 0x38], [0x38, 0x44, 0x44, 0x44, 0x20],
    [0x38, 0x44, 0x44, 0x48, 0x7F], [0x38, 0x54, 0x54, 0x54, 0x18], [0x08, 0x7E, 0x09, 0x01, 0x02], [0x0C, 0x52, 0x52, 0x52, 0x3E]
  ]

  const Font9: seq<Glyph> := [
    [0x7F, 0x08, 0x04, 0x04, 0x78], [0x00, 0x44, 0x7D, 0x40, 0x00], [0x20, 0x40, 0x44, 0x3D, 0x00], [0x7F, 0x10, 0x28, 0x44, 0x00],
    [0x00, 0x41, 0x7F, 0x40, 0x00], [0x7C, 0x04, 0x18, 0x04, 0x78], [0x7C, 0x08, 0x04, 0x04, 0x78], [0x38, 0x44, 0x44, 0x44, 0x38]
  ]

  const Font10: seq<Glyph> := [
    [0x7C, 0x14, 0x14, 0x14, 0x08], [0x08, 0x14, 0x14, 0x18, 0x7C], [0x7C, 0x08, 0x04, 0x04, 0x08], [0x48, 0x54, 0x54, 0x54, 0x20],
    [0x04, 0x3F, 0x44, 0x40, 0x20], [0x3C, 0x40, 0x40, 0x20, 0x7C], [0x1C, 0x20, 0x40, 0x20, 0x1C], [0x3C, 0x40, 0x30, 0x40, 0x3C]
  ]

  const Font11: seq<Glyph> := [
    [0x44, 0x28, 0x10, 0x28, 0x44], [0x0C, 0x50, 0x50, 0x50, 0x3C], [0x44, 0x64, 0x54, 0x4C, 0x44], [0x00, 0x08, 0x36, 0x41, 0x00],
    [0x00, 0x00, 0x7F, 0x00, 0x00], [0x00, 0x41, 0x36, 0x08, 0x00], [0x10, 0x08, 0x08, 0x10, 0x08], [0x00, 0x06, 0x09, 0x09, 0x06]
  ]

  const Font: FontTable :=
    Font0 + Font1 + Font2 + Font3 + Font4 + Font5 + Font6 + Font7 + Font8 + Font9 + Font10 + Font11

  /** Width and height of a character cell: the pen advance of `st7735_draw_string`. */
  const CellWidth := 6
  const CellHeight := 8

  /** `(bits >> row) & 0x01`. */
  function GlyphBit(bits: int, row: nat): (b: int)
    requires bits >= 0
    ensures b == 0 || b == 1
  {
    if row == 0 then bits % 2 else GlyphBit(bits / 2, row - 1)
  }

  /** `1 << n`. */
  function Pow2(n: nat): (p: nat)
    ensures p >= 1
  {
    if n == 0 then 1 else 2 * Pow2(n - 1)
  }

  /** Repeated halving is the shift: bit `row` is `(bits / 2^row) % 2`. */
  lemma {:induction false} GlyphBitIsShift(bits: int, row: nat)
    requires bits >= 0
    ensures GlyphBit(bits, row) == (bits / Pow2(row)) % 2
  {
    if row > 0 {
      GlyphBitIsShift(bits / 2, row - 1);
      HalveThenDivide(bits, Pow2(row - 1));
    }
  }

  /** Halving and then dividing by `m` is dividing by `2 * m`. */
  lemma HalveThenDivide(b: int, m: int)
    requires b >= 0 && m >= 1
    ensures (b / 2) / m == b / (2 * m)
  {
    var q, s := b / 2, b % 2;
    var t, u := q / m, q % m;
    DivBounds(q, m);
    assert q == m * t + u;
    var d := 2 * m;
    assert b == d * t + (2 * u + s) by {
      assert d * t == 2 * (m * t);
    }
    TruncDivUnique(b, d, t, 2 * u + s);
    assert TruncDiv(b, d) == b / d;
  }

  /** A byte the renderer draws: `c < 32 || c > 127` is skipped. The test is the
      same whether `char` is signed or not: a byte of 128 or more is either
      negative or above 127. */
  predicate Printable(c: Byte) {
    32 <= c <= 127
  }

  /** Pixel `(col, row)` of a cell showing `glyph` is in the foreground colour. */
  predicate Lit(glyph: Glyph, col: int, row: int) {
    0 <= col < 5 && 0 <= row < 7 && GlyphBit(glyph[col], row) == 1
  }

  /** One pixel of a cell as the panel receives it: the colour high byte first,
      or the black background. */
  function Pixel(glyph: Glyph, col: int, row: int, color: U16): (p: seq<Byte>)
    ensures |p| == 2
  {
    if Lit(glyph, col, row) then Be16(color) else [0, 0]
  }

  /** The first `width` pixels of row `row` of a cell showing `glyph`. */
  function RowBytes(glyph: Glyph, row: int, width: nat, color: U16): (r: seq<Byte>)
    ensures |r| == 2 * width
  {
    if width == 0 then [] else RowBytes(glyph, row, width - 1, color) + Pixel(glyph, width - 1, row, color)
  }

  /** Pixel `col` of a row sits at bytes `2 * col` and `2 * col + 1`. */
  lemma {:induction false} RowBytesPixel(glyph: Glyph, row: int, width: nat, color: U16, col: int)
    requires 0 <= col < width
    ensures RowBytes(glyph, row, width, color)[2 * col..2 * col + 2] == Pixel(glyph, col, row, color)
  {
    var prev := RowBytes(glyph, row, width - 1, color);
    var r := prev + Pixel(glyph, width - 1, row, color);
    if col < width - 1 {
      RowBytesPixel(glyph, row, width - 1, color, col);
      assert r[2 * col..2 * col + 2] == prev[2 * col..2 * col + 2];
    } else {
      assert r[2 * col..2 * col + 2] == r[|prev|..];
    }
  }

  /** The first `n` rows of a cell showing `glyph`, one data transfer each. */
  function GlyphRows(glyph: Glyph, n: nat, width: nat, color: U16): (r: seq<Transfer>)
    ensures |r| == n
  {
    if n == 0 then [] else GlyphRows(glyph, n - 1, width, color) + [Data(RowBytes(glyph, n - 1, width, color))]
  }

  lemma {:induction false} GlyphRowAt(glyph: Glyph, n: nat, width: nat, color: U16, row: int)
    requires 0 <= row < n
    ensures GlyphRows(glyph, n, width, color)[row] == Data(RowBytes(glyph, row, width, color))
  {
    if row < n - 1 {
      GlyphRowAt(glyph, n - 1, width, color, row);
    }
  }

  /** Visible columns of a cell whose left edge is `x`: six, or fewer at the right edge of the panel. */
  function CellColumns(x: U16): int {
    if x + CellWidth > LcdWidth then LcdWidth - x else CellWidth
  }

  /** Visible rows of a cell whose top edge is `y`. */
  function CellRows(y: U16): int {
    if y + CellHeight > LcdHeight then LcdHeight - y else CellHeight
  }

  /** Everything `st7735_draw_char` sends: nothing for a non-printable byte or
      an origin off the panel, otherwise the clipped cell window and then one
      data transfer per visible row. */
  function CharTransfers(font: FontTable, x: U16, y: U16, c: Byte, color: U16): (r: seq<Transfer>)
    ensures r == [] <==> !Printable(c) || x >= LcdWidth || y >= LcdHeight
  {
    if !Printable(c) || x >= LcdWidth || y >= LcdHeight then []
    else
      SetAddrWindow(x, y, x + CellColumns(x) - 1, y + CellRows(y) - 1)
        + GlyphRows(font[c - 32], CellRows(y), CellColumns(x), color)
  }

  /** A drawn cell is its clipped window followed by one transfer per visible row. */
  lemma CharTransfersShape(font: FontTable, x: U16, y: U16, c: Byte, color: U16)
    ensures var r := CharTransfers(font, x, y, c, color);
      && (r == [] <==> !Printable(c) || x >= LcdWidth || y >= LcdHeight)
      && (r != [] ==>
        && |r| == 5 + CellRows(y)
        && r[..5] == SetAddrWindow(x, y, x + CellColumns(x) - 1, y + CellRows(y) - 1))
  {
    if Printable(c) && x < LcdWidth && y < LcdHeight {
      var window := SetAddrWindow(x, y, x + CellColumns(x) - 1, y + CellRows(y) - 1);
      assert (window + GlyphRows(font[c - 32], CellRows(y), CellColumns(x), color))[..5] == window;
    }
  }

  lemma CharTransfersDrawn(font: FontTable, x: U16, y: U16, c: Byte, color: U16, x1: U16, y1: U16, glyph: Glyph)
    requires Printable(c) && x < LcdWidth && y < LcdHeight
    requires x1 == x + CellColumns(x) - 1 && y1 == y + CellRows(y) - 1 && glyph == font[c - 32]
    ensures CharTransfers(font, x, y, c, color)
      == SetAddrWindow(x, y, x1, y1) + GlyphRows(glyph, y1 - y + 1, x1 - x + 1, color)
  {
    assert x1 - x + 1 == CellColumns(x) && y1 - y + 1 == CellRows(y);
  }

  /** Pixel `(col, row)` of a drawn cell, for every visible position: the
      colour when the font bit is set, the background otherwise. */
  lemma CharPixel(font: FontTable, x: U16, y: U16, c: Byte, color: U16, col: int, row: int)
    requires Printable(c) && x < LcdWidth && y < LcdHeight
    requires 0 <= col < CellColumns(x) && 0 <= row < CellRows(y)
    ensures var t := CharTransfers(font, x, y, c, color)[5 + row];
      && t.Data? && |t.bytes| == 2 * CellColumns(x)
      && t.bytes[2 * col..2 * col + 2]
           == if col < 5 && row < 7 && GlyphBit(font[c - 32][col], row) == 1 then Be16(color) else [0, 0]
  {
    var glyph := font[c - 32];
    var bytes := RowBytes(glyph, row, CellColumns(x), color);
    RowBytesPixel(glyph, row, CellColumns(x), color, col);
    CharTransfersDrawn(font, x, y, c, color, x + CellColumns(x) - 1, y + CellRows(y) - 1, glyph);
    GlyphRowAt(glyph, CellRows(y), CellColumns(x), color, row);
    assert CharTransfers(font, x, y, c, color)[5 + row] == Data(bytes);
    assert bytes[2 * col..2 * col + 2] == Pixel(glyph, col, row, color);
  }

  /** The row buffer holds, in the little-endian memory of the CPU, the
      byte-swapped colour where a pixel is lit and 0 elsewhere: its bytes are
      the row as the panel expects it. */
  lemma {:induction false} RowImage(words: seq<U16>, glyph: Glyph, row: int, color: U16)
    requires forall col :: 0 <= col < |words| ==> words[col] == if Lit(glyph, col, row) then Swap(color) else 0
    ensures LeBytes(words) == RowBytes(glyph, row, |words|, color)
    decreases |words|
  {
    if words != [] {
      var n := |words|;
      var init, last := words[..n - 1], words[n - 1];
      assert words == init + [last];
      RowImage(init, glyph, row, color);
      LeBytesSnoc(init, last);
      PixelImage(glyph, n - 1, row, color, last);
      assert RowBytes(glyph, row, n, color) == RowBytes(glyph, row, n - 1, color) + Pixel(glyph, n - 1, row, color);
    }
  }

  /** A buffer word holding the swapped colour or 0 is, in memory, the pixel's two bytes. */
  lemma PixelImage(glyph: Glyph, col: int, row: int, color: U16, w: U16)
    requires w == if Lit(glyph, col, row) then Swap(color) else 0
    ensures Pixel(glyph, col, row, color) == [w % 256, w / 256]
  {
  }

  /** Appending a word to the buffer appends its two bytes, low byte first. */
  lemma {:induction false} LeBytesSnoc(words: seq<U16>, w: U16)
    ensures LeBytes(words + [w]) == LeBytes(words) + [w % 256, w / 256]
    decreases |words|
  {
    if words == [] {
      assert words + [w] == [w];
    } else {
      assert (words + [w])[1..] == words[1..] + [w];
      LeBytesSnoc(words[1..], w);
    }
  }

  /** `st7735_draw_char`: skips a non-printable byte or an off-panel origin,
      otherwise clips the cell, opens its window and streams its rows. */
  method DrawChar(font: FontTable, x: U16, y: U16, c: Byte, color: U16) returns (out: seq<Transfer>)
    ensures out == CharTransfers(font, x, y, c, color)
  {
    if c < 32 || c > 127 || x >= LcdWidth || y >= LcdHeight {
      return [];
    }
    var glyphIndex := c - 32;
    var x1 := x + 5;
    var y1 := y + 7;
    if x1 >= LcdWidth {
      x1 := LcdWidth - 1;
    }
    assert x1 == x + CellColumns(x) - 1;
    if y1 >= LcdHeight {
      y1 := LcdHeight - 1;
    }
    assert y1 == y + CellRows(y) - 1;
    out := SetAddrWindow(x, y, x1, y1);
    var rows := StreamCell(font[glyphIndex], x1 - x + 1, y1 - y + 1, color);
    out := out + rows;
    CharTransfersDrawn(font, x, y, c, color, x1, y1, font[glyphIndex]);
  }

  /** The row loop of `st7735_draw_char`: each row of the `width` by `height`
      cell is built in the `row_pixel` buffer, one `uint16_t` per pixel, and
      sent as one data transfer. */
  method StreamCell(glyph: Glyph, width: nat, height: nat, color: U16) returns (out: seq<Transfer>)
    requires 0 < width <= CellWidth
    ensures out == GlyphRows(glyph, height, width, color)
  {
    var rowPixel := new U16[CellWidth];
    var fg := Swap(color);
    var bg := 0;
    out := [];
    for row := 0 to height
      invariant out == GlyphRows(glyph, row, width, color)
    {
      for col := 0 to width
        invariant forall k :: 0 <= k < col ==> rowPixel[k] == if Lit(glyph, k, row) then fg else bg
      {
        var px := bg;
        if col < 5 && row < 7 {
          if GlyphBit(glyph[col], row) == 1 {
            px := fg;
          }
        }
        rowPixel[col] := px;
      }
      RowImage(rowPixel[..width], glyph, row, color);
      out := out + SendData(LeBytes(rowPixel[..width]));
    }
  }

  /** A routine that draws one character cell with its left edge at a pen position. */
  type CellDrawer = (U16, Byte) -> seq<Transfer>

  /** `st7735_draw_char` with the glyph table, row and colour fixed. */
  function CharCell(font: FontTable, y: U16, color: U16): CellDrawer {
    (px: U16, c: Byte) => CharTransfers(font, px, y, c, color)
  }

  /** The string loop of `st7735_draw_string` over any cell routine: one cell
      per byte of `str` at `x`, `x + 6`, ..., stopping at the first 0 byte
      (or the end of `str`) and before the first cell that would cross the
      right edge of the panel. */
  function Run(cell: CellDrawer, x: U16, str: seq<Byte>): seq<Transfer>
    decreases |str|
  {
    if str == [] || str[0] == 0 || x + CellWidth > LcdWidth then []
    else cell(x, str[0]) + Run(cell, x + CellWidth, str[1..])
  }

  /** Everything `st7735_draw_string` sends for the C string whose bytes are `str`. */
  function StringTransfers(font: FontTable, x: U16, y: U16, str: seq<Byte>, color: U16): seq<Transfer> {
    Run(CharCell(font, y, color), x, str)
  }

  /** `st7735_draw_string`. */
  method DrawString(font: FontTable, x: U16, y: U16, str: seq<Byte>, color: U16) returns (out: seq<Transfer>)
    ensures out == StringTransfers(font, x, y, str, color)
  {
    ghost var cell := CharCell(font, y, color);
    var penX: U16 := x;
    var i := 0;
    out := [];
    while i < |str| && str[i] != 0
      invariant 0 <= i <= |str|
      invariant out + Run(cell, penX, str[i..]) == Run(cell, x, str)
    {
      if penX + CellWidth > LcdWidth {
        break;
      }
      var drawn := DrawChar(font, penX, y, str[i], color);
      assert drawn == cell(penX, str[i]);
      RunStep(cell, out, penX, str[i..]);
      assert str[i..][1..] == str[i + 1..];
      out := out + drawn;
      penX := penX + CellWidth;
      i := i + 1;
    }
    assert out + [] == out;
  }

  lemma RunStep(cell: CellDrawer, out: seq<Transfer>, x: U16, str: seq<Byte>)
    requires str != [] && str[0] != 0 && x + CellWidth <= LcdWidth
    ensures out + Run(cell, x, str) == (out + cell(x, str[0])) + Run(cell, x + CellWidth, str[1..])
  {
    AppendAssoc(out, cell(x, str[0]), Run(cell, x + CellWidth, str[1..]));
  }

  lemma AppendAssoc<T>(a: seq<T>, b: seq<T>, c: seq<T>)
    ensures a + (b + c) == (a + b) + c
  {
  }

  /** Length of the C string held in `str`: the bytes before the first 0. */
  function TextLength(str: seq<Byte>): (n: nat)
    ensures n <= |str|
    ensures forall i :: 0 <= i < n ==> str[i] != 0
    ensures n < |str| ==> str[n] == 0
  {
    if str == [] || str[0] == 0 then 0 else 1 + TextLength(str[1..])
  }

  /** How many whole cells fit between `x` and the right edge of the panel. */
  function Fit(x: U16): (n: nat)
    ensures 6 * n <= if x < LcdWidth then LcdWidth - x else 0
    ensures x < LcdWidth ==> LcdWidth - x < 6 * (n + 1)
  {
    if x >= LcdWidth then 0 else (LcdWidth - x) / 6
  }

  /** The number of characters drawn: up to the terminator, as many as fit. */
  function Shown(x: U16, str: seq<Byte>): (n: nat)
    ensures n <= |str| && n <= Fit(x)
  {
    if TextLength(str) < Fit(x) then TextLength(str) else Fit(x)
  }

  function Concat(parts: seq<seq<Transfer>>): seq<Transfer> {
    if parts == [] then [] else parts[0] + Concat(parts[1..])
  }

  /** The cells of the first `n` characters of `str`, the `k`-th at `x + 6 * k`. */
  function Placed(cell: CellDrawer, x: U16, str: seq<Byte>, n: nat): (cells: seq<seq<Transfer>>)
    requires n <= |str| && n <= Fit(x)
    ensures |cells| == n
  {
    seq(n, k requires 0 <= k < n => cell(x + 6 * k, str[k]))
  }

  /** The string loop draws the cells of the first `Shown(x, str)`
      characters, one every 6 pixels from `x`, and nothing else. */
  lemma {:induction false} RunLayout(cell: CellDrawer, x: U16, str: seq<Byte>)
    ensures Run(cell, x, str) == Concat(Placed(cell, x, str, Shown(x, str)))
    decreases |str|
  {
    var n := Shown(x, str);
    if n == 0 {
      RunStops(cell, x, str);
    } else {
      RunCons(cell, x, str);
      var head := cell(x, str[0]);
      var rest := Placed(cell, x + CellWidth, str[1..], n - 1);
      calc {
        Run(cell, x, str);
        head + Run(cell, x + CellWidth, str[1..]);
        { RunLayout(cell, x + CellWidth, str[1..]); }
        head + Concat(rest);
        { ConcatCons(head, rest); }
        Concat([head] + rest);
        { PlacedShift(cell, x, str, n); }
        Concat(Placed(cell, x, str, n));
      }
    }
  }

  /** Nothing is drawn once the terminator is reached or no cell fits. */
  lemma RunStops(cell: CellDrawer, x: U16, str: seq<Byte>)
    requires Shown(x, str) == 0
    ensures Run(cell, x, str) == []
  {
    assert str == [] || str[0] == 0 || x + CellWidth > LcdWidth;
  }

  /** A drawn first character, and one character fewer shown from one cell further right. */
  lemma RunCons(cell: CellDrawer, x: U16, str: seq<Byte>)
    requires Shown(x, str) > 0
    ensures x + CellWidth <= LcdWidth
    ensures Run(cell, x, str) == cell(x, str[0]) + Run(cell, x + CellWidth, str[1..])
    ensures Shown(x + CellWidth, str[1..]) == Shown(x, str) - 1
  {
    assert str[0] != 0 && x + CellWidth <= LcdWidth;
    assert TextLength(str[1..]) == TextLength(str) - 1;
    assert Fit(x + CellWidth) == Fit(x) - 1;
  }

  lemma ConcatCons(head: seq<Transfer>, rest: seq<seq<Transfer>>)
    ensures Concat([head] + rest) == head + Concat(rest)
  {
    assert ([head] + rest)[1..] == rest;
  }

  /** The cells after the first are the cells of the rest of the string, one cell further right. */
  lemma PlacedShift(cell: CellDrawer, x: U16, str: seq<Byte>, n: nat)
    requires 0 < n <= |str| && n <= Fit(x)
    ensures Placed(cell, x, str, n) == [cell(x, str[0])] + Placed(cell, x + CellWidth, str[1..], n - 1)
  {
    var cells := Placed(cell, x, str, n);
    var rest := Placed(cell, x + CellWidth, str[1..], n - 1);
    forall k | 0 <= k < n - 1
      ensures cells[k + 1] == rest[k]
    {
      assert x + 6 * (k + 1) == x + CellWidth + 6 * k;
      assert str[k + 1] == str[1..][k];
    }
    assert cells == [cells[0]] + rest;
  }

  /** A string is drawn as the `draw_char` cells of its first `Shown(x, str)`
      characters, one every 6 pixels from `x`. */
  lemma StringLayout(font: FontTable, x: U16, y: U16, str: seq<Byte>, color: U16)
    ensures StringTransfers(font, x, y, str, color) == Concat(Placed(CharCell(font, y, color), x, str, Shown(x, str)))
  {
    RunLayout(CharCell(font, y, color), x, str);
  }

  /** The `k`-th cell of a string is `draw_char` of its `k`-th byte with the left edge at `x + 6 * k`. */
  lemma PlacedChar(font: FontTable, x: U16, y: U16, str: seq<Byte>, color: U16, n: nat, k: nat)
    requires n <= |str| && n <= Fit(x) && k < n
    ensures Placed(CharCell(font, y, color), x, str, n)[k] == CharTransfers(font, x + 6 * k, y, str[k], color)
  {
  }
}
