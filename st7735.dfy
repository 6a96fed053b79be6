/** The ST7735 display transport and rectangle primitives. The SPI bus is an
    abstract log: every routine returns the transfers it puts on the bus, in
    order, each transfer framed by the level of the DC line. */
module St7735 {
  import opened CInt

  const LcdWidth := 160
  const LcdHeight := 128
  /** `LCD_TX_CHUNK_BYTES`: the size of the fill buffer and the longest fill transfer. */
  const ChunkBytes := 32

  const CmdColumnSet: Byte := 0x2A
  const CmdRowSet: Byte := 0x2B
  const CmdMemoryWrite: Byte := 0x2C

  /** One SPI transaction: a command byte or a run of data bytes. */
  datatype Transfer = Cmd(code: Byte) | Data(bytes: seq<Byte>) {
    /** The level the DC line is driven to before the transaction. */
    function Dc(): int {
      if Cmd? then 0 else 1
    }

    /** The bytes clocked out. */
    function Wire(): seq<Byte> {
      if Cmd? then [code] else bytes
    }
  }

  /** `st7735_send_cmd`: DC low, then one byte. */
  function SendCmd(cmd: Byte): (t: seq<Transfer>)
    ensures |t| == 1 && t[0].Dc() == 0 && t[0].Wire() == [cmd]
  {
    [Cmd(cmd)]
  }

  /** `st7735_send_data`: DC high, then the bytes; nothing at all for an empty buffer. */
  function SendData(data: seq<Byte>): (t: seq<Transfer>)
    ensures |data| == 0 <==> t == []
    ensures |data| > 0 ==> |t| == 1 && t[0].Dc() == 1 && t[0].Wire() == data
  {
    if |data| == 0 then [] else [Data(data)]
  }

  /** A 16-bit value as sent to the panel: high byte first. */
  function Be16(v: U16): (b: seq<Byte>)
    ensures |b| == 2 && (b[0] as int) * 256 + (b[1] as int) == v
  {
    [v / 256, v % 256]
  }

  /** The value a two-byte big-endian field carries. */
  function Be16Value(b: seq<Byte>): int
    requires |b| == 2
  {
    (b[0] as int) * 256 + (b[1] as int)
  }

  /** `st7735_set_addr_window`: column range, row range, then start of a memory write. */
  function SetAddrWindow(x0: U16, y0: U16, x1: U16, y1: U16): (t: seq<Transfer>)
    ensures |t| == 5
    ensures t[0].Cmd? && t[2].Cmd? && t[4].Cmd?
    ensures t[1].Data? && |t[1].bytes| == 4 && t[3].Data? && |t[3].bytes| == 4
  {
    SendCmd(CmdColumnSet) + SendData(Be16(x0) + Be16(x1))
    + SendCmd(CmdRowSet) + SendData(Be16(y0) + Be16(y1))
    + SendCmd(CmdMemoryWrite)
  }

  /** The window is framed as column-set with the two column bounds, row-set
      with the two row bounds, then memory-write, each bound a big-endian
      16-bit field. */
  lemma SetAddrWindowFrames(x0: U16, y0: U16, x1: U16, y1: U16)
    ensures var t := SetAddrWindow(x0, y0, x1, y1);
      && t[0] == Cmd(CmdColumnSet) && t[2] == Cmd(CmdRowSet) && t[4] == Cmd(CmdMemoryWrite)
      && t[1].Data? && |t[1].bytes| == 4
      && Be16Value(t[1].bytes[..2]) == x0 && Be16Value(t[1].bytes[2..]) == x1
      && t[3].Data? && |t[3].bytes| == 4
      && Be16Value(t[3].bytes[..2]) == y0 && Be16Value(t[3].bytes[2..]) == y1
  {
    var t := SetAddrWindow(x0, y0, x1, y1);
    assert t[1] == Data(Be16(x0) + Be16(x1));
    assert t[3] == Data(Be16(y0) + Be16(y1));
  }

  /** `(color << 8) | (color >> 8)` truncated to 16 bits: the colour with its bytes swapped. */
  function Swap(color: U16): (r: U16)
    ensures r % 256 == color / 256 && r / 256 == color % 256
  {
    (color % 256) * 256 + color / 256
  }

  /** The bytes of a `uint16_t` buffer in the memory of the little-endian CPU,
      which is what a `(const uint8_t *)` cast of the buffer transmits. */
  function LeBytes(words: seq<U16>): (r: seq<Byte>)
    ensures |r| == 2 * |words|
  {
    if words == [] then [] else [words[0] % 256, words[0] / 256] + LeBytes(words[1..])
  }

  /** Byte `i` of the image is the low byte of word `i / 2` when `i` is even,
      its high byte when `i` is odd. */
  lemma {:induction false} LeBytesAt(words: seq<U16>, i: int)
    requires 0 <= i < 2 * |words|
    ensures LeBytes(words)[i] == if i % 2 == 0 then words[i / 2] % 256 else words[i / 2] / 256
    decreases |words|
  {
    if i >= 2 {
      LeBytesAt(words[1..], i - 2);
      assert LeBytes(words)[i] == LeBytes(words[1..])[i - 2];
      assert words[1..][(i - 2) / 2] == words[i / 2];
    }
  }

  /** `n` pixels of one colour in the panel's byte order. */
  function Solid(color: U16, n: nat): (r: seq<Byte>)
    ensures |r| == 2 * n
  {
    if n == 0 then [] else Be16(color) + Solid(color, n - 1)
  }

  /** Every even byte of the run is the colour's high byte, every odd byte its low byte. */
  lemma {:induction false} SolidAt(color: U16, n: nat, i: int)
    requires 0 <= i < 2 * n
    ensures Solid(color, n)[i] == if i % 2 == 0 then color / 256 else color % 256
    decreases n
  {
    if i >= 2 {
      SolidAt(color, n - 1, i - 2);
      assert Solid(color, n)[i] == Solid(color, n - 1)[i - 2];
    }
  }

  /** A buffer filled with the swapped colour reaches the panel as that colour,
      high byte first. */
  lemma SwappedIsSolid(color: U16, n: nat)
    ensures LeBytes(seq(n, _ => Swap(color))) == Solid(color, n)
  {
    var a, b := LeBytes(seq(n, _ => Swap(color))), Solid(color, n);
    assert |a| == |b|;
    forall i | 0 <= i < |a|
      ensures a[i] == b[i]
    {
      LeBytesAt(seq(n, _ => Swap(color)), i);
      SolidAt(color, n, i);
      assert seq(n, _ => Swap(color))[i / 2] == Swap(color);
    }
  }

  lemma SolidSplit(color: U16, m: nat, n: nat)
    ensures Solid(color, m) + Solid(color, n) == Solid(color, m + n)
  {
    var a, b := Solid(color, m) + Solid(color, n), Solid(color, m + n);
    forall i | 0 <= i < |a|
      ensures a[i] == b[i]
    {
      SolidAt(color, m + n, i);
      if i >= 2 * m {
        SolidAt(color, n, i - 2 * m);
        assert (i - 2 * m) % 2 == i % 2;
      } else {
        SolidAt(color, m, i);
      }
    }
  }

  lemma SolidPrefix(color: U16, n: nat, k: nat)
    requires k <= n
    ensures Solid(color, n)[..2 * k] == Solid(color, k)
  {
    forall i | 0 <= i < 2 * k
      ensures Solid(color, n)[i] == Solid(color, k)[i]
    {
      SolidAt(color, n, i);
      SolidAt(color, k, i);
    }
  }

  /** The bytes of the data transfers of a log, in order; commands carry none. */
  function Payload(ts: seq<Transfer>): seq<Byte> {
    if ts == [] then [] else (if ts[0].Data? then ts[0].bytes else []) + Payload(ts[1..])
  }

  /** The data transfers of the fill loop: `total` bytes of one colour, streamed
      from the 32-byte chunk buffer, a full chunk while more than a chunk is left. */
  function SolidChunks(color: U16, total: int): (r: seq<Transfer>)
    ensures r == [] <==> total <= 0
    decreases total
  {
    if total <= 0 then []
    else
      var txLen := if total > ChunkBytes then ChunkBytes else total;
      SendData(Solid(color, ChunkBytes / 2)[..txLen]) + SolidChunks(color, total - txLen)
  }

  lemma SolidChunksUnfold(color: U16, total: int)
    requires total > 0
    ensures var txLen := if total > ChunkBytes then ChunkBytes else total;
      SolidChunks(color, total)
        == SendData(Solid(color, ChunkBytes / 2)[..txLen]) + SolidChunks(color, total - txLen)
  {
  }

  /** The fill stream carries exactly `total` bytes of the colour. */
  lemma {:induction false} SolidChunksPayload(color: U16, total: int)
    requires total % 2 == 0
    ensures Payload(SolidChunks(color, total)) == Solid(color, if total <= 0 then 0 else total / 2)
    decreases total
  {
    if total > 0 {
      var txLen := if total > ChunkBytes then ChunkBytes else total;
      var rest := SolidChunks(color, total - txLen);
      SolidChunksPayload(color, total - txLen);
      var head := Solid(color, ChunkBytes / 2)[..txLen];
      var r := SolidChunks(color, total);
      assert r == [Data(head)] + rest;
      assert r[1..] == rest;
      assert Payload(r) == head + Payload(rest);
      SolidPrefix(color, ChunkBytes / 2, txLen / 2);
      SolidSplit(color, txLen / 2, (total - txLen) / 2);
    }
  }

  /** The stream is `ceil(total / 32)` data transfers. */
  lemma {:induction false} SolidChunksCount(color: U16, total: int)
    ensures |SolidChunks(color, total)| == if total <= 0 then 0 else (total + ChunkBytes - 1) / ChunkBytes
    decreases total
  {
    if total > ChunkBytes {
      SolidChunksCount(color, total - ChunkBytes);
      assert (total + ChunkBytes - 1) / ChunkBytes == 1 + (total - 1) / ChunkBytes;
    }
  }

  /** Data transfers of 1 to 32 bytes each, all of them full but the last. */
  predicate Chunked(ts: seq<Transfer>) {
    && (forall i :: 0 <= i < |ts| ==> ts[i].Data? && 0 < |ts[i].bytes| <= ChunkBytes)
    && (forall i :: 0 <= i < |ts| - 1 ==> |ts[i].bytes| == ChunkBytes)
  }

  /** The fill stream is cut into chunks of the buffer's size. */
  lemma {:induction false} SolidChunksSizes(color: U16, total: int)
    ensures Chunked(SolidChunks(color, total))
    decreases total
  {
    if total > 0 {
      var txLen := if total > ChunkBytes then ChunkBytes else total;
      var rest := SolidChunks(color, total - txLen);
      SolidChunksSizes(color, total - txLen);
      var r := SolidChunks(color, total);
      assert r == [Data(Solid(color, ChunkBytes / 2)[..txLen])] + rest;
      assert txLen < ChunkBytes ==> rest == [];
      forall i | 0 <= i < |r|
        ensures r[i].Data? && 0 < |r[i].bytes| <= ChunkBytes
        ensures i < |r| - 1 ==> |r[i].bytes| == ChunkBytes
      {
        if i > 0 {
          assert r[i] == rest[i - 1];
        }
      }
    }
  }

  /** `x + w - 1` in 16-bit arithmetic, clipped to the last pixel of a panel axis of size `limit`. */
  function ClipEnd(start: U16, len: U16, limit: int): (e: U16)
    requires 0 < len && 0 < limit <= 0x1_0000
    ensures e < limit
    ensures start + len <= 0x1_0000 ==> e == if start + len > limit then limit - 1 else start + len - 1
  {
    var e := Wrap16(start + len - 1);
    if e >= limit then limit - 1 else e
  }

  /** Bytes of pixel data `st7735_fill_rect` streams once it has clipped the window. */
  function FillBytes(x: U16, y: U16, x1: U16, y1: U16): int {
    (x1 - x + 1) * (y1 - y + 1) * 2
  }

  /** Everything `st7735_fill_rect` sends. */
  function FillRectTransfers(x: U16, y: U16, w: U16, h: U16, color: U16): (r: seq<Transfer>)
    ensures r == [] <==> x >= LcdWidth || y >= LcdHeight || w == 0 || h == 0
  {
    if x >= LcdWidth || y >= LcdHeight || w == 0 || h == 0 then []
    else
      var x1, y1 := ClipEnd(x, w, LcdWidth), ClipEnd(y, h, LcdHeight);
      SetAddrWindow(x, y, x1, y1) + SolidChunks(color, FillBytes(x, y, x1, y1))
  }

  /** How many pixels of an axis segment starting at `start` with length
      `len` lie on a panel axis of size `limit`. */
  function Visible(start: int, len: int, limit: int): (v: nat)
    requires 0 <= start < limit && 0 < len
    ensures 0 < v <= len && start + v <= limit
  {
    (if start + len > limit then limit else start + len) - start
  }

  /** Pixels in a `cw` by `ch` window. */
  function Area(cw: nat, ch: nat): nat {
    cw * ch
  }

  /** For a rectangle whose far corner does not wrap 16 bits, the fill sets the
      window to the rectangle clipped to the panel and streams exactly the
      clipped pixel count, in transfers of at most 32 bytes. */
  lemma FillRectClips(x: U16, y: U16, w: U16, h: U16, color: U16)
    requires x < LcdWidth && y < LcdHeight && w > 0 && h > 0
    requires x + w <= 0x1_0000 && y + h <= 0x1_0000
    ensures var r, n := FillRectTransfers(x, y, w, h, color), Area(Visible(x, w, LcdWidth), Visible(y, h, LcdHeight));
      && 5 <= |r| && |r| == 5 + (n * 2 + ChunkBytes - 1) / ChunkBytes
      && r[..5] == SetAddrWindow(x, y, x + Visible(x, w, LcdWidth) - 1, y + Visible(y, h, LcdHeight) - 1)
      && Payload(r[5..]) == Solid(color, n)
      && Chunked(r[5..])
  {
    var cw, ch := Visible(x, w, LcdWidth), Visible(y, h, LcdHeight);
    var x1, y1 := ClipEnd(x, w, LcdWidth), ClipEnd(y, h, LcdHeight);
    assert x1 == x + cw - 1 && y1 == y + ch - 1;
    var n := Area(cw, ch);
    assert n > 0 by {
      MulPositive(cw, ch);
    }
    var total := n * 2;
    assert FillBytes(x, y, x1, y1) == total;
    var chunks := SolidChunks(color, total);
    SolidChunksPayload(color, total);
    SolidChunksSizes(color, total);
    SolidChunksCount(color, total);
    FillRectStart(x, y, w, h, color);
    var r := FillRectTransfers(x, y, w, h, color);
    assert r == SetAddrWindow(x, y, x1, y1) + chunks;
    assert r[5..] == chunks;
    assert r[..5] == SetAddrWindow(x, y, x1, y1);
  }

  lemma MulPositive(a: int, b: int)
    requires a > 0 && b > 0
    ensures a * b > 0
  {
  }

  /** A rectangle whose right edge alone wraps 16 bits gets a window whose end
      lies before its start and no pixel data at all. */
  lemma FillRectWrapSendsNoPixels(x: U16, y: U16, w: U16, h: U16, color: U16)
    requires x < LcdWidth && y < LcdHeight && w > 0 && h > 0
    requires x + w > 0x1_0000 && y + h <= 0x1_0000
    ensures ClipEnd(x, w, LcdWidth) < x
    ensures FillRectTransfers(x, y, w, h, color) == SetAddrWindow(x, y, ClipEnd(x, w, LcdWidth), ClipEnd(y, h, LcdHeight))
  {
    var x1, y1 := ClipEnd(x, w, LcdWidth), ClipEnd(y, h, LcdHeight);
    assert Wrap16(x + w - 1) == x + w - 1 - 0x1_0000;
    assert x1 - x + 1 <= 0 && y1 - y + 1 >= 1;
    assert FillBytes(x, y, x1, y1) <= 0 by {
      MulNonPositive(x1 - x + 1, y1 - y + 1);
    }
    assert SolidChunks(color, FillBytes(x, y, x1, y1)) == [];
  }

  lemma MulNonPositive(a: int, b: int)
    requires a <= 0 && b > 0
    ensures a * b * 2 <= 0
  {
  }

  /** `st7735_fill_rect`: clip, fill the chunk buffer, set the window and stream
      the pixel bytes in chunk-sized transfers. */
  method FillRect(x: U16, y: U16, w: U16, h: U16, color: U16) returns (out: seq<Transfer>)
    ensures out == FillRectTransfers(x, y, w, h, color)
  {
    if x >= LcdWidth || y >= LcdHeight || w == 0 || h == 0 {
      return [];
    }
    var x1 := Wrap16(x + w - 1);
    var y1 := Wrap16(y + h - 1);
    if x1 >= LcdWidth {
      x1 := LcdWidth - 1;
    }
    if y1 >= LcdHeight {
      y1 := LcdHeight - 1;
    }
    assert x1 == ClipEnd(x, w, LcdWidth) && y1 == ClipEnd(y, h, LcdHeight);

    var chunk := new U16[ChunkBytes / 2];
    var swapped := Swap(color);
    for i := 0 to ChunkBytes / 2
      invariant forall k :: 0 <= k < i ==> chunk[k] == swapped
    {
      chunk[i] := swapped;
    }
    // The buffer as the bytes the `(const uint8_t *)` cast hands to `send_data`.
    var image := LeBytes(chunk[..]);
    ChunkImage(chunk[..], color);

    out := SetAddrWindow(x, y, x1, y1);
    var totalBytes := FillBytes(x, y, x1, y1);
    ghost var sent := out + SolidChunks(color, totalBytes);
    while totalBytes > 0
      invariant out + SolidChunks(color, totalBytes) == sent
      decreases totalBytes
    {
      var txLen := if totalBytes > ChunkBytes then ChunkBytes else totalBytes;
      StreamStep(out, color, totalBytes);
      out := out + SendData(image[..txLen]);
      totalBytes := totalBytes - txLen;
    }
    assert out + [] == out;
  }

  lemma ChunkImage(chunk: seq<U16>, color: U16)
    requires |chunk| == ChunkBytes / 2
    requires forall k :: 0 <= k < |chunk| ==> chunk[k] == Swap(color)
    ensures LeBytes(chunk) == Solid(color, ChunkBytes / 2)
  {
    assert chunk == seq(ChunkBytes / 2, _ => Swap(color));
    SwappedIsSolid(color, ChunkBytes / 2);
  }

  lemma FillRectStart(x: U16, y: U16, w: U16, h: U16, color: U16)
    requires x < LcdWidth && y < LcdHeight && 0 < w && 0 < h
    ensures var x1, y1 := ClipEnd(x, w, LcdWidth), ClipEnd(y, h, LcdHeight);
      FillRectTransfers(x, y, w, h, color)
        == SetAddrWindow(x, y, x1, y1) + SolidChunks(color, FillBytes(x, y, x1, y1))
  {
  }

  lemma StreamStep(out: seq<Transfer>, color: U16, total: int)
    requires total > 0
    ensures var txLen := if total > ChunkBytes then ChunkBytes else total;
      out + SolidChunks(color, total)
        == (out + SendData(Solid(color, ChunkBytes / 2)[..txLen])) + SolidChunks(color, total - txLen)
  {
    SolidChunksUnfold(color, total);
  }

  /** Everything `st7735_draw_rect` sends: top, bottom, left and right edges. */
  function DrawRectTransfers(x: U16, y: U16, w: U16, h: U16, color: U16): (r: seq<Transfer>)
    ensures w < 2 || h < 2 ==> r == []
  {
    if w < 2 || h < 2 then []
    else
      FillRectTransfers(x, y, w, 1, color)
      + FillRectTransfers(x, Wrap16(y + h - 1), w, 1, color)
      + FillRectTransfers(x, y, 1, h, color)
      + FillRectTransfers(Wrap16(x + w - 1), y, 1, h, color)
  }

  /** What a fill of an on-panel `w` by `h` rectangle sends: its exact
      window and then its `w * h` pixels. */
  function OnPanelFill(x: U16, y: U16, w: U16, h: U16, color: U16): seq<Transfer>
    requires 0 < w && 0 < h && x + w <= LcdWidth && y + h <= LcdHeight
  {
    SetAddrWindow(x, y, x + w - 1, y + h - 1) + SolidChunks(color, 2 * (w * h))
  }

  /** One edge of an outline: a one-pixel-wide window streamed with its own pixels. */
  lemma EdgeFill(x: U16, y: U16, w: U16, h: U16, color: U16)
    requires (w == 1 || h == 1) && 0 < w && 0 < h && x + w <= LcdWidth && y + h <= LcdHeight
    ensures FillRectTransfers(x, y, w, h, color) == OnPanelFill(x, y, w, h, color)
  {
    assert FillBytes(x, y, x + w - 1, y + h - 1) == 2 * (w * h);
  }

  /** An outline that lies on the panel is four one-pixel-wide windows (top,
      bottom, left, right), each streamed with exactly its own pixel count. */
  lemma DrawRectEdges(x: U16, y: U16, w: U16, h: U16, color: U16)
    requires 2 <= w && 2 <= h && x + w <= LcdWidth && y + h <= LcdHeight
    ensures DrawRectTransfers(x, y, w, h, color)
      == OnPanelFill(x, y, w, 1, color) + OnPanelFill(x, y + h - 1, w, 1, color)
       + OnPanelFill(x, y, 1, h, color) + OnPanelFill(x + w - 1, y, 1, h, color)
  {
    var bottom, right := y + h - 1, x + w - 1;
    assert Wrap16(y + h - 1) == bottom && Wrap16(x + w - 1) == right;
    assert DrawRectTransfers(x, y, w, h, color)
      == FillRectTransfers(x, y, w, 1, color) + FillRectTransfers(x, bottom, w, 1, color)
       + FillRectTransfers(x, y, 1, h, color) + FillRectTransfers(right, y, 1, h, color);
    EdgeFill(x, y, w, 1, color);
    EdgeFill(x, bottom, w, 1, color);
    EdgeFill(x, y, 1, h, color);
    EdgeFill(right, y, 1, h, color);
  }

  /** `st7735_draw_rect`. */
  method DrawRect(x: U16, y: U16, w: U16, h: U16, color: U16) returns (out: seq<Transfer>)
    ensures out == DrawRectTransfers(x, y, w, h, color)
  {
    if w < 2 || h < 2 {
      return [];
    }
    var top := FillRect(x, y, w, 1, color);
    var bottom := FillRect(x, Wrap16(y + h - 1), w, 1, color);
    var left := FillRect(x, y, 1, h, color);
    var right := FillRect(Wrap16(x + w - 1), y, 1, h, color);
    out := top + bottom + left + right;
  }

  /** `st7735_fill_screen`: one full-panel window and 160 * 128 pixels in 1280 full chunks. */
  method FillScreen(color: U16) returns (out: seq<Transfer>)
    ensures |out| == 5 + 1280
    ensures out[..5] == SetAddrWindow(0, 0, LcdWidth - 1, LcdHeight - 1)
    ensures Payload(out[5..]) == Solid(color, LcdWidth * LcdHeight)
    ensures forall i :: 5 <= i < |out| ==> out[i] == Data(Solid(color, ChunkBytes / 2))
  {
    out := FillRect(0, 0, LcdWidth, LcdHeight, color);
    FillRectClips(0, 0, LcdWidth, LcdHeight, color);
    FullChunks(color, LcdWidth * LcdHeight * 2);
    assert out[5..] == SolidChunks(color, LcdWidth * LcdHeight * 2);
    forall i | 5 <= i < |out|
      ensures out[i] == Data(Solid(color, ChunkBytes / 2))
    {
      assert out[i] == out[5..][i - 5];
    }
  }

  /** A byte count that is a whole number of chunks is sent as full chunks only. */
  lemma {:induction false} FullChunks(color: U16, total: nat)
    requires total % ChunkBytes == 0
    ensures forall i :: 0 <= i < |SolidChunks(color, total)| ==>
      SolidChunks(color, total)[i] == Data(Solid(color, ChunkBytes / 2))
    decreases total
  {
    if total > 0 {
      FullChunks(color, total - ChunkBytes);
      var full := Solid(color, ChunkBytes / 2);
      assert full[..ChunkBytes] == full;
      var rest := SolidChunks(color, total - ChunkBytes);
      var r := SolidChunks(color, total);
      assert r == [Data(full)] + rest;
      forall i | 0 <= i < |r|
        ensures r[i] == Data(full)
      {
        if i > 0 {
          assert r[i] == rest[i - 1];
        }
      }
    }
  }
}
