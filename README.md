# Spot-welder UI core: encoder, menu editor, ST7735 drawing

A Dafny model of the user-interface core of an ESP32 spot-welder controller,
`main/main.c`. It drives a 160 by 128 ST7735 colour panel over SPI and reads
a rotary quadrature encoder with a push button. The model covers four parts.

- **Quadrature decoder** (`encoder.dfy`). The pin-change interrupt looks up
  a 16-entry table by previous and new 2-bit pin state. It adds the entry to
  the shared `int8_t` delta and to the debug counter, then stores the new
  state. The globals are the fields of class `Encoder.Decoder`.
- **Step aggregation and menu editor** (`task.dfy`, `menu.dfy`). One pass
  of `ui_task` is `Task.UiTask.Tick`. It drains the delta into an `int8_t`
  accumulator and turns it into whole steps, with C's truncating `/` and
  `%`. It applies the steps with `apply_encoder_steps`, which is
  `Menu.UiState.ApplyEncoderSteps`, proved against `Menu.Stepped`. It
  toggles edit mode on a falling edge of the polled button and redraws when
  something changed.
- **Display transport and primitives** (`st7735.dfy`). The SPI bus is a
  log of transfers: `Cmd(b)` is a command byte sent with DC low, and
  `Data(bytes)` is a data burst sent with DC high. Each drawing routine is a
  method that returns the transfers it issues. It is proved equal to a
  specification function, and lemmas state that function's framing, window
  and byte counts.
- **Glyphs, text, the tile widget and number formatting** (`text.dfy`,
  `widget.dfy`, `format.dfy`).

`c_int.dfy` holds the C integer semantics used throughout:
- `int8_t` and `uint16_t` wrap-around;
- division and remainder that truncate toward zero;
- `clamp_i`.

The firmware as written in `main/main.c`:
- shows one screen of six tiles (`FIELD_COUNT` is 6), with no further
  screens or menu items;
- uses the button only to toggle `edit_mode`;
- clamps pulse 1 and pulse 2 to 0-200, the interval to 1-500, the charge
  voltage to 300-1000 and the setting level to 0-9 (main/main.c:494-511);
- drains the shared encoder delta with a plain read followed by a clear
  (main/main.c:529-532), not an atomic exchange;
- renders text at scale 1 only.

## Model

| member | source | states |
|---|---|---|
| CInt.Wrap8 | main/main.c:534-536 | the `int8_t` conversion lands in [-128, 127], differs from its argument by a multiple of 256, and is the identity on values already in range |
| CInt.Wrap16 | main/main.c:181-182 | the `uint16_t` conversion differs from its argument by a multiple of 65536 and is the identity on values in range |
| CInt.TruncDiv | main/main.c:535 | the quotient's multiple of the divisor lies between 0 and the dividend and within one divisor of it: truncation toward zero |
| CInt.TruncRem | main/main.c:536 | dividend = divisor * quotient + remainder; the remainder is below the divisor in magnitude and has the dividend's sign or is 0 |
| CInt.TruncDivUnique | main/main.c:535-536 | any split `a == b*q + r` whose remainder has the dividend's sign and is below `b` in magnitude is the truncating quotient and remainder |
| CInt.Clamp | main/main.c:466-475 | the result lies in [lo, hi] when lo <= hi; a value in range is unchanged; a value below lo gives lo; otherwise a value above hi gives hi; the result is always the value, lo or hi |
| Encoder.Sample | main/main.c:362-364 | the 2-bit state holds pin A in bit 1 and pin B in bit 0 |
| Encoder.Index | main/main.c:365 | `(prev << 2) \| next` is a valid index of the 16-entry table, with `prev` and `next` recoverable from it |
| Encoder.Transition | main/main.c:355-360 | the table entry is +1 for a forward quarter-step of the Gray sequence, -1 for a backward one and 0 otherwise; it is 0 exactly for the same state or a double flip; the phase moves by the entry modulo 4 |
| Encoder.TransitionAntisymmetric | main/main.c:355-360 | `table[p<<2\|n] == -table[n<<2\|p]` for all states |
| Encoder.Decoder.constructor | main/main.c:386-388 | `encoder_init` seeds the state from the sampled pins; delta and counter start at 0 |
| Encoder.Decoder.Isr | main/main.c:352-370 | the new state is the sampled one; delta gets the table entry with `int8_t` wrap; counter gets the same entry |
| Encoder.NetTracksPhase | main/main.c:355-360 | with no double flip, the net count over any run of interrupts equals the change of phase modulo 4 |
| Encoder.DeltaIsWrappedNet | main/main.c:367-369 | between drains the delta is the `int8_t`-wrapped sum of every interrupt's entry: none is lost or counted twice |
| Encoder.FullCycleAddsFour | main/main.c:355-360 | four forward quarter-steps through all states add exactly 4 |
| Menu.InitialInRange | main/main.c:71-80 | the initial `g_ui` has every field inside its range and the cursor on a tile |
| Menu.Stepped | main/main.c:477-517 | zero steps change nothing; navigation sets `selected` to `(selected + steps) mod 6` and keeps every field; editing changes only the selected field, clamped to its range (charge by 5 per step), flips weld mode once, keeps `selected` and `edit_mode`; in-range states stay in range |
| Menu.EditSaturates | main/main.c:494-511 | in edit mode a numeric field at its highest value stays there for any forward turn, and one at its lowest value stays there for any backward turn |
| Menu.NavigationComposes | main/main.c:484-489 | for any `a` and `b`, including zero, navigating `a` steps and then `b` steps lands where `a + b` steps do |
| Menu.NavigationExample | main/main.c:484-489 | seven steps back from the first tile reach the last tile; thirteen forward reach the second |
| Menu.UiState.constructor | main/main.c:71-80 | `g_ui` starts at its static initialiser |
| Menu.UiState.ApplyEncoderSteps | main/main.c:477-517 | returns `steps != 0`, and the new state is `Stepped(old state, steps)`, including the `while (n < 0)` normalisation loop |
| Task.Aggregate | main/main.c:534-536 | the wrapped sum is `4*steps + accum`; the new accum is in [-3, 3] and has the sum's sign or is 0; without overflow the drained delta is fully accounted for |
| Task.TogglesNeedReleases | main/main.c:542-548 | over any run of button samples, edit mode toggles at most once per sample at the released level, plus once if `sw_last` was 1 before the run |
| Task.HeldButtonTogglesOnce | main/main.c:542-548 | pressing and holding the button for any number of ticks toggles edit mode exactly once |
| Task.HeldLowNeverToggles | main/main.c:542-548 | a button already held low toggles nothing however long it stays low |
| Task.RemainderCarries | main/main.c:529-536 | over a run of drains that never overflow `int8_t`, `4 * total steps + final accum == initial accum + sum of deltas` |
| Task.UiTask.constructor | main/main.c:523-526 | `accum = 0`, `sw_last = 1`, `dirty = true` |
| Task.UiTask.Tick | main/main.c:528-553 | the delta is cleared; accum and the UI state follow `Aggregate` and `Stepped`; edit mode flips exactly on a 1-to-0 button edge; `sw_last` becomes the sample; a redraw happens exactly when dirty, when whole steps were applied, or on the edge; dirty ends false |
| St7735.SendCmd | main/main.c:132-139 | one transfer with DC low carrying the command byte |
| St7735.SendData | main/main.c:141-152 | nothing for an empty buffer, otherwise one transfer with DC high carrying the bytes |
| St7735.Be16 | main/main.c:158-161 | two bytes, high byte first, that spell the value |
| St7735.SetAddrWindow | main/main.c:154-173 | `st7735_set_addr_window` is five transfers: a command, four data bytes, a command, four data bytes, a command |
| St7735.SetAddrWindowFrames | main/main.c:154-173 | the window is 0x2A with x0 and x1 as big-endian fields, 0x2B with y0 and y1, then 0x2C |
| St7735.Swap | main/main.c:191 | the colour with its two bytes exchanged |
| St7735.LeBytesAt | main/main.c:200 | the `(const uint8_t *)` view of a `uint16_t` buffer on the little-endian CPU is each word low byte first |
| St7735.SwappedIsSolid | main/main.c:190-194 | a buffer filled with the swapped colour reaches the panel as the colour, high byte first |
| St7735.SolidChunks | main/main.c:196-202 | the fill loop sends nothing exactly when `total_bytes` is 0 or less |
| St7735.SolidChunksPayload | main/main.c:196-202 | the fill loop streams exactly `total_bytes` bytes of the colour |
| St7735.SolidChunksCount | main/main.c:196-202 | the fill loop issues `ceil(total_bytes / 32)` transfers |
| St7735.SolidChunksSizes | main/main.c:196-202 | each fill transfer carries 1 to 32 bytes, all of them 32 except the last |
| St7735.ClipEnd | main/main.c:181-188 | the clipped end coordinate is on the panel, and is `min(start + len - 1, limit - 1)` when the sum does not wrap |
| St7735.FillRectTransfers | main/main.c:177-179 | a fill sends nothing exactly when `x >= 160`, `y >= 128`, `w == 0` or `h == 0` |
| St7735.FillRectClips | main/main.c:175-203 | when `x`, `y` are on the panel, `w`, `h` are non-zero and neither `x + w - 1` nor `y + h - 1` wraps 16 bits, the window is `[x, min(x+w-1,159)] x [y, min(y+h-1,127)]`, the data is exactly the clipped pixel count of the colour, in chunks of at most 32 bytes |
| St7735.FillRectWrapSendsNoPixels | main/main.c:181-197 | when `x + w - 1` wraps 16 bits and `y + h - 1` does not, the window's end precedes its start and no pixel data follows |
| St7735.FillRect | main/main.c:175-203 | the transfers issued are `FillRectTransfers` |
| St7735.DrawRectTransfers | main/main.c:207-209 | an outline narrower or shorter than 2 pixels sends nothing |
| St7735.DrawRectEdges | main/main.c:205-214 | an outline on the panel is four one-pixel windows (top, bottom, left, right), each streamed with exactly its own pixels |
| St7735.DrawRect | main/main.c:205-214 | the transfers issued are `DrawRectTransfers` |
| St7735.FillScreen | main/main.c:216-219 | one full-panel window and 160 * 128 pixels of the colour, in 1280 full 32-byte transfers |
| St7735.FullChunks | main/main.c:196-202 | a byte count that is a multiple of 32 is streamed as full chunks only |
| Text.GlyphBit | main/main.c:248 | `(bits >> row) & 1` is 0 or 1 |
| Text.GlyphBitIsShift | main/main.c:248 | the bit taken by repeated halving is `(bits / 2^row) % 2`, the value of `(bits >> row) & 1` for a non-negative byte |
| Text.RowBytesPixel | main/main.c:244-254 | pixel `col` of a row occupies bytes `2*col` and `2*col + 1` of the row's data |
| Text.GlyphRowAt | main/main.c:244-255 | row `row` of a cell is one data transfer holding that row's pixels |
| Text.CharTransfers | main/main.c:221-256 | `st7735_draw_char` sends nothing exactly when the byte is not printable or the origin is off the panel |
| Text.CharTransfersShape | main/main.c:221-256 | a cell is nothing for a non-printable byte or an off-panel origin; otherwise its window `[x, x+w-1] x [y, y+h-1]` followed by one transfer per visible row |
| Text.CharPixel | main/main.c:221-256 | pixel (col, row) of a drawn cell is the colour exactly when `col < 5`, `row < 7` and bit `row` of the glyph column is set, and black otherwise; the row has `min(6, 160-x)` pixels |
| Text.RowImage | main/main.c:244-254 | the `row_pixel` buffer's memory image is the row's pixels as the panel expects them |
| Text.DrawChar | main/main.c:221-256 | the transfers issued are `CharTransfers` |
| Text.StreamCell | main/main.c:238-255 | the row loops issue `GlyphRows` of the glyph: one transfer per row, built in `row_pixel` |
| Text.DrawString | main/main.c:258-268 | the transfers issued are `StringTransfers` |
| Text.TextLength | main/main.c:260 | the C string length is the index of the first 0 byte, or the whole buffer |
| Text.Fit | main/main.c:261-263 | the number of 6-pixel cells that fit between `x` and the right edge |
| Text.RunLayout | main/main.c:258-268 | the string loop draws the cells of the first `min(length, cells that fit)` characters, at `x`, `x + 6`, ..., and nothing else |
| Text.StringLayout | main/main.c:258-268 | the same, for the `draw_char` cells |
| Text.PlacedChar | main/main.c:264-266 | the `k`-th cell drawn is `draw_char` of the `k`-th byte at `x + 6*k` |
| Widget.BorderColor | main/main.c:398 | white exactly when selected, dark grey exactly when not |
| Widget.EditBorder | main/main.c:399-401 | a tile 5 pixels wide or tall passes the size guard but its inner outline sends nothing |
| Widget.EditBorderInset | main/main.c:399-401 | on a tile that lies on the panel and is larger than 5 by 5, the inner border is the outline inset by 2 pixels on each side, with no 16-bit wrap |
| Widget.BoxTransfers | main/main.c:395-402 | a tile is its fill, then its outline in the selection colour, then the yellow inner outline exactly when selected, editing and larger than 4 by 4 |
| Widget.EditingNeedsSelection | main/main.c:399 | edit mode changes nothing on an unselected tile |
| Widget.EditingAppendsBorder | main/main.c:399-401 | edit mode on the selected tile only appends the inner outline |
| Widget.DrawBox | main/main.c:395-402 | the transfers issued are `BoxTransfers` |
| Format.NatText | main/main.c:408 | `%d` of a non-negative value is a non-empty run of digits with no leading zero |
| Format.IntText | main/main.c:408 | `%d` starts with a minus sign exactly when the value is negative |
| Format.Pad2 | main/main.c:415 | `%02d` is exactly two digits |
| Format.Frac | main/main.c:407 | the printed fraction is in [0, scale); `format_2decimal` computes it the same way at main/main.c:414 |
| Format.NatTextValue | main/main.c:408 | the digits of `%d` spell the value |
| Format.Pad2Value | main/main.c:415 | the digits of `%02d` spell the value |
| Format.ReadFixedParts | main/main.c:408 | `[-]whole.frac` reads back as the signed number its parts spell |
| Format.WholeText | main/main.c:406-408 | outside (-scale, 0), the whole part prints with a minus sign exactly when the value is negative, and the fraction is the magnitude's remainder |
| Format.Format1Decimal | main/main.c:404-409 | `format_1decimal` as written ends in a point and one digit, and starts with a minus sign exactly when the argument is -10 or less |
| Format.Format2Decimal | main/main.c:411-416 | `format_2decimal` as written ends in a point and two digits, and starts with a minus sign exactly when the argument is -100 or less |
| Format.Format1DecimalReads | main/main.c:404-409 | the as-written `format_1decimal` reads back as its argument exactly when the argument is outside (-10, 0); inside, it reads back as the magnitude |
| Format.Format2DecimalReads | main/main.c:411-416 | the as-written `format_2decimal` reads back as its argument exactly when the argument is outside (-100, 0); inside, it reads back as the magnitude |
| Format.Format1DecimalDropsSign | main/main.c:404-409 | -0.5 in tenths is printed "0.5" |
| Format.Format2DecimalDropsSign | main/main.c:411-416 | -0.05 in hundredths is printed "0.05" |
| Format.Format1DecimalSignedReads | main/main.c:404-409 | the corrected 1-decimal formatter reads back as its argument for every `int` |
| Format.Format2DecimalSignedReads | main/main.c:411-416 | the corrected 2-decimal formatter reads back as its argument for every `int` |
| Format.Format1Agrees | main/main.c:404-409 | outside (-10, 0) the corrected and the as-written formatter print the same text |
| Format.Format2Agrees | main/main.c:411-416 | outside (-100, 0) the corrected and the as-written formatter print the same text |
| Format.Format1DecimalFits | main/main.c:404-409 | any 32-bit value prints in fewer than 20 characters, so the 20-byte buffer of `render_ui` never truncates |
| Format.Format2DecimalFits | main/main.c:411-416 | the same for `format_2decimal` |

## Left out

- `main/app_main.c` is not part of this model. It only calls initialisers
  from headers that are not available and runs a logging loop.
- Bring-up and timing are left out because they are configuration only.
  This covers `st7735_init`, `backlight_init`, `display_init`, the GPIO and
  ISR registration of `encoder_init` (main/main.c:270-393), and the
  `vTaskDelay`/`vTaskDelayUntil` calls.
- Logging is left out: the `ESP_LOGI` call that reports the mode and the
  selected tile on a button edge (main/main.c:546) has no effect on the
  state or on the panel.
- `render_ui` (main/main.c:418-464) is left out: it is a fixed layout of
  tiles and sensor strings. The formatters it uses, and the 20-byte buffer
  they must fit, are modelled.
- Concurrency is not modelled. The interrupt is a sequential step, and a
  `Tick` drains the delta as one step. An interrupt between the read and
  the clear at main/main.c:529-532, which the source does not guard, is
  outside the model.
- Hardware calls are parameters. The SPI bus is the returned transfer log,
  and pin levels and button samples are arguments. The `esp_err_t` results
  of the transport are ignored by every modelled caller and are not modelled.
- `int` and the debug `counter` are unbounded integers. The source's
  32-bit width matters only for the formatters, whose bounds lemmas require
  a 32-bit argument.
- The CPU's little-endian layout is an assumption of `St7735.LeBytes`. The
  `(const uint8_t *)` casts of the `uint16_t` buffers send each word low
  byte first.
- C strings are `seq<Byte>`. The end of the sequence acts as a terminator
  when no 0 byte precedes it. `char` signedness does not matter: bytes
  outside 32..127 are skipped either way.
- The glyph table is a parameter of `Text.DrawChar` and `Text.DrawString`,
  so the properties hold for any 96-entry 5-column table. `Text.Font`
  holds the firmware's table (main/main.c:82-130). The rendering
  properties are not proved about its individual glyphs.
- `snprintf` is modelled by the digit strings it produces for `%d` and
  `%02d`, not by a printf engine. The formatters return their text instead
  of writing a caller's buffer.
- Widget.EditBorderInset: states the inner outline as the inset
  `DrawRectTransfers` rather than its four edges. `St7735.DrawRectEdges`
  gives the edges of any on-panel outline.

## Findings

| source | as written | input that shows it | evidently intended | confidence | as-written member | corrected member |
|---|---|---|---|---|---|---|
| main/main.c:404-409 | the whole part `tenths / 10` truncates to 0 for -9..-1, so `%d` prints no sign, and the fraction is printed as a magnitude | `format_1decimal(-5)` prints `0.5` | `-0.5`: a minus sign before the magnitude whenever the value is negative | not executed; every value the firmware formats is clamped to be non-negative | Format.Format1DecimalDropsSign | Format.Format1DecimalSignedReads |
| main/main.c:411-416 | the same for hundredths: -99..-1 lose their sign | `format_2decimal(-5)` prints `0.05` | `-0.05` | not executed; every value the firmware formats is clamped to be non-negative | Format.Format2DecimalDropsSign | Format.Format2DecimalSignedReads |
