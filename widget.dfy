/** The tile widget `draw_box`: a filled rectangle, a one-pixel border whose
    colour shows the selection, and a second border two pixels inside it
    while the selected tile is being edited. */
module Widget {
  import opened CInt
  import opened St7735

  const ColorWhite: U16 := 0xFFFF
  const ColorDarkGray: U16 := 0x4208
  const ColorYellow: U16 := 0xFFE0

  /** The colour of the outer border. */
  function BorderColor(selected: bool): (c: U16)
    ensures selected <==> c == ColorWhite
    ensures !selected <==> c == ColorDarkGray
  {
    if selected then ColorWhite else ColorDarkGray
  }

  /** The edit border is drawn only for a selected tile in edit mode that is
      wide and tall enough to hold it. */
  predicate HasEditBorder(w: U16, h: U16, selected: bool, editing: bool) {
    editing && selected && w > 4 && h > 4
  }

  /** The inner border: a `w - 4` by `h - 4` outline at `(x + 2, y + 2)`.
      A tile 5 pixels wide or tall passes the `w > 4 && h > 4` guard, but
      its inner outline is 1 pixel thick and `st7735_draw_rect` draws nothing. */
  function EditBorder(x: U16, y: U16, w: U16, h: U16): (r: seq<Transfer>)
    requires w > 4 && h > 4
    ensures w == 5 || h == 5 ==> r == []
  {
    DrawRectTransfers(Wrap16(x + 2), Wrap16(y + 2), w - 4, h - 4, ColorYellow)
  }

  /** On a tile that lies on the panel, the inner border is the outline of
      the rectangle inset by 2 on every side, with no 16-bit wrap of its
      corner; `St7735.DrawRectEdges` then gives its four one-pixel edges. */
  lemma EditBorderInset(x: U16, y: U16, w: U16, h: U16)
    requires w > 5 && h > 5 && x + w <= LcdWidth && y + h <= LcdHeight
    ensures x + 2 + (w - 4) <= LcdWidth && y + 2 + (h - 4) <= LcdHeight
    ensures EditBorder(x, y, w, h) == DrawRectTransfers(x + 2, y + 2, w - 4, h - 4, ColorYellow)
  {
    assert Wrap16(x + 2) == x + 2 && Wrap16(y + 2) == y + 2;
  }

  /** Everything `draw_box` sends: the fill, the outer border, then the edit border if any. */
  function BoxTransfers(x: U16, y: U16, w: U16, h: U16, fill: U16, selected: bool, editing: bool): (r: seq<Transfer>)
    ensures var base := FillRectTransfers(x, y, w, h, fill) + DrawRectTransfers(x, y, w, h, BorderColor(selected));
      && |base| <= |r|
      && r[..|base|] == base
      && (!HasEditBorder(w, h, selected, editing) ==> r == base)
      && (HasEditBorder(w, h, selected, editing) ==> r[|base|..] == EditBorder(x, y, w, h))
  {
    FillRectTransfers(x, y, w, h, fill)
      + DrawRectTransfers(x, y, w, h, BorderColor(selected))
      + (if HasEditBorder(w, h, selected, editing) then EditBorder(x, y, w, h) else [])
  }

  /** Edit mode changes nothing on a tile that is not selected. */
  lemma EditingNeedsSelection(x: U16, y: U16, w: U16, h: U16, fill: U16)
    ensures BoxTransfers(x, y, w, h, fill, false, true) == BoxTransfers(x, y, w, h, fill, false, false)
  {
  }

  /** Edit mode only appends the inner border to the selected tile: the fill
      and the white outer border stay as they were. */
  lemma EditingAppendsBorder(x: U16, y: U16, w: U16, h: U16, fill: U16)
    requires w > 4 && h > 4
    ensures BoxTransfers(x, y, w, h, fill, true, true)
      == BoxTransfers(x, y, w, h, fill, true, false) + EditBorder(x, y, w, h)
  {
  }

  /** `draw_box`. */
  method DrawBox(x: U16, y: U16, w: U16, h: U16, fill: U16, selected: bool, editing: bool)
    returns (out: seq<Transfer>)
    ensures out == BoxTransfers(x, y, w, h, fill, selected, editing)
  {
    out := FillRect(x, y, w, h, fill);
    var border := DrawRect(x, y, w, h, if selected then ColorWhite else ColorDarkGray);
    out := out + border;
    if editing && selected && w > 4 && h > 4 {
      var inner := DrawRect(Wrap16(x + 2), Wrap16(y + 2), w - 4, h - 4, ColorYellow);
      out := out + inner;
    }
  }
}
