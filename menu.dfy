/** The menu state (`ui_state_t`) and the field editor `apply_encoder_steps`:
    one screen of six tiles, a selection cursor that wraps, and per-field
    saturating edits. */
module Menu {
  import opened CInt

  /** `field_id_t`: tile identifiers, in the order the cursor visits them. */
  const FieldPulse1 := 0
  const FieldPulse2 := 1
  const FieldInterval := 2
  const FieldWeldMode := 3
  const FieldChargeV := 4
  const FieldSettings := 5
  const FieldCount := 6

  /** A snapshot of `ui_state_t`. */
  datatype UiValue = UiValue(
    pulse1Tenths: int,
    pulse2Tenths: int,
    intervalTenths: int,
    weldAuto: int,
    chargeCent: int,
    settingLevel: int,
    selected: int,
    editMode: bool)

  /** The initialiser of `g_ui`. */
  const Initial := UiValue(50, 0, 10, 1, 540, 3, FieldPulse1, false)

  /** The stored value that tile `f` shows and edits. */
  function FieldValue(u: UiValue, f: int): int
    requires 0 <= f < FieldCount
  {
    match f
    case 0 => u.pulse1Tenths
    case 1 => u.pulse2Tenths
    case 2 => u.intervalTenths
    case 3 => u.weldAuto
    case 4 => u.chargeCent
    case 5 => u.settingLevel
  }

  /** Every tile except the weld-mode switch holds a clamped number. */
  predicate Numeric(f: int) {
    0 <= f < FieldCount && f != FieldWeldMode
  }

  /** Lowest value of a numeric field. */
  function Low(f: int): int
    requires Numeric(f)
  {
    if f == FieldInterval then 1 else if f == FieldChargeV then 300 else 0
  }

  /** Highest value of a numeric field. */
  function High(f: int): int
    requires Numeric(f)
  {
    if f == FieldInterval then 500
    else if f == FieldChargeV then 1000
    else if f == FieldSettings then 9
    else 200
  }

  /** How far one logical step moves a numeric field. */
  function Unit(f: int): int
    requires Numeric(f)
  {
    if f == FieldChargeV then 5 else 1
  }

  /** Every field inside its domain and the cursor on a tile. */
  predicate InRange(u: UiValue) {
    && 0 <= u.selected < FieldCount
    && (u.weldAuto == 0 || u.weldAuto == 1)
    && forall f :: 0 <= f < FieldCount && Numeric(f) ==> Low(f) <= FieldValue(u, f) <= High(f)
  }

  lemma InitialInRange()
    ensures InRange(Initial)
  {
    forall f | Numeric(f)
      ensures Low(f) <= FieldValue(Initial, f) <= High(f)
    {
    }
  }

  /** The effect of `apply_encoder_steps` on the state. */
  function Stepped(u: UiValue, steps: int): (r: UiValue)
    ensures steps == 0 ==> r == u
    ensures r.editMode == u.editMode
    ensures !u.editMode && steps != 0 ==>
      && 0 <= r.selected < FieldCount
      && (r.selected - (u.selected + steps)) % FieldCount == 0
      && forall f :: 0 <= f < FieldCount ==> FieldValue(r, f) == FieldValue(u, f)
    ensures u.editMode ==> r.selected == u.selected
    ensures u.editMode ==>
      forall f :: 0 <= f < FieldCount && f != u.selected ==> FieldValue(r, f) == FieldValue(u, f)
    ensures u.editMode && !(0 <= u.selected < FieldCount) ==> r == u
    ensures u.editMode && steps != 0 && Numeric(u.selected) ==>
      FieldValue(r, u.selected)
        == Clamp(FieldValue(u, u.selected) + Unit(u.selected) * steps, Low(u.selected), High(u.selected))
    ensures u.editMode && steps != 0 && u.selected == FieldWeldMode ==>
      r.weldAuto == (if u.weldAuto == 0 then 1 else 0)
    ensures InRange(u) ==> InRange(r)
  {
    if steps == 0 then u
    else if !u.editMode then u.(selected := (u.selected + steps) % FieldCount)
    else
      match u.selected
      case 0 => u.(pulse1Tenths := Clamp(u.pulse1Tenths + steps, 0, 200))
      case 1 => u.(pulse2Tenths := Clamp(u.pulse2Tenths + steps, 0, 200))
      case 2 => u.(intervalTenths := Clamp(u.intervalTenths + steps, 1, 500))
      case 3 => u.(weldAuto := if u.weldAuto == 0 then 1 else 0)
      case 4 => u.(chargeCent := Clamp(u.chargeCent + steps * 5, 300, 1000))
      case 5 => u.(settingLevel := Clamp(u.settingLevel + steps, 0, 9))
      case _ => u
  }

  /** Editing saturates: a numeric field at its highest value stays there
      however far the knob turns forward, and one at its lowest value stays
      there however far it turns back. */
  lemma EditSaturates(u: UiValue, steps: int)
    requires u.editMode && Numeric(u.selected)
    ensures steps > 0 && FieldValue(u, u.selected) == High(u.selected) ==>
      FieldValue(Stepped(u, steps), u.selected) == High(u.selected)
    ensures steps < 0 && FieldValue(u, u.selected) == Low(u.selected) ==>
      FieldValue(Stepped(u, steps), u.selected) == Low(u.selected)
  {
    var f := u.selected;
    if steps > 0 {
      assert Unit(f) * steps > 0 by { MulAtLeast(Unit(f), steps); }
    } else if steps < 0 {
      assert Unit(f) * steps < 0 by { MulAtLeast(Unit(f), -steps); }
    }
  }

  /** In navigation mode, moving `a` steps and then `b` steps lands where
      moving `a + b` steps at once does (wrap-around in both directions). */
  lemma NavigationComposes(u: UiValue, a: int, b: int)
    requires !u.editMode && 0 <= u.selected < FieldCount
    ensures Stepped(Stepped(u, a), b) == Stepped(u, a + b)
  {
    if a != 0 && b != 0 {
      var s := u.selected;
      assert Stepped(u, a).selected == (s + a) % FieldCount;
      WrapComposes(s, a, b);
      if a + b == 0 {
        assert (s + a + b) % FieldCount == s;
      }
    }
  }

  /** Reducing modulo 6 before adding `b` does not change the final tile. */
  lemma WrapComposes(s: int, a: int, b: int)
    ensures ((s + a) % FieldCount + b) % FieldCount == (s + a + b) % FieldCount
  {
    var q, q2 := (s + a) / FieldCount, (s + a + b) / FieldCount;
    var r := (s + a + b) % FieldCount;
    assert (s + a) % FieldCount + b == FieldCount * (q2 - q) + r;
  }

  /** Navigating with `steps` lands on tile `(selected + steps) mod 6`:
      e.g. seven steps back from the first tile reach the last one. */
  lemma NavigationExample()
    ensures Stepped(Initial, -7).selected == FieldSettings
    ensures Stepped(Initial, 13).selected == FieldPulse2
  {
  }

  /** The state behind `g_ui`, updated in place through `ui_state_t *`. */
  class UiState {
    var pulse1Tenths: int
    var pulse2Tenths: int
    var intervalTenths: int
    var weldAuto: int
    var chargeCent: int
    var settingLevel: int
    var selected: int
    var editMode: bool

    function Value(): UiValue
      reads this
    {
      UiValue(pulse1Tenths, pulse2Tenths, intervalTenths, weldAuto, chargeCent, settingLevel, selected, editMode)
    }

    /** `g_ui` with its static initialiser. */
    constructor ()
      ensures Value() == Initial
    {
      pulse1Tenths := 50;
      pulse2Tenths := 0;
      intervalTenths := 10;
      weldAuto := 1;
      chargeCent := 540;
      settingLevel := 3;
      selected := FieldPulse1;
      editMode := false;
    }

    /** `apply_encoder_steps`: returns whether anything was applied (the redraw request). */
    method ApplyEncoderSteps(steps: int) returns (changed: bool)
      modifies this
      ensures changed == (steps != 0)
      ensures Value() == Stepped(old(Value()), steps)
    {
      if steps == 0 {
        return false;
      }
      if !editMode {
        var n := selected + steps;
        while n < 0
          invariant n % FieldCount == (old(selected) + steps) % FieldCount
          decreases -n
        {
          n := n + FieldCount;
        }
        selected := n % FieldCount;
        return true;
      }
      if selected == FieldPulse1 {
        pulse1Tenths := Clamp(pulse1Tenths + steps, 0, 200);
      } else if selected == FieldPulse2 {
        pulse2Tenths := Clamp(pulse2Tenths + steps, 0, 200);
      } else if selected == FieldInterval {
        intervalTenths := Clamp(intervalTenths + steps, 1, 500);
      } else if selected == FieldWeldMode {
        weldAuto := if weldAuto == 0 then 1 else 0;
      } else if selected == FieldChargeV {
        chargeCent := Clamp(chargeCent + steps * 5, 300, 1000);
      } else if selected == FieldSettings {
        settingLevel := Clamp(settingLevel + steps, 0, 9);
      }
      return true;
    }
  }
}
