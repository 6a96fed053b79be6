/** One iteration of `ui_task`: drain the decoder's delta, turn it into whole
    steps (four quarter-steps per detent, remainder carried in an `int8_t`),
    apply them, detect a falling edge on the polled button, and redraw when
    anything changed. */
module Task {
  import opened CInt
  import opened Encoder
  import opened Menu

  /** Whole steps and the carried remainder after one drain. */
  datatype Aggregated = Aggregated(steps: int, accum: int)

  /** `accum = (int8_t)(accum + d); steps = accum / 4; accum = (int8_t)(accum % 4);`
      with C's truncating division. */
  function Aggregate(accum: int, d: int): (r: Aggregated)
    ensures Wrap8(accum + d) == 4 * r.steps + r.accum
    ensures -3 <= r.accum <= 3 && -32 <= r.steps <= 31
    ensures r.accum == 0 || (r.accum < 0 <==> Wrap8(accum + d) < 0)
    ensures IsInt8(accum + d) ==> accum + d == 4 * r.steps + r.accum
  {
    var a := Wrap8(accum + d);
    Aggregated(TruncDiv(a, 4), Wrap8(TruncRem(a, 4)))
  }

  /** The button (active low) was just pressed: the previous sample was 1 and this one is 0. */
  predicate ButtonEdge(swLast: int, sw: int) {
    swLast == 1 && sw == 0
  }

  /** Number of edit-mode toggles over a run of button samples. */
  function Toggles(swLast: int, samples: seq<int>): nat
    decreases |samples|
  {
    if samples == [] then 0
    else (if ButtonEdge(swLast, samples[0]) then 1 else 0) + Toggles(samples[0], samples[1..])
  }

  /** Number of samples that read the released level 1. */
  function Releases(samples: seq<int>): nat {
    if samples == [] then 0 else (if samples[0] == 1 then 1 else 0) + Releases(samples[1..])
  }

  /** Each toggle after the first needs the pin to have been seen released in
      between: a button held low toggles edit mode at most once. */
  lemma {:induction false} TogglesNeedReleases(swLast: int, samples: seq<int>)
    ensures Toggles(swLast, samples) <= Releases(samples) + (if swLast == 1 then 1 else 0)
    decreases |samples|
  {
    if samples != [] {
      TogglesNeedReleases(samples[0], samples[1..]);
    }
  }

  /** Holding the button for `n` ticks after it was released toggles exactly once. */
  lemma {:induction false} HeldButtonTogglesOnce(n: nat)
    requires n >= 1
    ensures Toggles(1, seq(n, _ => 0)) == 1
  {
    var held := seq(n, _ => 0);
    assert held[1..] == seq(n - 1, _ => 0);
    HeldLowNeverToggles(n - 1);
  }

  lemma {:induction false} HeldLowNeverToggles(n: nat)
    ensures Toggles(0, seq(n, _ => 0)) == 0
  {
    if n > 0 {
      var held := seq(n, _ => 0);
      assert held[1..] == seq(n - 1, _ => 0);
      HeldLowNeverToggles(n - 1);
    }
  }

  /** Total steps over a run of drains, and the remainder left at the end. */
  function StepsOver(accum: int, drains: seq<int>): Aggregated
    decreases |drains|
  {
    if drains == [] then Aggregated(0, accum)
    else
      var a := Aggregate(accum, drains[0]);
      var rest := StepsOver(a.accum, drains[1..]);
      Aggregated(a.steps + rest.steps, rest.accum)
  }

  function Sum(ds: seq<int>): int {
    if ds == [] then 0 else ds[0] + Sum(ds[1..])
  }

  /** Drained deltas that never overflow the `int8_t` accumulator. */
  predicate NoOverflow(accum: int, drains: seq<int>)
    decreases |drains|
  {
    drains == [] ||
      (IsInt8(accum + drains[0]) && NoOverflow(Aggregate(accum, drains[0]).accum, drains[1..]))
  }

  /** No quarter-step is lost by the down-scaling: every drained delta ends up
      either in a whole step or in the carried remainder. */
  lemma {:induction false} RemainderCarries(accum: int, drains: seq<int>)
    requires NoOverflow(accum, drains)
    ensures 4 * StepsOver(accum, drains).steps + StepsOver(accum, drains).accum == accum + Sum(drains)
    decreases |drains|
  {
    if drains != [] {
      RemainderCarries(Aggregate(accum, drains[0]).accum, drains[1..]);
    }
  }

  /** The locals of `ui_task` together with the state it reads and writes. */
  class UiTask {
    const ui: UiState
    const decoder: Decoder
    var accum: int
    var swLast: int
    var dirty: bool

    ghost predicate Valid()
      reads this, decoder
    {
      IsInt8(accum) && decoder.Valid()
    }

    /** The locals before the first iteration. */
    constructor (ui: UiState, decoder: Decoder)
      requires decoder.Valid()
      ensures Valid()
      ensures this.ui == ui && this.decoder == decoder
      ensures accum == 0 && swLast == 1 && dirty
    {
      this.ui := ui;
      this.decoder := decoder;
      accum := 0;
      swLast := 1;
      dirty := true;
    }

    /** One pass of the loop with button sample `sw`; `rendered` says whether
        `render_ui` runs in this pass. */
    method Tick(sw: int) returns (rendered: bool)
      requires Valid()
      modifies this, ui, decoder
      ensures Valid()
      ensures decoder.delta == 0
      ensures decoder.state == old(decoder.state) && decoder.counter == old(decoder.counter)
      ensures swLast == sw && !dirty
      ensures var d := old(decoder.delta);
              var agg := Aggregate(old(accum), d);
              var moved := if d != 0 then Stepped(old(ui.Value()), agg.steps) else old(ui.Value());
              && accum == (if d != 0 then agg.accum else old(accum))
              && ui.Value() == (if ButtonEdge(old(swLast), sw) then moved.(editMode := !moved.editMode) else moved)
              && rendered == (old(dirty) || (d != 0 && agg.steps != 0) || ButtonEdge(old(swLast), sw))
    {
      var d := decoder.delta;
      if d != 0 {
        d := decoder.delta;
        decoder.delta := 0;
        accum := Wrap8(accum + d);
        var steps := TruncDiv(accum, 4);
        accum := Wrap8(TruncRem(accum, 4));
        var changed := ui.ApplyEncoderSteps(steps);
        if changed {
          dirty := true;
        }
      }
      if swLast == 1 && sw == 0 {
        ui.editMode := !ui.editMode;
        dirty := true;
      }
      swLast := sw;
      rendered := dirty;
      if dirty {
        dirty := false;
      }
    }
  }
}
