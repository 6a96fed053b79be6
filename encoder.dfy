/** The interrupt-driven quadrature decoder (`encoder_isr_handler`): a 16-entry
    transition table over (previous, new) 2-bit pin states, feeding the shared
    `int8_t` delta that the UI task drains. */
module Encoder {
  import opened CInt

  /** A sampled pin level (`gpio_get_level` returns 0 or 1). */
  type Bit = b: int | 0 <= b <= 1

  /** The 2-bit state `(a << 1) | b`. */
  type PinState = s: int | 0 <= s < 4

  /** `table[16]` of the interrupt handler, indexed by `(prev << 2) | next`. */
  const Table: seq<int> := [
     0, -1,  1,  0,
     1,  0,  0, -1,
    -1,  0,  0,  1,
     0,  1, -1,  0
  ]

  /** Combines the two pin levels into the 2-bit state. */
  function Sample(a: Bit, b: Bit): (s: PinState)
    ensures s / 2 == a && s % 2 == b
  {
    a * 2 + b
  }

  /** The table index `(prev << 2) | next`, always one of the 16 entries. */
  function Index(prev: PinState, next: PinState): (i: int)
    ensures 0 <= i < |Table|
    ensures i / 4 == prev && i % 4 == next
  {
    prev * 4 + next
  }

  /** The state that follows `s` in the quadrature Gray sequence
      00 -> 10 -> 11 -> 01 -> 00, i.e. one forward quarter-step. */
  function Forward(s: PinState): (t: PinState)
    ensures t != s && !DoubleFlip(s, t)
  {
    match s
    case 0 => 2
    case 2 => 3
    case 3 => 1
    case 1 => 0
  }

  /** Position of a state along that sequence, so that `Forward` adds one modulo 4. */
  function Phase(s: PinState): (p: int)
    ensures 0 <= p < 4
  {
    match s
    case 0 => 0
    case 2 => 1
    case 3 => 2
    case 1 => 3
  }

  /** Both pins changed at once: a bounce, not a quarter-step. */
  predicate DoubleFlip(prev: PinState, next: PinState) {
    prev + next == 3
  }

  /** The step the handler adds for a transition: the table entry, which is +1
      for a forward quarter-step, -1 for a backward one and 0 for "no change"
      or a double flip. */
  function Transition(prev: PinState, next: PinState): (r: int)
    ensures r == (if next == Forward(prev) then 1 else if prev == Forward(next) then -1 else 0)
    ensures -1 <= r <= 1
    ensures prev == next ==> r == 0
    ensures DoubleFlip(prev, next) ==> r == 0
    ensures r == 0 ==> prev == next || DoubleFlip(prev, next)
    ensures !DoubleFlip(prev, next) ==> (Phase(next) - Phase(prev) - r) % 4 == 0
  {
    var i := Index(prev, next);
    assert i == prev * 4 + next;
    match i
    case 0 => Table[0]
    case 1 => Table[1]
    case 2 => Table[2]
    case 3 => Table[3]
    case 4 => Table[4]
    case 5 => Table[5]
    case 6 => Table[6]
    case 7 => Table[7]
    case 8 => Table[8]
    case 9 => Table[9]
    case 10 => Table[10]
    case 11 => Table[11]
    case 12 => Table[12]
    case 13 => Table[13]
    case 14 => Table[14]
    case 15 => Table[15]
  }

  /** Reversing a transition negates its step. */
  lemma TransitionAntisymmetric(prev: PinState, next: PinState)
    ensures Transition(prev, next) == -Transition(next, prev)
  {
  }

  /** The shared state of the decoder: `encoder_state`, `encoder_delta` and
      the debug `counter`. */
  class Decoder {
    var state: int
    var delta: int
    var counter: int

    ghost predicate Valid()
      reads this
    {
      0 <= state < 4 && IsInt8(delta)
    }

    /** The part of `encoder_init` that samples the pins to seed `encoder_state`;
        the globals `encoder_delta` and `counter` start at 0. */
    constructor (a: Bit, b: Bit)
      ensures Valid()
      ensures state == Sample(a, b) && delta == 0 && counter == 0
    {
      state := Sample(a, b);
      delta := 0;
      counter := 0;
    }

    /** `encoder_isr_handler`: one edge interrupt with the sampled pin levels. */
    method Isr(a: Bit, b: Bit)
      requires Valid()
      modifies this
      ensures Valid()
      ensures state == Sample(a, b)
      ensures delta == Wrap8(old(delta) + Transition(old(state), state))
      ensures counter == old(counter) + Transition(old(state), state)
    {
      var s := Sample(a, b);
      var idx := Index(state, s);
      var step := Table[idx];
      delta := Wrap8(delta + step);
      counter := counter + step;
      state := s;
    }
  }

  /** Net step sum over a run of interrupts that sample `samples`, starting in `start`. */
  function Net(start: PinState, samples: seq<PinState>): int
    decreases |samples|
  {
    if samples == [] then 0 else Transition(start, samples[0]) + Net(samples[0], samples[1..])
  }

  /** The state after the run. */
  function Last(start: PinState, samples: seq<PinState>): PinState {
    if samples == [] then start else samples[|samples| - 1]
  }

  /** No interrupt in the run saw both pins change. */
  predicate Clean(start: PinState, samples: seq<PinState>)
    decreases |samples|
  {
    samples == [] || (!DoubleFlip(start, samples[0]) && Clean(samples[0], samples[1..]))
  }

  /** `encoder_delta` after the run: each interrupt adds its step with `int8_t` wrap-around. */
  function DeltaAfter(delta: int, start: PinState, samples: seq<PinState>): int
    decreases |samples|
  {
    if samples == [] then delta
    else DeltaAfter(Wrap8(delta + Transition(start, samples[0])), samples[0], samples[1..])
  }

  /** With no bounce, the net count tracks the physical position: it equals the
      change of phase modulo 4, so four forward quarter-steps are +4. */
  lemma {:induction false} NetTracksPhase(start: PinState, samples: seq<PinState>)
    requires Clean(start, samples)
    ensures (Phase(Last(start, samples)) - Phase(start) - Net(start, samples)) % 4 == 0
    decreases |samples|
  {
    if samples != [] {
      var next := samples[0];
      NetTracksPhase(next, samples[1..]);
      assert Last(start, samples) == Last(next, samples[1..]);
      var first := Phase(next) - Phase(start) - Transition(start, next);
      var rest := Phase(Last(next, samples[1..])) - Phase(next) - Net(next, samples[1..]);
      MultiplesOfFour(first, rest);
      assert Phase(Last(start, samples)) - Phase(start) - Net(start, samples) == first + rest;
    }
  }

  lemma MultiplesOfFour(a: int, b: int)
    requires a % 4 == 0 && b % 4 == 0
    ensures (a + b) % 4 == 0
  {
    assert a + b == 4 * (a / 4 + b / 4);
  }

  /** No interrupt is lost and none is counted twice: between two drains the
      delta is the wrapped sum of every interrupt's step. */
  lemma {:induction false} DeltaIsWrappedNet(delta: int, start: PinState, samples: seq<PinState>)
    requires IsInt8(delta)
    ensures DeltaAfter(delta, start, samples) == Wrap8(delta + Net(start, samples))
    decreases |samples|
  {
    if samples != [] {
      var t := Transition(start, samples[0]);
      DeltaIsWrappedNet(Wrap8(delta + t), samples[0], samples[1..]);
      WrapAdd(delta + t, Net(samples[0], samples[1..]));
    }
  }

  /** Wrapping an intermediate sum does not change the wrapped total. */
  lemma WrapAdd(x: int, y: int)
    ensures Wrap8(Wrap8(x) + y) == Wrap8(x + y)
  {
    var k := (x + 128) / 256;
    assert Wrap8(x) == x - 256 * k;
    assert (Wrap8(x) + y + 128) % 256 == (x + y + 128 - 256 * k) % 256;
  }

  /** One full detent forward, four quarter-steps through every state, adds exactly 4. */
  lemma FullCycleAddsFour(s: PinState)
    ensures Net(s, [Forward(s), Forward(Forward(s)), Forward(Forward(Forward(s))), s]) == 4
  {
    var s1 := Forward(s);
    var s2 := Forward(s1);
    var s3 := Forward(s2);
    assert Forward(s3) == s;
    assert [s1, s2, s3, s][1..] == [s2, s3, s];
    assert [s2, s3, s][1..] == [s3, s];
    assert [s3, s][1..] == [s];
    assert Net(s3, [s]) == 1;
    assert Net(s2, [s3, s]) == 2;
    assert Net(s1, [s2, s3, s]) == 3;
  }
}
