/** C integer semantics used by the firmware: 8-bit and 16-bit wrap-around,
    truncating division and remainder, and the `clamp_i` helper. */
module CInt {

  /** A value of C type `uint8_t` (also used for bytes on the bus). */
  type Byte = b: int | 0 <= b < 256

  /** A value of C type `uint16_t`: coordinates, sizes and RGB565 colours. */
  type U16 = v: int | 0 <= v < 0x1_0000

  predicate IsInt8(v: int) {
    -128 <= v < 128
  }

  /** Conversion of an `int` to `int8_t`, as the target compiler does it (two's complement wrap). */
  function Wrap8(v: int): (r: int)
    ensures IsInt8(r)
    ensures (v - r) % 256 == 0
    ensures IsInt8(v) ==> r == v
  {
    (v + 128) % 256 - 128
  }

  /** Conversion of an `int` to `uint16_t`. */
  function Wrap16(v: int): (r: U16)
    ensures (v - r) % 0x1_0000 == 0
    ensures 0 <= v < 0x1_0000 ==> r == v
  {
    v % 0x1_0000
  }

  /** C's `/` on `int`, which truncates toward zero. */
  function TruncDiv(a: int, b: int): (q: int)
    requires b > 0
    ensures a >= 0 ==> 0 <= b * q <= a
    ensures a < 0 ==> a <= b * q <= 0
    ensures -b < a - b * q < b
  {
    if a >= 0 then
      DivBounds(a, b);
      a / b
    else
      DivBounds(-a, b);
      -((-a) / b)
  }

  /** Euclidean division of a non-negative value: the quotient's multiple
      lies within one divisor below the value. */
  lemma DivBounds(a: nat, b: int)
    requires b > 0
    ensures 0 <= b * (a / b) <= a < b * (a / b) + b
    ensures b * -(a / b) == -(b * (a / b))
  {
    assert a == b * (a / b) + a % b;
  }

  /** C's `%` on `int`: the remainder takes the sign of the dividend. */
  function TruncRem(a: int, b: int): (r: int)
    requires b > 0
    ensures a == b * TruncDiv(a, b) + r
    ensures -b < r < b
    ensures r == 0 || (r < 0 <==> a < 0)
  {
    a - b * TruncDiv(a, b)
  }

  /** Truncating quotient and remainder are unique: any split of `a` into
      `b * q + r` with a remainder of the dividend's sign below `b` is theirs. */
  lemma TruncDivUnique(a: int, b: int, q: int, r: int)
    requires b > 0
    requires a == b * q + r && -b < r < b
    requires r == 0 || (r < 0 <==> a < 0)
    ensures q == TruncDiv(a, b) && r == TruncRem(a, b)
  {
    var q0, r0 := TruncDiv(a, b), TruncRem(a, b);
    assert b * q - b * q0 == r0 - r;
    if q > q0 {
      MulGap(b, q, q0);
      assert false;
    } else if q < q0 {
      MulGap(b, q0, q);
      assert false;
    }
  }

  /** Multiples of `b` at different indices lie at least `b` apart. */
  lemma MulGap(b: int, q: int, q0: int)
    requires b > 0 && q > q0
    ensures b * q - b * q0 >= b
  {
    MulAtLeast(b, q - q0);
    Distributes(b, q, q0);
  }

  lemma MulAtLeast(b: int, k: int)
    requires b > 0 && k >= 1
    ensures b * k >= b
  {
  }

  lemma Distributes(b: int, q: int, q0: int)
    ensures b * (q - q0) == b * q - b * q0
  {
  }

  /** `clamp_i`: saturates `v` into `[lo, hi]`; checks `lo` first. */
  function Clamp(v: int, lo: int, hi: int): (r: int)
    ensures lo <= hi ==> lo <= r <= hi
    ensures lo <= v <= hi ==> r == v
    ensures r == v || r == lo || r == hi
    ensures v < lo ==> r == lo
    ensures !(v < lo) && v > hi ==> r == hi
  {
    if v < lo then lo else if v > hi then hi else v
  }
}
