/** The fixed-point formatters `format_1decimal` and `format_2decimal`: an
    `int` holding tenths (or hundredths) becomes `"%d.%d"` (or `"%d.%02d"`)
    of the truncated whole part and the magnitude of the truncated
    remainder. A reader `ReadFixed` for the same notation is the partner
    that the round-trip lemmas are stated against. */
module Format {
  import opened CInt

  datatype Option<T> = None | Some(value: T)

  predicate IsDigit(c: char) {
    '0' <= c <= '9'
  }

  predicate AllDigits(s: string) {
    forall i :: 0 <= i < |s| ==> IsDigit(s[i])
  }

  function DigitChar(d: int): (c: char)
    requires 0 <= d < 10
    ensures IsDigit(c) && c as int - '0' as int == d
  {
    ('0' as int + d) as char
  }

  /** The number a run of decimal digits spells, most significant first. */
  function DigitsValue(s: string): nat
    requires AllDigits(s)
  {
    if s == [] then 0 else 10 * DigitsValue(s[..|s| - 1]) + (s[|s| - 1] as int - '0' as int)
  }

  function Pow10(k: nat): (p: nat)
    ensures p >= 1
  {
    if k == 0 then 1 else 10 * Pow10(k - 1)
  }

  /** `%d` of a non-negative value: its decimal digits, no leading zero. */
  function NatText(n: nat): (s: string)
    ensures |s| >= 1 && AllDigits(s)
    ensures |s| > 1 ==> s[0] != '0'
    decreases n
  {
    if n < 10 then [DigitChar(n)] else NatText(n / 10) + [DigitChar(n % 10)]
  }

  /** `%d` of any `int`: a minus sign before the magnitude of a negative value. */
  function IntText(v: int): (s: string)
    ensures |s| >= 1
    ensures v < 0 <==> s[0] == '-'
  {
    if v < 0 then "-" + NatText(-v) else NatText(v)
  }

  /** `%02d` of a value in [0, 99]: two digits, zero-padded. */
  function Pad2(n: int): (s: string)
    requires 0 <= n < 100
    ensures |s| == 2 && AllDigits(s)
  {
    [DigitChar(n / 10), DigitChar(n % 10)]
  }

  /** The fraction that both formatters print: the remainder, negated when the value is negative. */
  function Frac(v: int, scale: int): (f: int)
    requires scale > 0
    ensures 0 <= f < scale
  {
    if v >= 0 then TruncRem(v, scale) else -TruncRem(v, scale)
  }

  /** `format_1decimal` as written. */
  function Format1Decimal(tenths: int): (r: string)
    ensures |r| >= 3 && r[|r| - 2] == '.' && AllDigits(r[|r| - 1..])
    ensures r[0] == '-' <==> tenths <= -10
  {
    IntText(TruncDiv(tenths, 10)) + "." + NatText(Frac(tenths, 10))
  }

  /** `format_2decimal` as written. */
  function Format2Decimal(cent: int): (r: string)
    ensures |r| >= 4 && r[|r| - 3] == '.' && AllDigits(r[|r| - 2..])
    ensures r[0] == '-' <==> cent <= -100
  {
    IntText(TruncDiv(cent, 100)) + "." + Pad2(Frac(cent, 100))
  }

  /** `whole` units and `frac` units of `10^-places`, counted in the latter. */
  function Scaled(whole: nat, frac: nat, places: nat): nat {
    whole * Pow10(places) + frac
  }

  /** Reads `digits.ddd` with exactly `places` digits after the point, as a
      count of `10^-places` units. */
  function ReadUnsigned(body: string, places: nat): Option<nat> {
    if |body| < places + 2 then None
    else
      var k := |body| - places - 1;
      var whole, frac := body[..k], body[k + 1..];
      if body[k] == '.' && AllDigits(whole) && AllDigits(frac) then
        Some(Scaled(DigitsValue(whole), DigitsValue(frac), places))
      else None
  }

  /** Reads `[-]digits.ddd`, the notation of both formatters. */
  function ReadFixed(s: string, places: nat): Option<int> {
    if |s| > 0 && s[0] == '-' then
      match ReadUnsigned(s[1..], places)
      case Some(m) => Some(-(m as int))
      case None => None
    else
      match ReadUnsigned(s, places)
      case Some(m) => Some(m)
      case None => None
  }

  function Abs(v: int): nat {
    if v < 0 then -v else v
  }

  /** The sign, then the whole part and the fraction of the magnitude:
      `format_1decimal` as evidently intended. */
  function Format1DecimalSigned(tenths: int): string {
    (if tenths < 0 then "-" else "") + (NatText(Abs(tenths) / 10) + "." + NatText(Abs(tenths) % 10))
  }

  /** `format_2decimal` as evidently intended. */
  function Format2DecimalSigned(cent: int): string {
    (if cent < 0 then "-" else "") + (NatText(Abs(cent) / 100) + "." + Pad2(Abs(cent) % 100))
  }

  /** `%d` is read back as the number it prints. */
  lemma {:induction false} NatTextValue(n: nat)
    ensures DigitsValue(NatText(n)) == n
    decreases n
  {
    if n >= 10 {
      var s := NatText(n);
      NatTextValue(n / 10);
      assert s[..|s| - 1] == NatText(n / 10);
    }
  }

  lemma Pad2Value(n: int)
    requires 0 <= n < 100
    ensures DigitsValue(Pad2(n)) == n
  {
    var s := Pad2(n);
    assert s[..|s| - 1] == [s[0]];
    assert DigitsValue([s[0]]) == n / 10 by {
      assert [s[0]][..0] == [];
    }
  }

  lemma ReadUnsignedParts(whole: string, frac: string, places: nat)
    requires |whole| >= 1 && AllDigits(whole) && AllDigits(frac) && |frac| == places
    ensures ReadUnsigned(whole + "." + frac, places) == Some(Scaled(DigitsValue(whole), DigitsValue(frac), places))
  {
    var body := whole + "." + frac;
    var k := |body| - places - 1;
    assert body[..k] == whole && body[k] == '.' && body[k + 1..] == frac;
  }

  /** The sign is read off the front and the rest read unsigned. */
  lemma ReadSign(neg: bool, body: string, places: nat, m: nat)
    requires |body| > 0 && body[0] != '-'
    requires ReadUnsigned(body, places) == Some(m)
    ensures ReadFixed((if neg then "-" else "") + body, places) == Some(if neg then -(m as int) else m)
  {
    if neg {
      assert ("-" + body)[1..] == body;
    } else {
      assert "" + body == body;
    }
  }

  /** `[-]whole.frac` is read as the signed number its parts spell. */
  lemma ReadFixedParts(neg: bool, whole: string, frac: string, places: nat)
    requires |whole| >= 1 && AllDigits(whole) && AllDigits(frac) && |frac| == places
    ensures var m: int := Scaled(DigitsValue(whole), DigitsValue(frac), places);
      ReadFixed((if neg then "-" else "") + (whole + "." + frac), places) == Some(if neg then -m else m)
  {
    var body := whole + "." + frac;
    var m := Scaled(DigitsValue(whole), DigitsValue(frac), places);
    ReadUnsignedParts(whole, frac, places);
    assert body[0] == whole[0];
    ReadSign(neg, body, places, m);
  }

  /** The whole part of a non-negative value and of a value at or below
      `-scale`: printed with the sign exactly when the value is negative. */
  lemma WholeText(v: int, scale: int)
    requires scale > 0 && !(-scale < v < 0)
    ensures IntText(TruncDiv(v, scale)) == (if v < 0 then "-" else "") + NatText(Abs(v) / scale)
    ensures Frac(v, scale) == Abs(v) % scale
  {
    if v >= 0 {
      TruncDivUnique(v, scale, v / scale, v % scale);
    } else {
      var q, r := Abs(v) / scale, Abs(v) % scale;
      assert -v == scale * q + r;
      assert v == scale * (-q) + (-r);
      TruncDivUnique(v, scale, -q, -r);
      assert q >= 1;
    }
  }

  /** Round trip of the as-written `format_1decimal`: every value reads back
      except those in (-1.0, 0), whose minus sign is lost, so that they read
      back as their magnitude. */
  lemma Format1DecimalReads(tenths: int)
    ensures ReadFixed(Format1Decimal(tenths), 1) == Some(if -10 < tenths < 0 then -tenths else tenths)
    ensures ReadFixed(Format1Decimal(tenths), 1) == Some(tenths) <==> !(-10 < tenths < 0)
  {
    if -10 < tenths < 0 {
      TruncDivUnique(tenths, 10, 0, tenths);
      assert Format1Decimal(tenths) == "" + (NatText(0) + "." + NatText(-tenths));
      ReadFixedParts(false, NatText(0), NatText(-tenths), 1);
    } else {
      WholeText(tenths, 10);
      Format1Agrees(tenths);
      Format1DecimalSignedReads(tenths);
    }
  }

  /** Round trip of the as-written `format_2decimal`: every value reads back
      except those in (-1.00, 0). */
  lemma Format2DecimalReads(cent: int)
    ensures ReadFixed(Format2Decimal(cent), 2) == Some(if -100 < cent < 0 then -cent else cent)
    ensures ReadFixed(Format2Decimal(cent), 2) == Some(cent) <==> !(-100 < cent < 0)
  {
    if -100 < cent < 0 {
      TruncDivUnique(cent, 100, 0, cent);
      assert Format2Decimal(cent) == "" + (NatText(0) + "." + Pad2(-cent));
      Pad2Value(-cent);
      ReadFixedParts(false, NatText(0), Pad2(-cent), 2);
    } else {
      Format2Agrees(cent);
      Format2DecimalSignedReads(cent);
    }
  }

  /** Minus half a unit is printed as plus half a unit. */
  lemma Format1DecimalDropsSign()
    ensures Format1Decimal(-5) == "0.5"
    ensures ReadFixed(Format1Decimal(-5), 1) == Some(5)
  {
    TruncDivUnique(-5, 10, 0, -5);
    assert Frac(-5, 10) == 5;
    assert IntText(0) == "0";
    assert NatText(5) == "5";
    Format1DecimalReads(-5);
  }

  /** Minus five hundredths is printed as plus five hundredths. */
  lemma Format2DecimalDropsSign()
    ensures Format2Decimal(-5) == "0.05"
    ensures ReadFixed(Format2Decimal(-5), 2) == Some(5)
  {
    TruncDivUnique(-5, 100, 0, -5);
    assert Frac(-5, 100) == 5;
    assert IntText(0) == "0";
    assert Pad2(5) == "05";
    Format2DecimalReads(-5);
  }

  /** The corrected formatter reads back as the value it was given, for every value. */
  lemma Format1DecimalSignedReads(tenths: int)
    ensures ReadFixed(Format1DecimalSigned(tenths), 1) == Some(tenths)
  {
    var a := Abs(tenths);
    NatTextValue(a / 10);
    NatTextValue(a % 10);
    assert Scaled(a / 10, a % 10, 1) == a by {
      assert Pow10(1) == 10;
    }
    ReadFixedParts(tenths < 0, NatText(a / 10), NatText(a % 10), 1);
  }

  lemma Format2DecimalSignedReads(cent: int)
    ensures ReadFixed(Format2DecimalSigned(cent), 2) == Some(cent)
  {
    var a := Abs(cent);
    NatTextValue(a / 100);
    Pad2Value(a % 100);
    assert Scaled(a / 100, a % 100, 2) == a by {
      assert Pow10(2) == 100;
    }
    ReadFixedParts(cent < 0, NatText(a / 100), Pad2(a % 100), 2);
  }

  /** Outside (-1.0, 0) the corrected formatter prints what the as-written formatter does. */
  lemma Format1Agrees(tenths: int)
    requires !(-10 < tenths < 0)
    ensures Format1DecimalSigned(tenths) == Format1Decimal(tenths)
  {
    WholeText(tenths, 10);
  }

  lemma Format2Agrees(cent: int)
    requires !(-100 < cent < 0)
    ensures Format2DecimalSigned(cent) == Format2Decimal(cent)
  {
    WholeText(cent, 100);
  }

  /** A value of C type `int` on the target (32 bits). */
  predicate IsInt32(v: int) {
    -0x8000_0000 <= v < 0x8000_0000
  }

  /** A value below `10^k` has at most `k` digits. */
  lemma {:induction false} NatTextLength(n: nat, k: nat)
    requires 1 <= k && n < Pow10(k)
    ensures |NatText(n)| <= k
    decreases n
  {
    if n >= 10 {
      NatTextLength(n / 10, k - 1);
    }
  }

  /** Any `int` formats into the 20-byte buffer of `render_ui` with room
      for the terminator, so `snprintf` never truncates. */
  lemma Format1DecimalFits(tenths: int)
    requires IsInt32(tenths)
    ensures |Format1Decimal(tenths)| < 20
  {
    var w := TruncDiv(tenths, 10);
    assert -214748365 < w < 214748365;
    assert Pow10(9) == 1_000_000_000;
    NatTextLength(Abs(w), 9);
    NatTextLength(Frac(tenths, 10), 1);
  }

  lemma Format2DecimalFits(cent: int)
    requires IsInt32(cent)
    ensures |Format2Decimal(cent)| < 20
  {
    var w := TruncDiv(cent, 100);
    assert -21474837 < w < 21474837;
    assert Pow10(8) == 100_000_000;
    NatTextLength(Abs(w), 8);
  }
}
