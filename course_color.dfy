/**
 * `generateColor` of frontend/src/App.jsx: a deterministic string hash
 * (`hash = charCode + ((hash << 5) - hash)`) turned into a light HSL colour
 * for the selected-course tags.
 */
module CourseColor {
  import opened Schedule

  const TWO31: int := 0x8000_0000
  const TWO32: int := 0x1_0000_0000

  /** ECMAScript's ToInt32 on an integral number: wrap into [-2^31, 2^31). */
  function ToInt32(x: int): (r: int)
    ensures -TWO31 <= r < TWO31
    ensures (x - r) % TWO32 == 0
    ensures -TWO31 <= x < TWO31 ==> r == x
  {
    var m := x % TWO32;
    if m >= TWO31 then m - TWO32 else m
  }

  /** JavaScript's `h << 5`: both the operand and the result are taken as 32-bit signed integers. */
  function ShiftLeft5(h: int): (r: int)
    ensures -TWO31 <= r < TWO31
    ensures (ToInt32(h) * 32 - r) % TWO32 == 0
  {
    ToInt32(ToInt32(h) * 32)
  }

  /**
   * One step of the loop: `charCode + ((hash << 5) - hash)`. Only the shift is
   * wrapped; the subtraction and the addition are exact (JavaScript numbers
   * stay exact integers as long as they are below 2^53 in magnitude).
   */
  function Step(h: int, c: char): int {
    c as int + (ShiftLeft5(h) - h)
  }

  /** The value of `hash` after the loop has consumed all of `text`. */
  function Hash(text: string): int
    decreases |text|
  {
    if text == [] then 0 else Step(Hash(text[..|text| - 1]), text[|text| - 1])
  }

  /** `Math.abs(hash) % 360`. */
  function Hue(hash: int): (r: int)
    ensures 0 <= r < 360
    ensures ((if hash < 0 then -hash else hash) - r) % 360 == 0
  {
    (if hash < 0 then -hash else hash) % 360
  }

  /** `generateColor(text)`: the loop computes Hash(text); the colour is `hsl(hue, 70%, 80%)`. */
  method GenerateColor(text: string) returns (color: Color)
    ensures color == Hsl(Hue(Hash(text)), 70, 80)
    ensures 0 <= color.hue <= 359 && color.saturation == 70 && color.lightness == 80
    ensures text == [] ==> color.hue == 0
  {
    var hash := 0;
    for i := 0 to |text|
      invariant hash == Hash(text[..i])
    {
      assert text[..i + 1][..i] == text[..i];
      hash := text[i] as int + (ShiftLeft5(hash) - hash);
    }
    assert text[..|text|] == text;
    var hue := if hash < 0 then -hash else hash;
    color := Hsl(hue % 360, 70, 80);
  }

  /** The classic polynomial string hash with multiplier 31. */
  function Polynomial(text: string): int
    decreases |text|
  {
    if text == [] then 0 else 31 * Polynomial(text[..|text| - 1]) + text[|text| - 1] as int
  }

  /** Below 2^26 in magnitude nothing wraps, so one loop step multiplies by 31 and adds the code. */
  lemma StepWithoutWrap(h: int, c: char)
    requires -0x400_0000 <= h < 0x400_0000
    ensures Step(h, c) == 31 * h + c as int
  {
    assert ToInt32(h) == h;
    assert ToInt32(h * 32) == h * 32;
  }

  /**
   * While every prefix's polynomial hash stays below 2^26 in magnitude,
   * `generateColor`'s hash is exactly the polynomial hash with multiplier 31.
   */
  lemma {:induction false} HashIsPolynomialWhileSmall(text: string)
    requires forall k :: 0 <= k < |text| ==> -0x400_0000 <= Polynomial(text[..k]) < 0x400_0000
    ensures Hash(text) == Polynomial(text)
    decreases |text|
  {
    if text != [] {
      var p := text[..|text| - 1];
      forall k | 0 <= k < |p| ensures -0x400_0000 <= Polynomial(p[..k]) < 0x400_0000 {
        assert p[..k] == text[..k];
      }
      HashIsPolynomialWhileSmall(p);
      StepWithoutWrap(Hash(p), text[|text| - 1]);
    }
  }
}
