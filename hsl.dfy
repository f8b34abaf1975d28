/**
 * PaletteUtils::rgbToHsl: the usual RGB to HSL conversion, rounded with
 * qRound. The source computes in `double`; here the same formula is computed
 * in exact rational arithmetic over the 8-bit channels.
 */
module Hsl {
  import opened Colors

  /** The three out-parameters of rgbToHsl. */
  datatype Hsl = Hsl(hue: int, saturation: int, lightness: int)

  /** Qt 6's qRound: add (or subtract) one half and truncate towards zero. */
  function QRound(d: real): (n: int)
    ensures d - 0.5 <= n as real <= d + 0.5
  {
    if d >= 0.0 then (d + 0.5).Floor else -((0.5 - d).Floor)
  }

  /** `QColor::redF()` and friends: a channel scaled to 0..1. An invalid QColor reads as black. */
  function RedF(c: Color): (x: real)
    ensures 0.0 <= x <= 1.0
  {
    if c.ValidColor? then c.rgba.red as real / 255.0 else 0.0
  }

  function GreenF(c: Color): (x: real)
    ensures 0.0 <= x <= 1.0
  {
    if c.ValidColor? then c.rgba.green as real / 255.0 else 0.0
  }

  function BlueF(c: Color): (x: real)
    ensures 0.0 <= x <= 1.0
  {
    if c.ValidColor? then c.rgba.blue as real / 255.0 else 0.0
  }

  function Max(x: real, y: real): real { if x < y then y else x }

  function Min(x: real, y: real): real { if x < y then x else y }

  /** Saturation before rounding, for a chromatic colour (max != min). */
  function ChromaticSaturation(max: real, min: real): real
    requires 0.0 <= min < max <= 1.0
  {
    var d := max - min;
    var l := (max + min) / 2.0;
    if l > 0.5 then d / (2.0 - max - min) else d / (max + min)
  }

  /** Hue before rounding, as a fraction of the full circle, for a chromatic colour. */
  function ChromaticHue(red: real, green: real, blue: real, max: real, min: real): real
    requires min < max
  {
    var d := max - min;
    var h :=
      if max == red then (green - blue) / d + (if green < blue then 6.0 else 0.0)
      else if max == green then (blue - red) / d + 2.0
      else (red - green) / d + 4.0;
    h / 6.0
  }

  /** rgbToHsl, returning the three out-parameters as one value. */
  function RgbToHsl(color: Color): Hsl
  {
    var red, green, blue := RedF(color), GreenF(color), BlueF(color);
    var max := Max(Max(red, green), blue);
    var min := Min(Min(red, green), blue);
    var l := (max + min) / 2.0;
    var h := if max != min then ChromaticHue(red, green, blue, max, min) else 0.0;
    var s := if max != min then ChromaticSaturation(max, min) else 0.0;
    Hsl(QRound(h * 360.0), QRound(s * 100.0), QRound(l * 100.0))
  }

  lemma QuotientBounds(x: real, y: real)
    requires y > 0.0 && -y <= x <= y
    ensures -1.0 <= x / y <= 1.0
    ensures x < 0.0 ==> x / y < 0.0
    ensures x >= 0.0 ==> x / y >= 0.0
  {
    var q := x / y;
    assert q * y == x;
  }

  lemma {:induction false} SaturationBounds(max: real, min: real)
    requires 0.0 <= min < max <= 1.0
    ensures 0.0 <= ChromaticSaturation(max, min) <= 1.0
  {
    if (max + min) / 2.0 > 0.5 {
      QuotientBounds(max - min, 2.0 - max - min);
    } else {
      QuotientBounds(max - min, max + min);
    }
  }

  lemma {:induction false} HueBounds(red: real, green: real, blue: real, max: real, min: real)
    requires min < max
    requires min <= red <= max && min <= green <= max && min <= blue <= max
    ensures 0.0 <= ChromaticHue(red, green, blue, max, min) < 1.0
  {
    var d := max - min;
    if max == red {
      QuotientBounds(green - blue, d);
    } else if max == green {
      QuotientBounds(blue - red, d);
    } else {
      QuotientBounds(red - green, d);
    }
  }

  /**
   * Saturation and lightness are whole percentages in 0..100, and the hue is a
   * whole number of degrees in 0..360: 360 itself, not only 0..359, because the
   * rounded hue of a red with a trace of blue rounds up to a full turn.
   */
  lemma {:induction false} HslRanges(color: Color)
    ensures 0 <= RgbToHsl(color).hue <= 360
    ensures 0 <= RgbToHsl(color).saturation <= 100
    ensures 0 <= RgbToHsl(color).lightness <= 100
  {
    var red, green, blue := RedF(color), GreenF(color), BlueF(color);
    var max := Max(Max(red, green), blue);
    var min := Min(Min(red, green), blue);
    if max != min {
      HueBounds(red, green, blue, max, min);
      SaturationBounds(max, min);
    }
  }

  /** A grey (equal channels) is achromatic: hue 0 and saturation 0. */
  lemma {:induction false} GreyIsAchromatic(c: Rgba)
    requires c.red == c.green == c.blue
    ensures RgbToHsl(ValidColor(c)).hue == 0
    ensures RgbToHsl(ValidColor(c)).saturation == 0
    ensures RgbToHsl(ValidColor(c)).lightness == QRound(c.red as real * 100.0 / 255.0)
  {
  }

  /** #ff0001 has a hue of 359.76 degrees before rounding, so its rounded hue is 360. */
  lemma HueRoundsToFullTurn()
    ensures RgbToHsl(ValidColor(Rgba(255, 0, 1, 255))).hue == 360
  {
    var c := ValidColor(Rgba(255, 0, 1, 255));
    assert RedF(c) == 1.0 && GreenF(c) == 0.0 && BlueF(c) == 1.0 / 255.0;
    assert ChromaticHue(1.0, 0.0, 1.0 / 255.0, 1.0, 0.0) == (6.0 - 1.0 / 255.0) / 6.0;
    assert ((6.0 - 1.0 / 255.0) / 6.0) * 360.0 + 0.5 == 360.0 + 0.5 - 360.0 / 1530.0;
  }
}
