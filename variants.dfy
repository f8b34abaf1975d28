/**
 * The loosely typed records the palette builder receives from its QML caller
 * (a QVariantList of QVariants), reduced to the conversions paletteutils.cpp
 * asks of them: `isValid`, `toMap`, `canConvert<QColor>`, `value<QColor>` and
 * `toString`.
 */
module Variants {
  import opened Colors

  datatype Variant =
    | Invalid                                // a default-constructed QVariant
    | ColorValue(rgba: Rgba)                 // holds a (valid) QColor
    | Text(text: string)                     // holds a QString
    | Record(fields: map<string, Variant>)   // holds a QVariantMap
    | Other(text: string)                    // any other type; `text` is what toString() gives

  /** `QVariant::isValid()`. */
  predicate IsValid(v: Variant)
  {
    !v.Invalid?
  }

  /** `QVariant::toMap()`: the map a record holds, and an empty map for anything else. */
  function ToMap(v: Variant): map<string, Variant>
  {
    if v.Record? then v.fields else map[]
  }

  /** `QVariantMap::value(key)`: an invalid QVariant when the key is missing. */
  function Value(m: map<string, Variant>, key: string): Variant
  {
    if key in m then m[key] else Invalid
  }

  /** `QVariant::canConvert<QColor>()`: true of colours and of strings. */
  predicate CanConvertToColor(v: Variant)
  {
    v.ColorValue? || v.Text?
  }

  /**
   * `QVariant::value<QColor>()` where a conversion exists: the colour itself,
   * or the string read as a colour by `parse`, which stands for QColor's
   * string constructor.
   */
  function ValueAsColor(v: Variant, parse: string -> Color): Color
    requires CanConvertToColor(v)
  {
    if v.ColorValue? then ValidColor(v.rgba) else parse(v.text)
  }

  /** `QVariant::toString()`: empty for an invalid QVariant and for a map. */
  function ToText(v: Variant): string
  {
    match v
    case Invalid => ""
    case ColorValue(c) => HexRgbName(c)
    case Text(s) => s
    case Record(_) => ""
    case Other(s) => s
  }
}
