/**
 * The part of QColor that the palette builder relies on: a colour is either
 * invalid (a default-constructed QColor, or one built from text that does not
 * parse) or carries 8-bit red, green, blue and alpha channels. Its `#rrggbb`
 * name, lower-cased, is the key under which duplicates are recognised.
 */
module Colors {

  newtype byte = x: int | 0 <= x < 256

  datatype Rgba = Rgba(red: byte, green: byte, blue: byte, alpha: byte)

  /** QColor: `ValidColor?` is `QColor::isValid()`. */
  datatype Color = InvalidColor | ValidColor(rgba: Rgba)

  /** One lower-case hexadecimal digit, as QColor::name() writes it. */
  function HexDigit(n: int): (c: char)
    requires 0 <= n < 16
    ensures ('0' <= c <= '9') || ('a' <= c <= 'f')
  {
    if n < 10 then ('0' as int + n) as char else ('a' as int + n - 10) as char
  }

  /** Two hexadecimal digits of one channel, most significant first. */
  function Hex2(x: byte): string
  {
    [HexDigit(x as int / 16), HexDigit(x as int % 16)]
  }

  /** `QColor::name(QColor::HexRgb)`: "#rrggbb"; the alpha channel is not part of it. */
  function HexRgbName(c: Rgba): (name: string)
    ensures |name| == 7 && name[0] == '#'
  {
    "#" + Hex2(c.red) + Hex2(c.green) + Hex2(c.blue)
  }

  /** `QChar::toLower` restricted to ASCII, which is all a colour name holds. */
  function LowerChar(c: char): (l: char)
    ensures 'A' <= c <= 'Z' ==> 'a' <= l <= 'z'
    ensures !('A' <= c <= 'Z') ==> l == c
  {
    if 'A' <= c <= 'Z' then (c as int - 'A' as int + 'a' as int) as char else c
  }

  /** `QString::toLower`. */
  function ToLower(s: string): (r: string)
    ensures |r| == |s|
    ensures forall i :: 0 <= i < |s| ==> r[i] == LowerChar(s[i])
  {
    if s == [] then [] else [LowerChar(s[0])] + ToLower(s[1..])
  }

  /** The de-duplication key of paletteutils.cpp: `color.name(QColor::HexRgb).toLower()`. */
  function Key(c: Rgba): string
  {
    ToLower(HexRgbName(c))
  }

  /** QColor already writes its name in lower case, so the `toLower()` changes nothing. */
  lemma NameIsLowerCase(c: Rgba)
    ensures Key(c) == HexRgbName(c)
  {
    var name := HexRgbName(c);
    forall i | 0 <= i < |name|
      ensures Key(c)[i] == name[i]
    {
      assert name[i] == '#' || ('0' <= name[i] <= '9') || ('a' <= name[i] <= 'f');
    }
  }

  lemma {:induction false} HexDigitInjective(m: int, n: int)
    requires 0 <= m < 16 && 0 <= n < 16
    ensures HexDigit(m) == HexDigit(n) <==> m == n
  {
  }

  lemma {:induction false} Hex2Injective(x: byte, y: byte)
    ensures Hex2(x) == Hex2(y) <==> x == y
  {
    if Hex2(x) == Hex2(y) {
      assert Hex2(x)[0] == Hex2(y)[0] && Hex2(x)[1] == Hex2(y)[1];
      HexDigitInjective(x as int / 16, y as int / 16);
      HexDigitInjective(x as int % 16, y as int % 16);
      assert x as int == 16 * (x as int / 16) + x as int % 16;
      assert y as int == 16 * (y as int / 16) + y as int % 16;
    }
  }

  /**
   * Two colours share a key exactly when their red, green and blue channels
   * agree: alpha is ignored, and no two different RGB triples collide.
   */
  lemma {:induction false} KeyIdentifiesRgb(a: Rgba, b: Rgba)
    ensures Key(a) == Key(b) <==> (a.red == b.red && a.green == b.green && a.blue == b.blue)
  {
    NameIsLowerCase(a);
    NameIsLowerCase(b);
    var na, nb := HexRgbName(a), HexRgbName(b);
    if na == nb {
      assert na[1..3] == Hex2(a.red) && nb[1..3] == Hex2(b.red);
      assert na[3..5] == Hex2(a.green) && nb[3..5] == Hex2(b.green);
      assert na[5..7] == Hex2(a.blue) && nb[5..7] == Hex2(b.blue);
      Hex2Injective(a.red, b.red);
      Hex2Injective(a.green, b.green);
      Hex2Injective(a.blue, b.blue);
    }
  }
}
