/**
 * Concrete cases of the palette builder's contract: the ones its behaviour
 * is usually explained by.
 */
module PaletteExamples {
  import opened Colors
  import opened Variants
  import opened Hsl
  import opened PaletteUtils

  function Named(name: string, color: string): Variant
  {
    Record(map["name" := Text(name), "color" := Text(color)])
  }

  const Red := ValidColor(Rgba(255, 0, 0, 255))

  /** A record with a name and a colour string is kept exactly when the string parses. */
  lemma NamedRecordIsKept(name: string, color: string, parse: string -> Color)
    ensures ToEntry(Named(name, color), parse) ==
      if parse(color).ValidColor? then Some(PaletteEntry(name, parse(color))) else None
  {
    var m := map["name" := Text(name), "color" := Text(color)];
    assert "color" in m && m["color"] == Text(color);
    assert "name" in m && m["name"] == Text(name);
  }

  lemma KeptSingleton(v: Variant, e: PaletteEntry, parse: string -> Color)
    requires ToEntry(v, parse) == Some(e)
    ensures KeptEntries([v], parse) == [e]
  {
    assert [v][..0] == [];
  }

  /**
   * The same colour spelled "#FF0000" in the primary list and "#ff0000" in the
   * extended one survives once, under the primary list's name.
   */
  lemma FirstSpellingWins(parse: string -> Color)
    requires parse("#FF0000") == Red && parse("#ff0000") == Red
    ensures Merged([Named("A", "#FF0000")], [Named("B", "#ff0000")], parse) == [PaletteEntry("A", Red)]
  {
    var a, b := PaletteEntry("A", Red), PaletteEntry("B", Red);
    NamedRecordIsKept("A", "#FF0000", parse);
    NamedRecordIsKept("B", "#ff0000", parse);
    KeptSingleton(Named("A", "#FF0000"), a, parse);
    KeptSingleton(Named("B", "#ff0000"), b, parse);
    DedupAppend([], a);
    DedupAppend([a], b);
    ValidKeysAppend([], a);
    assert [] + [a] == [a] && [a] + [b] == [a, b];
  }

  /** A record without a colour, or whose colour does not parse, is dropped. */
  lemma UnresolvableColoursAreDropped(parse: string -> Color)
    requires parse("notacolor") == InvalidColor
    ensures ToEntry(Named("X", "notacolor"), parse) == None
    ensures ToEntry(Record(map["name" := Text("X")]), parse) == None
  {
  }

  const Black := PaletteEntry("black", ValidColor(Rgba(0, 0, 0, 255)))
  const RedEntry := PaletteEntry("red", Red)
  const White := PaletteEntry("white", ValidColor(Rgba(255, 255, 255, 255)))

  lemma BandsOfBlackRedWhite()
    ensures Band(Classify(Black)) == 0
    ensures Band(Classify(RedEntry)) == 1
    ensures Band(Classify(White)) == 2
  {
    assert RgbToHsl(Black.color) == Hsl(0, 0, 0);
    assert RgbToHsl(Red) == Hsl(0, 100, 50);
    assert RgbToHsl(White.color) == Hsl(0, 0, 100);
  }

  /**
   * An ordering fact about the merged entries black, red and white: the only
   * arrangement of that multiset in presentation order is black (a dark
   * neutral), red (a colour), white (a light neutral). Whenever the merged
   * list holds exactly these three, this is the one result BuildDefaultPalette's
   * contract allows.
   */
  lemma BlackRedWhiteOrder(result: seq<PaletteEntry>)
    requires multiset(result) == multiset([White, RedEntry, Black])
    requires InPresentationOrder(result)
    ensures result == [Black, RedEntry, White]
  {
    BandsOfBlackRedWhite();
    assert |result| == |multiset(result)| == 3;
    forall k | 0 <= k < 3
      ensures result[k] == Black || result[k] == RedEntry || result[k] == White
    {
      assert result[k] in multiset(result);
    }
    assert Black in multiset(result) && RedEntry in multiset(result) && White in multiset(result);
  }
}
