/**
 * PaletteUtils::buildDefaultPalette and the private helpers it calls
 * (paletteutils.cpp): turn two lists of loosely typed (name, colour) records
 * into one palette with no repeated colour, ordered dark greys first, then the
 * colours by hue and lightness, then the light greys.
 *
 * The source's loops become methods with loop invariants; each is proved
 * against a specification function defined on the last element first, and the
 * properties the palette promises are lemmas about those functions.
 */
module PaletteUtils {
  import opened Colors
  import opened Variants
  import opened Hsl
  import opened Seqs
  import opened StdSort

  datatype Option<T> = None | Some(value: T)

  /** PaletteUtils::PaletteEntry. */
  datatype PaletteEntry = PaletteEntry(name: string, color: Color)

  /** PaletteUtils::PaletteBucket: an entry with its rounded hue, saturation and lightness. */
  datatype PaletteBucket = PaletteBucket(entry: PaletteEntry, hue: int, saturation: int, lightness: int)

  // ---------------------------------------------------------------------------
  // toEntries

  /**
   * The colour of a record's `color` field: a colour value is taken as it is,
   * and anything else is read through its text; the retry with `toString()`
   * therefore only matters for values that do not convert to a colour.
   */
  function ResolveColor(colorVar: Variant, parse: string -> Color): (color: Color)
    ensures colorVar.ColorValue? ==> color == ValidColor(colorVar.rgba)
    ensures colorVar.Text? ==> color == parse(colorVar.text)
    ensures colorVar.Other? ==> color == if colorVar.text == "" then InvalidColor else parse(colorVar.text)
    ensures colorVar.Invalid? || colorVar.Record? ==> color == InvalidColor
  {
    var color := if CanConvertToColor(colorVar) then ValueAsColor(colorVar, parse) else InvalidColor;
    if color.ValidColor? then color
    else
      var colorString := ToText(colorVar);
      if colorString != "" then parse(colorString) else color
  }

  /**
   * One iteration of toEntries' loop: a record is kept exactly when it is a
   * non-empty map whose colour resolves; a missing name becomes "".
   */
  function ToEntry(entryVar: Variant, parse: string -> Color): (r: Option<PaletteEntry>)
    ensures r.Some? <==>
      && entryVar.Record?
      && entryVar.fields != map[]
      && ResolveColor(Value(entryVar.fields, "color"), parse).ValidColor?
    ensures r.Some? ==> r.value.color.ValidColor?
    ensures r.Some? ==> r.value.color == ResolveColor(Value(entryVar.fields, "color"), parse)
    ensures r.Some? ==> r.value.name == ToText(Value(entryVar.fields, "name"))
    ensures r.Some? && "name" !in entryVar.fields ==> r.value.name == ""
  {
    if !IsValid(entryVar) then None
    else
      var m := ToMap(entryVar);
      if |m| == 0 then None
      else
        var color := ResolveColor(Value(m, "color"), parse);
        if !color.ValidColor? then None
        else Some(PaletteEntry(ToText(Value(m, "name")), color))
  }

  /** The entries toEntries produces: one per accepted record, in input order. */
  function KeptEntries(records: seq<Variant>, parse: string -> Color): seq<PaletteEntry>
  {
    if records == [] then []
    else
      var kept := KeptEntries(records[..|records| - 1], parse);
      match ToEntry(records[|records| - 1], parse)
      case Some(entry) => kept + [entry]
      case None => kept
  }

  /** The positions of the accepted records, in increasing order. */
  function AcceptedIndices(records: seq<Variant>, parse: string -> Color): seq<nat>
  {
    if records == [] then []
    else
      AcceptedIndices(records[..|records| - 1], parse)
      + if ToEntry(records[|records| - 1], parse).Some? then [|records| - 1] else []
  }

  /**
   * toEntries keeps a subsequence of its input: the k-th entry comes from the
   * k-th accepted record, the positions increase, and every accepted record
   * (and no other) is among them. Every kept colour is valid.
   */
  lemma {:induction false} KeptEntriesAreAcceptedRecords(records: seq<Variant>, parse: string -> Color)
    ensures var kept, idx := KeptEntries(records, parse), AcceptedIndices(records, parse);
      && |idx| == |kept|
      && (forall k, l :: 0 <= k < l < |idx| ==> idx[k] < idx[l])
      && (forall k :: 0 <= k < |idx| ==> idx[k] < |records| && ToEntry(records[idx[k]], parse) == Some(kept[k]))
      && (forall i :: 0 <= i < |records| ==> (i in idx <==> ToEntry(records[i], parse).Some?))
      && (forall k :: 0 <= k < |kept| ==> kept[k].color.ValidColor?)
  {
    if records != [] {
      var front := records[..|records| - 1];
      KeptEntriesAreAcceptedRecords(front, parse);
      var idx := AcceptedIndices(front, parse);
      forall k | 0 <= k < |idx|
        ensures idx[k] < |front| && records[idx[k]] == front[idx[k]]
      {
      }
    }
  }

  /** PaletteUtils::toEntries. */
  method ToEntries(entries: seq<Variant>, parse: string -> Color) returns (result: seq<PaletteEntry>)
    ensures result == KeptEntries(entries, parse)
  {
    result := [];
    for i := 0 to |entries|
      invariant result == KeptEntries(entries[..i], parse)
    {
      var entryVar := entries[i];
      assert entries[..i + 1][..i] == entries[..i];
      if !IsValid(entryVar) {
        continue;
      }
      var m := ToMap(entryVar);
      if |m| == 0 {
        continue;
      }
      var colorVar := Value(m, "color");
      var color := InvalidColor;
      if CanConvertToColor(colorVar) {
        color := ValueAsColor(colorVar, parse);
      }
      if !color.ValidColor? {
        var colorString := ToText(colorVar);
        if colorString != "" {
          color := parse(colorString);
        }
      }
      if !color.ValidColor? {
        continue;
      }
      var entry := PaletteEntry(ToText(Value(m, "name")), color);
      result := result + [entry];
    }
    assert entries[..|entries|] == entries;
  }

  // ---------------------------------------------------------------------------
  // mergeUnique

  /** The de-duplication keys of the valid entries of `s`. */
  function ValidKeys(s: seq<PaletteEntry>): set<string>
  {
    if s == [] then {}
    else
      var e := s[|s| - 1];
      ValidKeys(s[..|s| - 1]) + if e.color.ValidColor? then {Key(e.color.rgba)} else {}
  }

  lemma {:induction false} ValidKeysAt(s: seq<PaletteEntry>, key: string)
    ensures key in ValidKeys(s) <==>
      exists i :: 0 <= i < |s| && s[i].color.ValidColor? && Key(s[i].color.rgba) == key
  {
    if s != [] {
      var front := s[..|s| - 1];
      ValidKeysAt(front, key);
      if exists i :: 0 <= i < |s| && s[i].color.ValidColor? && Key(s[i].color.rgba) == key {
        var i :| 0 <= i < |s| && s[i].color.ValidColor? && Key(s[i].color.rgba) == key;
        if i < |front| {
          assert front[i] == s[i];
        }
      }
    }
  }

  /**
   * What mergeUnique returns for the concatenated input: each valid entry is
   * appended unless an entry already kept has its key.
   */
  function Dedup(s: seq<PaletteEntry>): seq<PaletteEntry>
  {
    if s == [] then []
    else
      var kept := Dedup(s[..|s| - 1]);
      var e := s[|s| - 1];
      if e.color.ValidColor? && Key(e.color.rgba) !in ValidKeys(kept) then kept + [e] else kept
  }

  lemma DedupAppend(s: seq<PaletteEntry>, e: PaletteEntry)
    ensures Dedup(s + [e]) ==
      if e.color.ValidColor? && Key(e.color.rgba) !in ValidKeys(Dedup(s)) then Dedup(s) + [e] else Dedup(s)
  {
    assert (s + [e])[..|s|] == s;
  }

  lemma ValidKeysAppend(s: seq<PaletteEntry>, e: PaletteEntry)
    ensures ValidKeys(s + [e]) == ValidKeys(s) + if e.color.ValidColor? then {Key(e.color.rgba)} else {}
  {
    assert (s + [e])[..|s|] == s;
  }

  /** The `appendEntry` lambda of mergeUnique, with the captured `merged` and `seen` passed in and out. */
  method AppendEntry(merged: seq<PaletteEntry>, seen: set<string>, entry: PaletteEntry)
    returns (merged': seq<PaletteEntry>, seen': set<string>)
    ensures entry.color.ValidColor? && Key(entry.color.rgba) !in seen ==>
      merged' == merged + [entry] && seen' == seen + {Key(entry.color.rgba)}
    ensures !(entry.color.ValidColor? && Key(entry.color.rgba) !in seen) ==>
      merged' == merged && seen' == seen
  {
    merged', seen' := merged, seen;
    if !entry.color.ValidColor? {
      return;
    }
    var key := Key(entry.color.rgba);
    if key in seen {
      return;
    }
    seen' := seen' + {key};
    merged' := merged' + [entry];
  }

  /** One call of `appendEntry` on the next input entry extends the de-duplication by that entry. */
  lemma DedupStep(front: seq<PaletteEntry>, entries: seq<PaletteEntry>, i: nat, merged: seq<PaletteEntry>, seen: set<string>,
                  merged': seq<PaletteEntry>, seen': set<string>)
    requires i < |entries|
    requires merged == Dedup(front + entries[..i]) && seen == ValidKeys(merged)
    requires entries[i].color.ValidColor? && Key(entries[i].color.rgba) !in seen ==>
      merged' == merged + [entries[i]] && seen' == seen + {Key(entries[i].color.rgba)}
    requires !(entries[i].color.ValidColor? && Key(entries[i].color.rgba) !in seen) ==>
      merged' == merged && seen' == seen
    ensures merged' == Dedup(front + entries[..i + 1]) && seen' == ValidKeys(merged')
  {
    assert (front + entries[..i]) + [entries[i]] == front + entries[..i + 1];
    DedupAppend(front + entries[..i], entries[i]);
    ValidKeysAppend(merged, entries[i]);
  }

  /** One of mergeUnique's two loops: `appendEntry` on every entry of `entries`, in order. */
  method AppendAll(merged: seq<PaletteEntry>, seen: set<string>, entries: seq<PaletteEntry>, ghost front: seq<PaletteEntry>)
    returns (merged': seq<PaletteEntry>, seen': set<string>)
    requires merged == Dedup(front) && seen == ValidKeys(merged)
    ensures merged' == Dedup(front + entries) && seen' == ValidKeys(merged')
  {
    merged', seen' := merged, seen;
    assert front + entries[..0] == front;
    for i := 0 to |entries|
      invariant merged' == Dedup(front + entries[..i])
      invariant seen' == ValidKeys(merged')
    {
      ghost var merged0, seen0 := merged', seen';
      merged', seen' := AppendEntry(merged', seen', entries[i]);
      DedupStep(front, entries, i, merged0, seen0, merged', seen');
    }
    assert entries[..|entries|] == entries;
  }

  /** PaletteUtils::mergeUnique. */
  method MergeUnique(primary: seq<PaletteEntry>, extended: seq<PaletteEntry>) returns (merged: seq<PaletteEntry>)
    ensures merged == Dedup(primary + extended)
  {
    var seen: set<string>;
    merged, seen := AppendAll([], {}, primary, []);
    assert [] + primary == primary;
    merged, seen := AppendAll(merged, seen, extended, primary);
  }

  /** mergeUnique drops only repeats: the keys it keeps are exactly the valid keys of its input. */
  lemma {:induction false} DedupKeepsEveryKey(s: seq<PaletteEntry>)
    ensures ValidKeys(Dedup(s)) == ValidKeys(s)
  {
    if s != [] {
      var front := s[..|s| - 1];
      DedupKeepsEveryKey(front);
      var kept := Dedup(front);
      var e := s[|s| - 1];
      if e.color.ValidColor? && Key(e.color.rgba) !in ValidKeys(kept) {
        assert (kept + [e])[..|kept|] == kept;
      }
    }
  }

  /** No two merged entries share a key, and every merged colour is valid. */
  lemma {:induction false} DedupKeysAreDistinct(s: seq<PaletteEntry>)
    ensures forall i :: 0 <= i < |Dedup(s)| ==> Dedup(s)[i].color.ValidColor?
    ensures forall i, j :: 0 <= i < j < |Dedup(s)| ==>
      Key(Dedup(s)[i].color.rgba) != Key(Dedup(s)[j].color.rgba)
  {
    if s != [] {
      var front := s[..|s| - 1];
      DedupKeysAreDistinct(front);
      var kept := Dedup(front);
      var e := s[|s| - 1];
      if e.color.ValidColor? && Key(e.color.rgba) !in ValidKeys(kept) {
        forall i | 0 <= i < |kept|
          ensures Key(kept[i].color.rgba) != Key(e.color.rgba)
        {
          ValidKeysAt(kept, Key(kept[i].color.rgba));
        }
      }
    }
  }

  /** The merged list is the input with some entries deleted, in the input's order. */
  lemma {:induction false} DedupIsSubsequence(s: seq<PaletteEntry>)
    ensures IsSubsequence(Dedup(s), s)
  {
    if s != [] {
      var front := s[..|s| - 1];
      DedupIsSubsequence(front);
      var kept := Dedup(front);
      var e := s[|s| - 1];
      if e.color.ValidColor? && Key(e.color.rgba) !in ValidKeys(kept) {
        assert (kept + [e])[..|kept|] == kept;
      }
    }
  }

  /** `s[i]` is `e`, a valid entry, and no valid entry before it has its key. */
  ghost predicate FirstOccurrenceAt(s: seq<PaletteEntry>, i: int, e: PaletteEntry)
  {
    && 0 <= i < |s| && s[i] == e && e.color.ValidColor?
    && forall j :: 0 <= j < i && s[j].color.ValidColor? ==> Key(s[j].color.rgba) != Key(e.color.rgba)
  }

  ghost predicate IsFirstOccurrence(s: seq<PaletteEntry>, e: PaletteEntry)
  {
    exists i :: FirstOccurrenceAt(s, i, e)
  }

  /**
   * First occurrence wins: every merged entry is, name included, an entry of
   * the input that no earlier valid entry shares a key with.
   */
  lemma {:induction false} DedupKeepsFirstOccurrence(s: seq<PaletteEntry>)
    ensures forall k :: 0 <= k < |Dedup(s)| ==> IsFirstOccurrence(s, Dedup(s)[k])
  {
    if s != [] {
      var front, e := s[..|s| - 1], s[|s| - 1];
      assert s == front + [e];
      DedupKeepsFirstOccurrence(front);
      DedupAppend(front, e);
      var kept := Dedup(front);
      forall k | 0 <= k < |Dedup(s)|
        ensures IsFirstOccurrence(s, Dedup(s)[k])
      {
        if k < |kept| {
          var i :| FirstOccurrenceAt(front, i, kept[k]);
          FirstOccurrenceSurvivesAppend(front, e, i, kept[k]);
        } else {
          DedupKeepsEveryKey(front);
          FirstOccurrenceOfNewKey(front, e);
        }
      }
    }
  }

  lemma FirstOccurrenceSurvivesAppend(s: seq<PaletteEntry>, e: PaletteEntry, i: int, x: PaletteEntry)
    requires FirstOccurrenceAt(s, i, x)
    ensures FirstOccurrenceAt(s + [e], i, x)
  {
  }

  lemma FirstOccurrenceOfNewKey(s: seq<PaletteEntry>, e: PaletteEntry)
    requires e.color.ValidColor? && Key(e.color.rgba) !in ValidKeys(s)
    ensures FirstOccurrenceAt(s + [e], |s|, e)
  {
    ValidKeysAt(s, Key(e.color.rgba));
  }

  /**
   * The positions of the first occurrences of the input's valid keys, in
   * increasing order: `i` is listed when `s[i]` is valid and no valid entry
   * before it has its key.
   */
  ghost function FirstIndices(s: seq<PaletteEntry>): seq<nat>
  {
    if s == [] then []
    else
      var e := s[|s| - 1];
      FirstIndices(s[..|s| - 1])
      + if e.color.ValidColor? && Key(e.color.rgba) !in ValidKeys(s[..|s| - 1]) then [|s| - 1] else []
  }

  /** `kept[k]` is `s[idx[k]]` for every k, and the positions increase and lie below `n`. */
  ghost predicate IndexedBy(kept: seq<PaletteEntry>, idx: seq<nat>, s: seq<PaletteEntry>, n: int)
  {
    && |idx| == |kept| && n <= |s|
    && (forall k, l :: 0 <= k < l < |idx| ==> idx[k] < idx[l])
    && (forall k :: 0 <= k < |idx| ==> idx[k] < n && kept[k] == s[idx[k]])
  }

  lemma IndexedByStep(kept: seq<PaletteEntry>, idx: seq<nat>, s: seq<PaletteEntry>, n: int)
    requires IndexedBy(kept, idx, s, n) && 0 <= n < |s|
    ensures IndexedBy(kept, idx, s, n + 1)
    ensures IndexedBy(kept + [s[n]], idx + [n], s, n + 1)
  {
  }

  /** Extending the prefix `s[..n - 1]` by `s[n - 1]` adds it to both Dedup and FirstIndices, or to neither. */
  lemma PrefixStep(s: seq<PaletteEntry>, n: nat)
    requires 0 < n <= |s|
    ensures var front, e := s[..n - 1], s[n - 1];
      var first := e.color.ValidColor? && Key(e.color.rgba) !in ValidKeys(front);
      && Dedup(s[..n]) == (if first then Dedup(front) + [e] else Dedup(front))
      && FirstIndices(s[..n]) == FirstIndices(front) + (if first then [n - 1] else [])
  {
    assert s[..n][..n - 1] == s[..n - 1];
    FirstIndicesStep(s, n);
    DedupKeepsEveryKey(s[..n - 1]);
  }

  lemma FirstIndicesStep(s: seq<PaletteEntry>, n: nat)
    requires 0 < n <= |s|
    ensures var front, e := s[..n - 1], s[n - 1];
      FirstIndices(s[..n]) ==
        FirstIndices(front) + (if e.color.ValidColor? && Key(e.color.rgba) !in ValidKeys(front) then [n - 1] else [])
  {
    assert s[..n][..n - 1] == s[..n - 1];
  }

  /** The claim of DedupAtFirstIndices for the prefix `s[..n]`. */
  lemma {:induction false} DedupOfPrefixAtFirstIndices(s: seq<PaletteEntry>, n: nat)
    requires n <= |s|
    ensures IndexedBy(Dedup(s[..n]), FirstIndices(s[..n]), s, n)
  {
    if n > 0 {
      DedupOfPrefixAtFirstIndices(s, n - 1);
      PrefixStep(s, n);
      IndexedByStep(Dedup(s[..n - 1]), FirstIndices(s[..n - 1]), s, n - 1);
      assert FirstIndices(s[..n - 1]) + [] == FirstIndices(s[..n - 1]);
    }
  }

  /**
   * First-seen order: the k-th merged entry is the input entry at the k-th
   * first-occurrence position, and those positions increase.
   */
  lemma DedupAtFirstIndices(s: seq<PaletteEntry>)
    ensures var kept, idx := Dedup(s), FirstIndices(s);
      && |idx| == |kept|
      && (forall k, l :: 0 <= k < l < |idx| ==> idx[k] < idx[l])
      && (forall k :: 0 <= k < |idx| ==> idx[k] < |s| && kept[k] == s[idx[k]])
  {
    DedupOfPrefixAtFirstIndices(s, |s|);
    assert s[..|s|] == s;
  }

  /** `s[n - 1]` is a first occurrence exactly when it is valid and its key is new to `s[..n - 1]`. */
  lemma FirstOccurrenceAtEnd(s: seq<PaletteEntry>, n: nat)
    requires 0 < n <= |s|
    ensures FirstOccurrenceAt(s, n - 1, s[n - 1]) <==>
      s[n - 1].color.ValidColor? && Key(s[n - 1].color.rgba) !in ValidKeys(s[..n - 1])
  {
    if s[n - 1].color.ValidColor? {
      ValidKeysAt(s[..n - 1], Key(s[n - 1].color.rgba));
      assert forall j :: 0 <= j < n - 1 ==> s[..n - 1][j] == s[j];
    }
  }

  /** The positions listed for `s[..n]` lie below `n`. */
  lemma {:induction false} FirstIndicesBelow(s: seq<PaletteEntry>, n: nat)
    requires n <= |s|
    ensures forall i :: i in FirstIndices(s[..n]) ==> 0 <= i < n
  {
    if n > 0 {
      FirstIndicesBelow(s, n - 1);
      FirstIndicesStep(s, n);
    }
  }

  /** Whether position `i` is listed does not change when the prefix grows past it. */
  lemma FirstIndicesMemberStep(s: seq<PaletteEntry>, n: nat, i: nat)
    requires 0 < n <= |s| && i < n
    requires i < n - 1 ==>
      (i in FirstIndices(s[..n - 1]) <==> s[i].color.ValidColor? && Key(s[i].color.rgba) !in ValidKeys(s[..i]))
    ensures i in FirstIndices(s[..n]) <==> s[i].color.ValidColor? && Key(s[i].color.rgba) !in ValidKeys(s[..i])
  {
    var idx := FirstIndices(s[..n - 1]);
    if i < n - 1 {
      FirstIndicesGrow(s, n);
      assert i in FirstIndices(s[..n]) <==> i in idx;
    } else {
      FirstIndicesBelow(s, n - 1);
      FirstIndicesStep(s, n);
      assert n - 1 !in idx;
    }
  }

  /** Growing the prefix by one entry appends its position to the list, or leaves the list alone. */
  lemma FirstIndicesGrow(s: seq<PaletteEntry>, n: nat)
    requires 0 < n <= |s|
    ensures FirstIndices(s[..n]) == FirstIndices(s[..n - 1]) || FirstIndices(s[..n]) == FirstIndices(s[..n - 1]) + [n - 1]
  {
    FirstIndicesStep(s, n);
  }

  /** Position `i < n` is listed for `s[..n]` exactly when `s[i]` is valid and its key is new to `s[..i]`. */
  lemma {:induction false} FirstIndicesOfPrefix(s: seq<PaletteEntry>, n: nat)
    requires n <= |s|
    ensures forall i :: 0 <= i < n ==>
      (i in FirstIndices(s[..n]) <==> s[i].color.ValidColor? && Key(s[i].color.rgba) !in ValidKeys(s[..i]))
  {
    if n > 0 {
      FirstIndicesOfPrefix(s, n - 1);
      forall i | 0 <= i < n
        ensures i in FirstIndices(s[..n]) <==> s[i].color.ValidColor? && Key(s[i].color.rgba) !in ValidKeys(s[..i])
      {
        FirstIndicesMemberStep(s, n, i);
      }
    }
  }

  /** The first-occurrence positions are exactly those where `FirstOccurrenceAt` holds. */
  lemma FirstIndicesAreFirstOccurrences(s: seq<PaletteEntry>)
    ensures forall i :: 0 <= i < |s| ==> (i in FirstIndices(s) <==> FirstOccurrenceAt(s, i, s[i]))
  {
    FirstIndicesOfPrefix(s, |s|);
    assert s[..|s|] == s;
    forall i | 0 <= i < |s|
      ensures i in FirstIndices(s) <==> FirstOccurrenceAt(s, i, s[i])
    {
      FirstOccurrenceAtEnd(s, i + 1);
    }
  }

  // ---------------------------------------------------------------------------
  // buildDefaultPalette: classification and bucketing

  /** Lines 26-35: an entry with the hue, saturation and lightness rgbToHsl gives it. */
  function Classify(entry: PaletteEntry): PaletteBucket
  {
    var hsl := RgbToHsl(entry.color);
    PaletteBucket(entry, hsl.hue, hsl.saturation, hsl.lightness)
  }

  predicate IsNeutral(b: PaletteBucket) { b.saturation < 15 }

  predicate IsColored(b: PaletteBucket) { !IsNeutral(b) }

  function EntryOf(b: PaletteBucket): PaletteEntry { b.entry }

  function Entries(bs: seq<PaletteBucket>): seq<PaletteEntry> { Map(bs, EntryOf) }

  function Classified(es: seq<PaletteEntry>): seq<PaletteBucket> { Map(es, Classify) }

  /** Lines 25-42: classify every merged entry and push it onto the neutral or the coloured list. */
  method SplitBuckets(merged: seq<PaletteEntry>) returns (neutrals: seq<PaletteBucket>, colored: seq<PaletteBucket>)
    ensures neutrals == Filter(Classified(merged), IsNeutral)
    ensures colored == Filter(Classified(merged), IsColored)
  {
    neutrals, colored := [], [];
    ghost var all := Classified(merged);
    for i := 0 to |merged|
      invariant neutrals == Filter(all[..i], IsNeutral)
      invariant colored == Filter(all[..i], IsColored)
    {
      var hsl := RgbToHsl(merged[i].color);
      var bucket := PaletteBucket(merged[i], hsl.hue, hsl.saturation, hsl.lightness);
      assert all[..i + 1][..i] == all[..i] && all[i] == bucket;
      if bucket.saturation < 15 {
        neutrals := neutrals + [bucket];
      } else {
        colored := colored + [bucket];
      }
    }
    assert all[..|merged|] == all;
  }

  /**
   * Every entry lands in exactly one bucket: the neutral bucket holds
   * saturations below 15, the coloured one 15 and above, and together they
   * hold each entry as often as the input does. Each bucket carries its
   * entry's own classification.
   */
  lemma {:induction false} EveryEntryInExactlyOneBucket(es: seq<PaletteEntry>)
    ensures forall b :: b in Filter(Classified(es), IsNeutral) ==> b.saturation < 15 && b == Classify(b.entry)
    ensures forall b :: b in Filter(Classified(es), IsColored) ==> b.saturation >= 15 && b == Classify(b.entry)
    ensures multiset(Entries(Filter(Classified(es), IsNeutral))) + multiset(Entries(Filter(Classified(es), IsColored)))
      == multiset(es)
  {
    var all := Classified(es);
    var neutrals, colored := Filter(all, IsNeutral), Filter(all, IsColored);
    FilterSplit(all, IsNeutral, IsColored);
    MapPreservesPermutation(neutrals + colored, all, EntryOf);
    MapConcat(neutrals, colored, EntryOf);
    assert Entries(all) == es;
  }

  // ---------------------------------------------------------------------------
  // buildDefaultPalette: sorting

  /** The comparator of the first std::sort (lines 44-46). */
  predicate NeutralLess(a: PaletteBucket, b: PaletteBucket)
  {
    a.lightness < b.lightness
  }

  /** The comparator of the second std::sort (lines 48-53): hue, then lightness. */
  predicate ColoredLess(a: PaletteBucket, b: PaletteBucket)
  {
    if a.hue == b.hue then a.lightness < b.lightness else a.hue < b.hue
  }

  /** Both comparators meet std::sort's requirement. */
  lemma ComparatorsAreStrictWeakOrders()
    ensures StrictWeakOrder(NeutralLess)
    ensures StrictWeakOrder(ColoredLess)
  {
  }

  // ---------------------------------------------------------------------------
  // buildDefaultPalette: assembly

  predicate IsDark(b: PaletteBucket) { b.lightness < 50 }

  predicate IsLight(b: PaletteBucket) { b.lightness >= 50 }

  /** The buckets in the order lines 55-70 emit them. */
  function Assembled(neutrals: seq<PaletteBucket>, colored: seq<PaletteBucket>): seq<PaletteBucket>
  {
    Filter(neutrals, IsDark) + colored + Filter(neutrals, IsLight)
  }

  lemma EntriesAppend(bs: seq<PaletteBucket>, b: PaletteBucket)
    ensures Entries(bs + [b]) == Entries(bs) + [b.entry]
  {
  }

  lemma FilterAppend(s: seq<PaletteBucket>, i: int, keep: PaletteBucket -> bool)
    requires 0 <= i < |s|
    ensures Filter(s[..i + 1], keep) == Filter(s[..i], keep) + if keep(s[i]) then [s[i]] else []
  {
    assert s[..i + 1][..i] == s[..i];
  }

  /** One step of a loop that appends the entry of `s[i]` when `keep` accepts it. */
  lemma PlaceStep(prefix: seq<PaletteBucket>, s: seq<PaletteBucket>, i: int, keep: PaletteBucket -> bool,
                  result: seq<PaletteEntry>, result': seq<PaletteEntry>)
    requires 0 <= i < |s|
    requires result == Entries(prefix + Filter(s[..i], keep))
    requires result' == if keep(s[i]) then result + [s[i].entry] else result
    ensures result' == Entries(prefix + Filter(s[..i + 1], keep))
  {
    FilterAppend(s, i, keep);
    if keep(s[i]) {
      assert prefix + Filter(s[..i + 1], keep) == (prefix + Filter(s[..i], keep)) + [s[i]];
      EntriesAppend(prefix + Filter(s[..i], keep), s[i]);
    } else {
      assert Filter(s[..i + 1], keep) == Filter(s[..i], keep);
    }
  }

  /** One step of a loop that appends the entry of every `s[i]`. */
  lemma CopyStep(prefix: seq<PaletteBucket>, s: seq<PaletteBucket>, i: int,
                 result: seq<PaletteEntry>, result': seq<PaletteEntry>)
    requires 0 <= i < |s|
    requires result == Entries(prefix + s[..i])
    requires result' == result + [s[i].entry]
    ensures result' == Entries(prefix + s[..i + 1])
  {
    assert prefix + s[..i + 1] == (prefix + s[..i]) + [s[i]];
    EntriesAppend(prefix + s[..i], s[i]);
  }

  /**
   * The slicing facts that carry Assemble's loop invariants from one loop to
   * the next. Stated here so that the method does not reason about sequence
   * equality itself.
   */
  lemma PrefixBounds(prefix: seq<PaletteBucket>, s: seq<PaletteBucket>, keep: PaletteBucket -> bool)
    ensures prefix + Filter(s[..0], keep) == prefix + s[..0] == prefix
    ensures prefix + Filter(s[..|s|], keep) == prefix + Filter(s, keep)
    ensures prefix + s[..|s|] == prefix + s
    ensures [] + Filter(s, keep) == Filter(s, keep)
  {
    assert s[..|s|] == s;
  }

  /** Lines 55-70: dark neutrals, then every coloured entry, then light neutrals. */
  method Assemble(neutrals: seq<PaletteBucket>, colored: seq<PaletteBucket>) returns (result: seq<PaletteEntry>)
    ensures result == Entries(Assembled(neutrals, colored))
  {
    result := [];
    PrefixBounds([], neutrals, IsDark);
    for i := 0 to |neutrals|
      invariant result == Entries([] + Filter(neutrals[..i], IsDark))
    {
      ghost var result0 := result;
      if neutrals[i].lightness < 50 {
        result := result + [neutrals[i].entry];
      }
      PlaceStep([], neutrals, i, IsDark, result0, result);
    }
    ghost var dark := Filter(neutrals, IsDark);
    PrefixBounds(dark, colored, IsDark);
    for i := 0 to |colored|
      invariant result == Entries(dark + colored[..i])
    {
      ghost var result0 := result;
      result := result + [colored[i].entry];
      CopyStep(dark, colored, i, result0, result);
    }
    PrefixBounds(dark + colored, neutrals, IsLight);
    for i := 0 to |neutrals|
      invariant result == Entries((dark + colored) + Filter(neutrals[..i], IsLight))
    {
      ghost var result0 := result;
      if neutrals[i].lightness >= 50 {
        result := result + [neutrals[i].entry];
      }
      PlaceStep(dark + colored, neutrals, i, IsLight, result0, result);
    }
  }

  /** Assembly neither loses nor repeats an entry of either bucket. */
  lemma {:induction false} AssembledIsPermutation(neutrals: seq<PaletteBucket>, colored: seq<PaletteBucket>)
    ensures multiset(Entries(Assembled(neutrals, colored)))
      == multiset(Entries(neutrals)) + multiset(Entries(colored))
  {
    var dark, light := Filter(neutrals, IsDark), Filter(neutrals, IsLight);
    FilterSplit(neutrals, IsDark, IsLight);
    MapPreservesPermutation(dark + colored + light, neutrals + colored, EntryOf);
    MapConcat(neutrals, colored, EntryOf);
  }

  /** 0 for dark neutrals, 1 for coloured entries, 2 for light neutrals. */
  function Band(b: PaletteBucket): int
  {
    if IsColored(b) then 1 else if IsDark(b) then 0 else 2
  }

  /** `x` may be shown before `y`: an earlier band, or the same band and not out of sort order. */
  predicate MayPrecede(x: PaletteBucket, y: PaletteBucket)
  {
    Band(x) < Band(y)
    || (Band(x) == Band(y) && if Band(x) == 1 then !ColoredLess(y, x) else !NeutralLess(y, x))
  }

  /** The order of the default palette, judged from each entry's own colour. */
  ghost predicate InPresentationOrder(es: seq<PaletteEntry>)
  {
    forall i, j :: 0 <= i < j < |es| ==> MayPrecede(Classify(es[i]), Classify(es[j]))
  }

  /** Filtering a sorted sequence leaves it sorted. */
  lemma {:induction false} FilterKeepsSorted(s: seq<PaletteBucket>, keep: PaletteBucket -> bool, less: (PaletteBucket, PaletteBucket) -> bool)
    requires SortedBy(s, less)
    ensures SortedBy(Filter(s, keep), less)
  {
    if s != [] {
      var front := s[..|s| - 1];
      assert SortedBy(front, less);
      FilterKeepsSorted(front, keep, less);
      var r := Filter(front, keep);
      forall x | x in r
        ensures !less(s[|s| - 1], x)
      {
        var k :| 0 <= k < |front| && front[k] == x;
        assert s[k] == x;
      }
      if keep(s[|s| - 1]) {
        var t := r + [s[|s| - 1]];
        forall p, q | 0 <= p < q < |t|
          ensures !less(t[q], t[p])
        {
          assert t[p] == r[p] && r[p] in r;
        }
      }
    }
  }

  /** Every bucket of `bs` may be shown before every later one. */
  ghost predicate BucketsInOrder(bs: seq<PaletteBucket>)
  {
    forall i, j :: 0 <= i < j < |bs| ==> MayPrecede(bs[i], bs[j])
  }

  /** Within one band, the band's comparator decides the order. */
  lemma SortedBandInOrder(bs: seq<PaletteBucket>, band: int)
    requires forall b :: b in bs ==> Band(b) == band
    requires band == 1 ==> SortedBy(bs, ColoredLess)
    requires band != 1 ==> SortedBy(bs, NeutralLess)
    ensures BucketsInOrder(bs)
  {
    forall i, j | 0 <= i < j < |bs|
      ensures MayPrecede(bs[i], bs[j])
    {
      assert bs[i] in bs && bs[j] in bs;
    }
  }

  /** Earlier bands before later bands. */
  lemma ConcatInOrder(x: seq<PaletteBucket>, y: seq<PaletteBucket>)
    requires BucketsInOrder(x) && BucketsInOrder(y)
    requires forall a, b :: a in x && b in y ==> Band(a) < Band(b)
    ensures BucketsInOrder(x + y)
  {
    var xy := x + y;
    forall i, j | 0 <= i < j < |xy|
      ensures MayPrecede(xy[i], xy[j])
    {
      if j < |x| {
        assert xy[i] == x[i] && xy[j] == x[j];
      } else if i >= |x| {
        assert xy[i] == y[i - |x|] && xy[j] == y[j - |x|];
      } else {
        assert xy[i] == x[i] && xy[j] == y[j - |x|];
        assert x[i] in x && y[j - |x|] in y;
      }
    }
  }

  /** Buckets that carry their own entry's classification can be judged from their entries alone. */
  lemma EntriesInOrder(bs: seq<PaletteBucket>)
    requires BucketsInOrder(bs)
    requires forall b :: b in bs ==> b == Classify(b.entry)
    ensures InPresentationOrder(Entries(bs))
  {
    var es := Entries(bs);
    forall i | 0 <= i < |bs|
      ensures Classify(es[i]) == bs[i]
    {
      assert bs[i] in bs;
    }
  }

  /**
   * With both buckets sorted by their comparators, the assembled palette is
   * in presentation order: dark neutrals by lightness (below 50), then the
   * coloured entries by hue and lightness, then light neutrals by lightness
   * (50 and above).
   */
  lemma {:induction false} AssembledInPresentationOrder(neutrals: seq<PaletteBucket>, colored: seq<PaletteBucket>)
    requires SortedBy(neutrals, NeutralLess) && SortedBy(colored, ColoredLess)
    requires forall b :: b in neutrals ==> IsNeutral(b) && b == Classify(b.entry)
    requires forall b :: b in colored ==> IsColored(b) && b == Classify(b.entry)
    ensures InPresentationOrder(Entries(Assembled(neutrals, colored)))
  {
    var dark, light := Filter(neutrals, IsDark), Filter(neutrals, IsLight);
    FilterKeepsSorted(neutrals, IsDark, NeutralLess);
    FilterKeepsSorted(neutrals, IsLight, NeutralLess);
    SortedBandInOrder(dark, 0);
    SortedBandInOrder(colored, 1);
    SortedBandInOrder(light, 2);
    ConcatInOrder(dark, colored);
    ConcatInOrder(dark + colored, light);
    EntriesInOrder(dark + colored + light);
  }

  // ---------------------------------------------------------------------------
  // buildDefaultPalette

  /** The merged list buildDefaultPalette classifies (lines 16-18). */
  function Merged(primary: seq<Variant>, extended: seq<Variant>, parse: string -> Color): seq<PaletteEntry>
  {
    Dedup(KeptEntries(primary, parse) + KeptEntries(extended, parse))
  }

  /** toEntries returns nothing exactly when it accepts no record. */
  lemma {:induction false} KeptEmptyIffNoneAccepted(records: seq<Variant>, parse: string -> Color)
    ensures KeptEntries(records, parse) == [] <==> forall v :: v in records ==> ToEntry(v, parse).None?
  {
    if records != [] {
      var front := records[..|records| - 1];
      KeptEmptyIffNoneAccepted(front, parse);
      assert records == front + [records[|records| - 1]];
    }
  }

  /**
   * The palette is empty exactly when no record of either list is a
   * non-empty map with a resolvable colour.
   */
  lemma {:induction false} MergedEmptyIffNothingAccepted(primary: seq<Variant>, extended: seq<Variant>, parse: string -> Color)
    ensures Merged(primary, extended, parse) == [] <==>
      forall v :: v in primary + extended ==> ToEntry(v, parse).None?
  {
    KeptEmptyIffNoneAccepted(primary, parse);
    KeptEmptyIffNoneAccepted(extended, parse);
    var kept := KeptEntries(primary, parse) + KeptEntries(extended, parse);
    if kept != [] {
      KeptEntriesAreAcceptedRecords(primary, parse);
      KeptEntriesAreAcceptedRecords(extended, parse);
      var e := kept[0];
      assert e.color.ValidColor?;
      ValidKeysAt(kept, Key(e.color.rgba));
      DedupKeepsEveryKey(kept);
    }
  }

  /**
   * Whatever order the two sorts leave equivalent entries in, the assembled
   * palette holds every merged entry exactly once, in presentation order.
   */
  lemma {:induction false} SortedBucketsMakeThePalette(
    merged: seq<PaletteEntry>, neutrals: seq<PaletteBucket>, colored: seq<PaletteBucket>)
    requires multiset(neutrals) == multiset(Filter(Classified(merged), IsNeutral))
    requires multiset(colored) == multiset(Filter(Classified(merged), IsColored))
    requires SortedBy(neutrals, NeutralLess) && SortedBy(colored, ColoredLess)
    ensures multiset(Entries(Assembled(neutrals, colored))) == multiset(merged)
    ensures InPresentationOrder(Entries(Assembled(neutrals, colored)))
  {
    var neutralList, coloredList := Filter(Classified(merged), IsNeutral), Filter(Classified(merged), IsColored);
    EveryEntryInExactlyOneBucket(merged);
    AssembledIsPermutation(neutrals, colored);
    MapPreservesPermutation(neutrals, neutralList, EntryOf);
    MapPreservesPermutation(colored, coloredList, EntryOf);
    forall b | b in neutrals
      ensures IsNeutral(b) && b == Classify(b.entry)
    {
      assert b in multiset(neutralList);
    }
    forall b | b in colored
      ensures IsColored(b) && b == Classify(b.entry)
    {
      assert b in multiset(coloredList);
    }
    AssembledInPresentationOrder(neutrals, colored);
  }

  /** The postconditions of buildDefaultPalette, from what its stages establish. */
  lemma PaletteOfSortedBuckets(primary: seq<Variant>, extended: seq<Variant>, parse: string -> Color,
                               merged: seq<PaletteEntry>, neutrals: seq<PaletteBucket>, colored: seq<PaletteBucket>)
    requires merged == Merged(primary, extended, parse)
    requires multiset(neutrals) == multiset(Filter(Classified(merged), IsNeutral))
    requires multiset(colored) == multiset(Filter(Classified(merged), IsColored))
    requires SortedBy(neutrals, NeutralLess) && SortedBy(colored, ColoredLess)
    ensures var result := Entries(Assembled(neutrals, colored));
      && multiset(result) == multiset(merged)
      && |result| == |merged|
      && InPresentationOrder(result)
      && ((forall v :: v in primary + extended ==> ToEntry(v, parse).None?) ==> result == [])
  {
    var result := Entries(Assembled(neutrals, colored));
    SortedBucketsMakeThePalette(merged, neutrals, colored);
    assert |result| == |multiset(result)| == |multiset(merged)| == |merged|;
    MergedEmptyIffNothingAccepted(primary, extended, parse);
  }

  /** std::sort over the buckets of one list, in place in an array of its own. */
  method SortBuckets(s: seq<PaletteBucket>, less: (PaletteBucket, PaletteBucket) -> bool) returns (r: seq<PaletteBucket>)
    requires StrictWeakOrder(less)
    ensures SortedBy(r, less) && multiset(r) == multiset(s)
  {
    var a := new PaletteBucket[|s|](i requires 0 <= i < |s| => s[i]);
    assert a[..] == s;
    Sort(a, less);
    r := a[..];
  }

  /** PaletteUtils::buildDefaultPalette, with `toVariantList` taken as the identity on the entries. */
  method BuildDefaultPalette(primary: seq<Variant>, extended: seq<Variant>, parse: string -> Color)
    returns (result: seq<PaletteEntry>)
    ensures multiset(result) == multiset(Merged(primary, extended, parse))
    ensures |result| == |Merged(primary, extended, parse)|
    ensures InPresentationOrder(result)
    ensures (forall v :: v in primary + extended ==> ToEntry(v, parse).None?) ==> result == []
  {
    var primaryEntries := ToEntries(primary, parse);
    var extendedEntries := ToEntries(extended, parse);
    var merged := MergeUnique(primaryEntries, extendedEntries);

    var neutralList, coloredList := SplitBuckets(merged);

    ComparatorsAreStrictWeakOrders();
    var neutrals := SortBuckets(neutralList, NeutralLess);
    var colored := SortBuckets(coloredList, ColoredLess);

    result := Assemble(neutrals, colored);
    PaletteOfSortedBuckets(primary, extended, parse, merged, neutrals, colored);
  }
}
