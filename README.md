# Default palette builder

This project models the palette builder of a Qt desktop application shell:
`PaletteUtils::buildDefaultPalette` and the helpers it calls, in
`App/paletteutils.cpp`. The builder gets two lists of loosely typed records
from the QML layer, the "primary" and the "extended" palette. It returns one
list of (name, colour) entries built in five stages:

1. `toEntries` drops every record that is not a non-empty map or whose colour
   does not resolve. A missing name becomes the empty string.
2. `mergeUnique` concatenates the two lists and keeps the first entry for each
   lower-case `#rrggbb` key. Alpha is not part of the key.
3. `rgbToHsl` gives each entry a rounded hue, saturation and lightness.
4. Entries with saturation below 15 are neutrals and the rest are coloured.
   `std::sort` orders the neutrals by lightness and the coloured entries by
   hue, then lightness.
5. The result is: neutrals with lightness below 50, then all coloured entries,
   then neutrals with lightness 50 or more.

Modules:

- `Colors` (colors.dfy): the QColor subset the builder uses. A colour is valid
  or invalid, with 8-bit channels. Its `#rrggbb` name is the duplicate key.
- `Variants` (variants.dfy): the QVariant subset the builder uses (`isValid`,
  `toMap`, `canConvert<QColor>`, `value<QColor>`, `toString`).
- `Hsl` (hsl.dfy): `rgbToHsl` and `qRound`, computed in exact rational
  arithmetic.
- `Seqs` (seqs.dfy): filtering, elementwise mapping and subsequences.
- `StdSort` (std_sort.dfy): `std::sort` with a comparator, modelled as an
  in-place insertion sort on an array. It promises sortedness and permutation
  only.
- `PaletteUtils` (palette_utils.dfy): the pipeline. Each loop of the source is
  a method proved against a specification function, and the palette's
  properties are lemmas about those functions.
- `PaletteExamples` (palette_examples.dfy): concrete cases of the contract.

Colour-string parsing (`QColor(QString)`) is a parameter, `parse: string ->
Color`. Every operation that reads a colour from text takes it.

Two properties of the code are worth knowing before reading the contracts:

- The rounded hue can be 360, not only 0..359. `#ff0001` has a hue of 359.76
  degrees, which `qRound` makes 360 (`Hsl.HueRoundsToFullTurn`). Such a
  near-red therefore sorts after every coloured entry whose rounded hue is
  below 360, pure red included.
- `std::sort` is not stable, so entries with equal sort keys may come out in
  any order relative to each other. The model states sortedness and
  permutation only.

## Model

| member | source | states |
|---|---|---|
| `Colors.KeyIdentifiesRgb` | App/paletteutils.cpp:125 | Two colours have the same de-duplication key exactly when their red, green and blue channels agree. Alpha is ignored, and different RGB triples never collide. |
| `Colors.NameIsLowerCase` | App/paletteutils.cpp:125 | The `toLower()` applied to the `#rrggbb` name changes nothing, because the name is already lower case. |
| `Hsl.QRound` | App/paletteutils.cpp:170-172 | qRound returns an integer within one half of its argument. |
| `Hsl.SaturationBounds` | App/paletteutils.cpp:157-158 | For a chromatic colour, both branches of the saturation formula give a value in [0, 1]. |
| `Hsl.HueBounds` | App/paletteutils.cpp:160-167 | For a chromatic colour, the six-sector hue divided by 6 lies in [0, 1), whichever channel is the maximum. |
| `Hsl.RgbToHsl` | App/paletteutils.cpp:143-173 | The conversion itself: exact channel fractions, the max/min lightness, the two-branch saturation and the three-sector hue, each rounded with qRound. It has no contract of its own; `Hsl.HslRanges`, `Hsl.GreyIsAchromatic` and `Hsl.HueRoundsToFullTurn` state its ranges and cases. |
| `Hsl.HslRanges` | App/paletteutils.cpp:143-173 | For every colour, the rounded hue is in 0..360 and the rounded saturation and lightness are in 0..100. |
| `Hsl.GreyIsAchromatic` | App/paletteutils.cpp:149-172 | A grey (equal channels) gets hue 0 and saturation 0, so it is always neutral. Its lightness is its channel as a rounded percentage. |
| `Hsl.HueRoundsToFullTurn` | App/paletteutils.cpp:160-170 | `#ff0001` gets a rounded hue of 360, so the upper bound of `HslRanges` is reached. |
| `StdSort.Sort` | App/paletteutils.cpp:44-53 | Given a strict weak ordering, the array ends up with no element less than an earlier one, and it is a permutation of its old contents. Stability is not claimed. |
| `PaletteUtils.ResolveColor` | App/paletteutils.cpp:89-99 | A colour value resolves to itself. A string resolves to what `parse` gives. Another value resolves through its non-empty text. A missing field or a map never resolves. |
| `PaletteUtils.ToEntry` | App/paletteutils.cpp:80-107 | A record is kept exactly when it is a non-empty map whose colour resolves to a valid colour. The kept entry has that colour, its name is the text of the record's `name` field, and that name is "" when the record has no name. |
| `PaletteUtils.KeptEntriesAreAcceptedRecords` | App/paletteutils.cpp:75-111 | toEntries returns a subsequence of its input: the k-th entry comes from the k-th accepted record, at increasing positions. Every accepted record, and no other, contributes. Every kept colour is valid. |
| `PaletteUtils.KeptEmptyIffNoneAccepted` | App/paletteutils.cpp:75-111 | toEntries returns an empty list exactly when no record of its input is accepted. |
| `PaletteUtils.ToEntries` | App/paletteutils.cpp:75-111 | The push_back loop returns exactly the entries of the accepted records, in input order. |
| `PaletteUtils.AppendEntry` | App/paletteutils.cpp:121-131 | A valid entry with an unseen key is appended and its key marked seen. Anything else leaves both the list and the seen-set unchanged. |
| `PaletteUtils.AppendAll` | App/paletteutils.cpp:133-138 | Each of the two loops extends a de-duplicated prefix by its whole list: the result is the first-wins de-duplication of the prefix followed by the list, and the seen-set holds exactly the keys kept. |
| `PaletteUtils.MergeUnique` | App/paletteutils.cpp:113-141 | The two loops over primary and then extended return the first-wins de-duplication of primary followed by extended. |
| `PaletteUtils.DedupKeepsEveryKey` | App/paletteutils.cpp:119-138 | The merged list has exactly the keys of the valid input entries: every distinct colour survives and none is invented. |
| `PaletteUtils.DedupKeysAreDistinct` | App/paletteutils.cpp:119-138 | Every merged colour is valid, and no two merged entries share a key. |
| `PaletteUtils.DedupIsSubsequence` | App/paletteutils.cpp:121-138 | The merged list is primary followed by extended with some entries deleted, in the same order. |
| `PaletteUtils.DedupKeepsFirstOccurrence` | App/paletteutils.cpp:126-130 | Every merged entry, name included, is an input entry that no earlier valid entry shares a key with. Later duplicates are dropped, not overwritten. |
| `PaletteUtils.DedupAtFirstIndices` | App/paletteutils.cpp:121-138 | The merged list is the input read at its first-occurrence positions: it has one entry per position, the positions increase, and the k-th merged entry is the input entry at the k-th position. Merging therefore keeps first-seen order. |
| `PaletteUtils.FirstIndicesAreFirstOccurrences` | App/paletteutils.cpp:121-130 | A position is among the first-occurrence positions exactly when its entry is valid and no valid entry before it has the same key. |
| `PaletteUtils.SplitBuckets` | App/paletteutils.cpp:25-42 | The classification loop pushes each entry's bucket onto the neutral list when its saturation is below 15, and onto the coloured list otherwise, in merge order. |
| `PaletteUtils.EveryEntryInExactlyOneBucket` | App/paletteutils.cpp:25-42 | Neutral buckets have saturation below 15 and coloured ones 15 or more, so 15 counts as coloured. Each bucket carries its entry's own HSL. Together the buckets hold every entry exactly as often as the merged list does. |
| `PaletteUtils.ComparatorsAreStrictWeakOrders` | App/paletteutils.cpp:44-53 | Both sort comparators (lightness; hue, then lightness) are strict weak orderings, as std::sort requires. |
| `PaletteUtils.SortBuckets` | App/paletteutils.cpp:44-53 | Sorting one bucket list in place returns it sorted by the given comparator and as a permutation of its old contents. |
| `PaletteUtils.Assemble` | App/paletteutils.cpp:55-70 | The three loops emit the neutrals with lightness below 50, then every coloured entry, then the neutrals with lightness 50 or more. |
| `PaletteUtils.AssembledIsPermutation` | App/paletteutils.cpp:55-70 | Assembly loses and repeats nothing: the output holds the entries of both buckets. |
| `PaletteUtils.FilterKeepsSorted` | App/paletteutils.cpp:58-69 | Taking only the dark, or only the light, neutrals from the sorted neutral list keeps it sorted. |
| `PaletteUtils.AssembledInPresentationOrder` | App/paletteutils.cpp:44-70 | With both buckets sorted, the output is in presentation order. Dark neutrals come first by lightness, then coloured entries by (hue, lightness), then light neutrals by lightness. Lightness 50 counts as light. |
| `PaletteUtils.SortedBucketsMakeThePalette` | App/paletteutils.cpp:44-70 | Whatever order the two sorts leave equivalent entries in, the output is a permutation of the merged list and is in presentation order. |
| `PaletteUtils.MergedEmptyIffNothingAccepted` | App/paletteutils.cpp:16-18 | The merged list is empty exactly when no record of either list is a non-empty map with a resolvable colour. |
| `PaletteUtils.BuildDefaultPalette` | App/paletteutils.cpp:13-73 | The method never fails (it has no precondition). The result is a permutation of the merged list, of the same length, in presentation order. It is empty when no record is accepted, in particular for empty inputs. |
| `PaletteExamples.NamedRecordIsKept` | App/paletteutils.cpp:84-107 | A record with a name and a colour string is kept exactly when the string parses, under that name. |
| `PaletteExamples.FirstSpellingWins` | App/paletteutils.cpp:119-138 | The same red, spelled "#FF0000" in primary and "#ff0000" in extended, survives once, under the primary entry's name. |
| `PaletteExamples.UnresolvableColoursAreDropped` | App/paletteutils.cpp:94-102 | A record whose colour does not parse, or that has no colour, is dropped. |
| `PaletteExamples.BandsOfBlackRedWhite` | App/paletteutils.cpp:37-67 | Black is a dark neutral, pure red is coloured and white is a light neutral. |
| `PaletteExamples.BlackRedWhiteOrder` | App/paletteutils.cpp:55-70 | The only arrangement of the entries black, red and white in presentation order is black, red, white. It is an ordering fact about that multiset of merged entries, not a run from records. |

## Left out

- QVariant and QColor internals are not modelled: the `canConvert` rules, the
  text of non-string values, and `QColor(QString)` parsing of named, `#RGB`,
  `#RRGGBB` and `#AARRGGBB` forms. Parsing is the `parse` parameter.
  `Variant` has five cases: invalid, colour, string, map, and any other type
  with the text `toString()` gives.
- `QColor("")` is always invalid. The model assumes `parse("")` is invalid as
  well, but does not require it of the `parse` parameter. A parser that made
  "" valid would let a record with an empty colour string be kept.
- A QVariant holding an invalid QColor is not modelled: `ColorValue` holds a
  valid colour. The text of a colour value, used only as a name, is taken to
  be its `#rrggbb` name.
- QColor's 16-bit channel precision and the `double` rounding of `rgbToHsl`
  are not modelled. Channels are 8-bit, and the conversion is computed exactly
  over the rationals. The two can differ only where a value lands exactly on
  a rounding half-way point.
- `qRound` of a negative argument follows Qt 6's definition; `rgbToHsl` never
  passes one.
- `toVariantList` (App/paletteutils.cpp:175-188) only pairs each name with its
  colour in a map. `BuildDefaultPalette` returns the entries directly.
- `QVector::reserve` calls are not modelled. The neutral and coloured lists are
  built as sequences. Each is copied into an array of its own, sorted there in
  place, and read back as a sequence, so the sort's update of the list object
  itself is not modelled.
- PaletteUtils.BuildDefaultPalette: does not fix the order of entries with
  equal sort keys, because `std::sort` leaves it unspecified. For the same
  reason the contract does not state determinism.
- The QObject class, its constructor and QML registration, App/main.cpp
  (start-up, import paths, event loop) and App/metatypes_dummy.h are
  application plumbing and are not part of this model.
