# color-study: combinatorics, colour maths and the palette pipeline in Dafny

This project models the pure core of the color-study build-time palette generator.

- `scripts/permutations.js` is a lodash port of Python's itertools. It provides `product` over arrays, strings or a named object of arrays, plus `permutations`, `combinations` and `combinations_with_replacement`. The last three all filter the n-fold product of an input's index keys.
- `scripts/color-conversions.js` provides:
  - the `#rrggbb` parser `hexToRgb`;
  - `rgbToHsl`;
  - the WCAG 2.0 relative luminance and contrast ratio (`luminance`, `contrast`);
  - the second contrast routine `calculateRatio`, built from `checksRGB` and `getColorObject`.
- `scripts/generateColors.js` has pure parts:
  - the 18-token `fullList`;
  - the 216-colour `uniqueList`;
  - the per-colour records `all`, each with a black-or-white text choice;
  - the stylesheet `colorStyles`;
  - the guideline-filtered cross join `everyCombo`;
  - the list `colorCombinations` of pairs with contrast above 10;
  - the `contrastCounts` histogram.

Modules:

- `Wrappers` holds `Option` and `Result`.
- `Seqs` holds the lodash collection helpers: `_flatten`, `filter`, `_map`, `join('')` and `_uniq`.
- `JsStrings` holds `String(i)` for index keys and JavaScript string `<` and `<=`.
- `Combinatorics` models `permutations.js`; `CombinatoricsExamples` proves its doc-comment examples.
- `ColorConversions` models `color-conversions.js`.
- `Palette` covers `fullList`, `uniqueList`, `all` and `colorStyles`.
- `Pairs` covers `everyCombo`, `colorCombinations` and `contrastCounts`.

Modelling choices:

- **Index keys.** `_keys` yields index keys as strings. They are modelled as `nat`. Every comparison the source makes on them goes through `Decimal(i)`, the key string: `!==` in `permutations`, `<=` in `combinations_with_replacement`, `String(a) <= String(b)` in `combinations`. So the string order shows through from eleven elements on.
- **`undefined`.** A tuple position past the end reads as `undefined`, modelled as `None`. `undefined !== undefined` is false, and any `<=` against `undefined` is false.
- **Numbers and the gamma curve.** Colour maths is over exact `real`s. The gamma step `Math.pow(x, 2.4)` is a parameter `pow` of subset type `Power`: non-negative on non-negative input, with `pow(1) == 1`.
- **The classifier.** The polished library's `meetsContrastGuidelines` is a parameter of type `Classifier`.
- **Text colour on a tie.** The code chooses black text only when the black ratio is strictly greater, so a tie gives white. The model follows the code (`Palette.TieGoesToWhite`).

## Model

| member | source | states |
|---|---|---|
| Combinatorics.ProductOf | scripts/permutations.js:37-56 | the product of k sequences has exactly the product of their lengths many tuples, each of length k; the empty list of sequences gives one empty tuple |
| Combinatorics.ProductMember | scripts/permutations.js:43-56 | a tuple is in the product iff it has one entry per sequence and entry i comes from sequence i |
| Combinatorics.ExtendIndex | scripts/permutations.js:45-53 | one reduction step puts partial tuple i extended by element j at position i*|b|+j, so the last sequence varies fastest |
| Combinatorics.ProductAtRank | scripts/permutations.js:43-56 | odometer order: the tuple choosing index vector ix sits at the mixed-radix rank of ix, last digit least significant |
| Combinatorics.ProductNoDuplicates | scripts/permutations.js:43-56 | the product of duplicate-free sequences lists no tuple twice |
| Combinatorics.Product | scripts/permutations.js:89-94 | the positional call shape yields as many tuples as the product of the lengths, the object call shape as many records |
| Combinatorics.ProductNamed | scripts/permutations.js:63-70 | the named product has as many records as the positional product of the object's values; the record contents are stated by `NamedAgreesWithPositional` |
| Combinatorics.NamedAgreesWithPositional | scripts/permutations.js:63-70 | record i of the named product carries the object's keys in order, and its values are positional tuple i of the product of the object's values |
| CombinatoricsExamples.ProductTwoByTwo | scripts/permutations.js:76-77 | `product('me','hi')` is `mh, mi, eh, ei`, for any two 2-element sequences |
| CombinatoricsExamples.ProductThreeByThree | scripts/permutations.js:79-80 | `product([1,2,3],['a','b','c'])` lists the nine pairs first-major, for any two 3-element sequences |
| CombinatoricsExamples.NamedProductTwoByTwo | scripts/permutations.js:82-83 | the named product of two 2-element fields gives four records in odometer order |
| JsStrings.DecimalInjective | scripts/permutations.js:114 | two index keys are the same string iff the indices are equal, so `!==` on keys is `!=` on indices |
| JsStrings.DecimalRoundTrip | scripts/permutations.js:115 | reading a key string back as a number gives the index, which is what `obj[i]` relies on |
| JsStrings.LessTrichotomy | scripts/permutations.js:129 | JavaScript string `<` is trichotomous, asymmetric and irreflexive |
| JsStrings.LessTransitive | scripts/permutations.js:129 | JavaScript string `<` is transitive, so with `LessTrichotomy` it is a strict total order |
| JsStrings.DigitKeyOrder | scripts/permutations.js:129 | for indices below 10 the string order of keys is the numeric order |
| JsStrings.TenSortsBeforeTwo | scripts/permutations.js:129 | key "10" sorts before key "2" |
| Combinatorics.IndexProductSize | scripts/permutations.js:108-114 | the product of k copies of the m index keys has m^k tuples |
| Combinatorics.IndexProductMember | scripts/permutations.js:108-114 | an index tuple is in that product iff it has length k (0 for a non-positive k) and every index is below m |
| Combinatorics.DistinctLeadMeaning | scripts/permutations.js:114 | the `permutations` filter keeps a tuple iff it has one element or its first two indices differ |
| Combinatorics.PermutationIndicesMember | scripts/permutations.js:106-114 | a tuple is kept iff its length is the resolved arity (`n` or, when 0, the input length), every index is in range, and it is a singleton or its first two indices differ |
| Combinatorics.Permutations | scripts/permutations.js:106-116 | one value tuple per kept index tuple, tuple k holding the input's elements at the positions index tuple k names; which index tuples are kept is `PermutationIndicesMember` |
| Combinatorics.PermutationsCount | scripts/permutations.js:106-116 | `permutations` returns nothing for arity ≤ 0, m tuples for arity 1, and m^k − m^(k−1) tuples from arity 2 on |
| Combinatorics.PermutationsRepeatPastLead | scripts/permutations.js:114 | from arity 3 an index may repeat after position 1: `[x0, x1, x0]` is a permutation |
| CombinatoricsExamples.PermutationIndicesOfThree | scripts/permutations.js:6 | `permutations([0,1,2],2)` is exactly the six ordered pairs of distinct indices, in that order |
| CombinatoricsExamples.PermutationsOfThree | scripts/permutations.js:100-104 | `permutations([1,2,3],2)` and `permutations('cat',2)` list the six ordered pairs, for any 3 elements |
| Combinatorics.PermutationsOfKeys | scripts/permutations.js:133 | `permutations` applied to the key array itself returns the index tuples |
| Combinatorics.CombinationIndicesMember | scripts/permutations.js:125-135 | a tuple is kept by `combinations` iff the `permutations` guard passes and every key is `<=` its successor as strings |
| Combinatorics.Combinations | scripts/permutations.js:125-137 | the documented behaviour: one value tuple per sorted index tuple, tuple k holding the elements at the positions index tuple k names; which are kept is `CombinationIndicesMember` |
| Combinatorics.CombinationPairKeys | scripts/permutations.js:127-134 | for arity 2 a pair is kept iff both indices are in range, differ, and the first key is `<=` the second as strings |
| Combinatorics.CombinationPairs | scripts/permutations.js:127-134 | for at most ten elements, 2-combinations are exactly the index pairs i < j |
| Combinatorics.CombinationsRepeatPastLead | scripts/permutations.js:114 | `[0,1,1]` is a 3-combination, because only the first two positions are guarded against repeats |
| Combinatorics.CombinationsPastTen | scripts/permutations.js:129 | with eleven or more elements the pair {2,10} is listed as `[10,2]`, never as `[2,10]` |
| CombinatoricsExamples.CombinationsOfFour | scripts/permutations.js:122-123 | `combinations([0,1,2,3],2)` is the six pairs i < j in order, for any four elements |
| CombinatoricsExamples.CombinationsUnboundLodash | scripts/permutations.js:133 | as written, `combinations([0,1,2,3],2)` fails with a reference error on `_`, while the documented result is the six pairs |
| Combinatorics.CombinationsAsWritten | scripts/permutations.js:133 | as written, every call fails with a reference error naming `_`, whatever the arguments |
| Combinatorics.ReplacementIndicesMember | scripts/permutations.js:146-154 | a tuple is kept by `combinations_with_replacement` iff it has the resolved length, at least two positions, indices in range, and first key `<=` second as strings |
| Combinatorics.CombinationsWithReplacement | scripts/permutations.js:146-156 | one value tuple per kept index tuple, tuple k holding the elements at the positions index tuple k names; which are kept is `ReplacementIndicesMember` |
| Combinatorics.ReplacementPairKeys | scripts/permutations.js:154 | for arity 2 a pair is kept iff both indices are in range and the first key is `<=` the second as strings |
| Combinatorics.ReplacementPairs | scripts/permutations.js:154 | for at most ten elements a pair is kept iff i ≤ j |
| Combinatorics.ReplacementArityOne | scripts/permutations.js:154 | arity 1 keeps nothing, because `key <= undefined` is false |
| CombinatoricsExamples.CombinationsWithReplacementOfFour | scripts/permutations.js:143-144 | `combinations_with_replacement([0,1,2,3],2)` is the ten pairs i ≤ j in order, for any four elements |
| ColorConversions.HexToRgb | scripts/color-conversions.js:1-13 | the parse succeeds iff the input is an optional `#` and exactly six hex digits; each channel is 16·d1+d2 of its digit pair |
| ColorConversions.HexToRgbArray | scripts/color-conversions.js:1-13 | with `returnArray` the parse succeeds iff the input is a hex colour, giving three numbers; their values are `ArrayFormAgrees` |
| ColorConversions.ArrayFormAgrees | scripts/color-conversions.js:12 | `returnArray` changes only the shape: it succeeds exactly when the object form does, with the same three values |
| ColorConversions.FormatHexRoundTrip | scripts/color-conversions.js:2-10 | writing any r, g, b as two hex digits each, with or without `#`, and parsing gives back (r, g, b) |
| ColorConversions.HexToRgbIgnoresCase | scripts/color-conversions.js:2 | upper-casing the input does not change the parse result, success or failure |
| ColorConversions.Scaled | scripts/color-conversions.js:16-18 | a channel over 255 lies in [0, 1], is 0 exactly for 0 and 1 exactly for 255 |
| ColorConversions.RgbToHsl | scripts/color-conversions.js:15-55 | l ∈ [0,100], s ∈ [0,100], h ∈ [0,360), and s = 0 iff the colour is grey |
| ColorConversions.HueFollowsLargestChannel | scripts/color-conversions.js:37-52 | for a non-grey colour the hue lies in the sector of its largest channel: red ≤ 60 or ≥ 300, green 60–180, blue 180–300 |
| ColorConversions.GreyHsl | scripts/color-conversions.js:24-28 | a grey (v, v, v) has h = 0, s = 0, l = 100·v/255 |
| ColorConversions.PrimaryHues | scripts/color-conversions.js:15-55 | red, green, blue, yellow and magenta give hues 0, 120, 240, 60, 300 at full saturation and half lightness |
| ColorConversions.Luminance | scripts/color-conversions.js:57-64 | luminance is non-negative |
| ColorConversions.LuminanceExtremes | scripts/color-conversions.js:57-64 | black has luminance 0 and white luminance 1, whatever the gamma curve |
| ColorConversions.ContrastOf | scripts/color-conversions.js:66-68 | the ratio of two luminances is positive, and at least 1 iff the first is the lighter |
| ColorConversions.Contrast | scripts/color-conversions.js:66-68 | `contrast` is positive, and at least 1 iff the first colour is at least as light as the second |
| ColorConversions.ContrastReciprocal | scripts/color-conversions.js:66-68 | `contrast(a,b) · contrast(b,a) = 1` |
| ColorConversions.ContrastBlackWhite | scripts/color-conversions.js:66-68 | white against black is 21, and black against white is 1/21 |
| ColorConversions.AgainstBlack | scripts/color-conversions.js:66-68 | a colour's ratio against black is its luminance's ratio against 0 |
| ColorConversions.WhiteAgainst | scripts/color-conversions.js:66-68 | white's ratio against a colour is 1's ratio against its luminance |
| ColorConversions.BlackWhiteProduct | scripts/color-conversions.js:66-68 | a luminance's ratio against black times white's ratio against it is exactly 21 |
| ColorConversions.BlackBeatsWhite | scripts/color-conversions.js:66-68 | the ratio against black exceeds white's ratio iff (L + 0.05)² > 0.0525 |
| ColorConversions.ChecksRgbAgrees | scripts/color-conversions.js:70-76 | `checksRGB` of a scaled channel is the per-channel transform inside `luminance` |
| ColorConversions.GetColorObject | scripts/color-conversions.js:79-86 | the colour object's three linear channels are non-negative |
| ColorConversions.ColorObjectLuminance | scripts/color-conversions.js:92-99 | the weighted sum `calculateRatio` forms from the colour object is exactly `luminance` of the colour |
| ColorConversions.LighterOverDarkerIsMax | scripts/color-conversions.js:100-104 | the final branch yields the larger of the two contrast orders, equals one of them, and ignores argument order |
| ColorConversions.CalculateRatio | scripts/color-conversions.js:89-105 | `calculateRatio` is at least 1 |
| ColorConversions.ChecksRgb | scripts/color-conversions.js:70-76 | the linearised channel is non-negative; `ChecksRgbAgrees` ties it to the transform in `luminance` |
| ColorConversions.CalculateRatioOfLuminances | scripts/color-conversions.js:89-105 | `calculateRatio` is lighter-over-darker of the two `luminance` values |
| ColorConversions.CalculateRatioIsMaxContrast | scripts/color-conversions.js:89-105 | `calculateRatio(a,b)` equals max(`contrast(a,b)`, `contrast(b,a)`) |
| ColorConversions.CalculateRatioSymmetric | scripts/color-conversions.js:100-104 | `calculateRatio(a,b) = calculateRatio(b,a)` |
| Palette.Tripled | scripts/generateColors.js:18 | three concatenated copies: length 3n, token i at i, n+i and 2n+i, nothing else |
| Palette.FullListShape | scripts/generateColors.js:17-18 | `fullList` has 18 tokens, each of the six at three positions |
| Palette.HexStringsAreTokens | scripts/generateColors.js:17 | the six tokens are distinct two-digit hex bytes with values 0, 51, …, 255 |
| Seqs.Uniq | scripts/generateColors.js:19-21 | `_uniq` keeps exactly the elements of its input, without duplicates |
| Seqs.UniqFirstAppearance | scripts/generateColors.js:19-21 | `_uniq` lists elements in the order of their first appearance |
| Palette.PaletteOf | scripts/generateColors.js:19-21 | the deduplicated list holds no colour twice and exactly the colours the 3-permutations of the tripled tokens spell |
| Palette.PaletteMember | scripts/generateColors.js:19-21 | a string is in the deduplicated list iff it is `#` followed by three tokens, repeats allowed |
| Palette.TokensParse | scripts/generateColors.js:24 | `#` and three tokens parse to the three token values |
| Palette.PaletteParses | scripts/generateColors.js:19-24 | every listed colour is a 7-character `#rrggbb` that `hexToRgb` accepts |
| Palette.PaletteSize | scripts/generateColors.js:19-21 | for k distinct tokens the list has no duplicates and exactly k³ colours |
| Palette.UniqueListFacts | scripts/generateColors.js:17-21 | `uniqueList` has 216 distinct colours; a colour is in it iff it is `#` plus three of the six tokens |
| Palette.UniqueListOrder | scripts/generateColors.js:19-21 | `uniqueList` keeps the order in which the permutations first produce each colour |
| Palette.ChooseText | scripts/generateColors.js:41-42 | `max` is at least both ratios; `text` is black iff the black ratio is strictly greater, and `max` is the chosen side's ratio |
| Palette.TieGoesToWhite | scripts/generateColors.js:41-42 | equal ratios choose white text |
| Palette.Describe | scripts/generateColors.js:23-45 | a record exists iff the colour parses; it carries that colour's hex and channels, the colour's `rgbToHsl` and `luminance`, and the text choice between the colour's ratio against black and white's ratio against the colour |
| Palette.RecordContrast | scripts/generateColors.js:26-27 | a record's black and white ratios are its luminance against 0 and 1 against its luminance |
| Palette.TextChoice | scripts/generateColors.js:26-42 | the two ratios multiply to 21, so `max`² ≥ 21; black is chosen iff (L + 0.05)² > 0.0525 |
| Palette.AllRecords | scripts/generateColors.js:23-45 | the colour-by-colour `map` yields records iff every colour parses (the first rejected colour stops it), one per colour, record i being colour i's record |
| Palette.AllOfPalette | scripts/generateColors.js:23-45 | over `uniqueList` all 216 records exist, record i carrying colour i |
| Palette.RuleLayout | scripts/generateColors.js:50-52 | the rule for a `#rrggbb` colour is 68 characters, starts `.bg-` and the digits, and carries the colour at offset 28 |
| Palette.ColorStyles | scripts/generateColors.js:49-54 | no contract of its own: `StylesLayout` states where each rule sits and `StylesRoundTrip` that the colours read back |
| Palette.Rule | scripts/generateColors.js:50-52 | a colour's rule is 42 characters plus two copies of the colour and two of its digits; `RuleLayout` gives the layout |
| Palette.StylesLayout | scripts/generateColors.js:49-54 | the stylesheet is the rules laid end to end, rule i at offset 68·i |
| Palette.StylesRoundTrip | scripts/generateColors.js:49-54 | the colour list can be read back out of the stylesheet, in order |
| Palette.PaletteStyles | scripts/generateColors.js:47-54 | the palette stylesheet is 216·68 characters and reads back as `uniqueList` |
| Pairs.EveryCombo | scripts/generateColors.js:56-74 | one row per base colour, not flattened |
| Pairs.EveryComboRow | scripts/generateColors.js:56-74 | row i is the accents the classifier accepts on base i, in the order of `all`, each paired with base i |
| Pairs.EveryComboMember | scripts/generateColors.js:56-74 | a combo is in row i iff it pairs base i with some accent on which some guideline level is met |
| Pairs.RatioOf | scripts/generateColors.js:82-85 | the ratio of two records is at least 1 |
| Pairs.ColorCombinationsAreHighPairs | scripts/generateColors.js:79-104 | `colorCombinations` is every ordered pair of records, base-major then accent, kept iff its ratio exceeds 10, reduced to hexes and ratio |
| Pairs.ColorCombinations | scripts/generateColors.js:79-104 | no contract of its own: `ColorCombinationsAreHighPairs` and `ColorCombinationsMember` state which entries it lists and in what order |
| Pairs.ColorCombinationsMember | scripts/generateColors.js:79-104 | an entry is listed iff it names a base and an accent whose `calculateRatio` exceeds 10, with that ratio |
| Pairs.ColorCombinationsAboveMinimum | scripts/generateColors.js:78-90 | every listed ratio exceeds 10 |
| Pairs.ColorCombinationsSwap | scripts/generateColors.js:79-104 | with each pair its reverse is listed too, with the same ratio |
| Pairs.ContrastCounts | scripts/generateColors.js:106-116 | a key is present iff some entry's contrast floors to it, and its count is how many do |
| Pairs.CountsTotal | scripts/generateColors.js:106-116 | the counts add up to the number of entries |
| Pairs.CountsOfCombinations | scripts/generateColors.js:78-116 | over `colorCombinations` every key is at least 10 and the counts add up to the list length |

## Left out

- File writing, `console.log` and the `generateColorsFile` orchestration (scripts/generateColors.js:118-145): these are I/O.
- Unicode grouping of string arguments: `product`, `permutations` and `combinations_with_replacement` split a string with lodash `_toArray`, which keeps a base character with its combining marks, and emoji modifier, joiner and flag sequences, as one element. The model splits a string into Unicode scalar values. The two agree on ASCII text, which covers every string the scripts pass. `combinations` reads a string through `_keys`, that is by UTF-16 code unit, which also differs from scalar values outside the Basic Multilingual Plane.
- `scripts/generateHTML.js` and `public/scripts.js`: template compilation, file writing and browser glue. They are not part of this model.
- `meetsContrastGuidelines` from the polished library is not part of this model. `everyCombo` takes it as a `Classifier` parameter.
- `Math.pow(·, 2.4)` is the `Power` parameter. It is assumed only non-negative on non-negative input and to fix 1, so numeric fixtures beyond black and white are not stated.
- Floating point: all colour maths is over exact reals. Float rounding is not modelled, for example:
  - whether 0.2126 + 0.7152 + 0.0722 is exactly 1 in doubles;
  - `L *= 100`;
  - a `Math.floor` of a ratio just below an integer.
- `sorted` (scripts/generateColors.js:76): its result is used only by commented-out code.
- The `window` globals (scripts/color-conversions.js:107-110).
- Only the call shapes documented for `product` are modelled: several arrays or strings, one array of them, or one object of arrays. Non-array objects passed to `permutations`, and mixtures of other argument types, are not modelled.
- `_zipObject` with repeated keys, and the key enumeration order of JavaScript objects, are not modelled. Records are ordered lists of entries, and `contrastCounts` is a `map` from integer to count.
- The records of `all` hold `r, g, b` as one `Rgb` and `h, s, l` as one `Hsl`. `colorCombinations` entries keep only hexes and the ratio, as the final `map` does.
- The `everyCombo`, `colorCombinations` and `contrastCounts` properties are stated for any record list `all`. Over the palette itself only the record count is instantiated, in `Palette.AllOfPalette`.
- ColorConversions.Luminance: the upper bound of 1 is not stated. Under an abstract gamma step it holds only if `pow` maps [0, 1] into [0, 1], so `calculateRatio` ≤ 21 is not stated either.
- Combinatorics.Combinations: models the behaviour the doc comment describes. As written, the function throws (see Findings).

## Findings

| source | as written | input that shows it | evidently intended | confidence | as-written member | corrected member |
|---|---|---|---|---|---|---|
| scripts/permutations.js:133 | `combinations` chains through `_(...)`, but the lodash import at line 20 is commented out and only per-method imports remain, so `_` is unbound and the call throws a ReferenceError | `combinations([0,1,2,3], 2)` | keep the sorted permutations of the keys and map them back to values: `[[0,1],[0,2],[0,3],[1,2],[1,3],[2,3]]`, as the doc comment at lines 122-123 says | medium (no `_` is in scope unless some other module defines it globally); not executed | CombinatoricsExamples.CombinationsUnboundLodash | CombinatoricsExamples.CombinationsOfFour |
