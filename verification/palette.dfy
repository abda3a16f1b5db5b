/** The palette half of `scripts/generateColors.js`: the 216 web-safe colours
    built from `permutations` over three copies of six channel tokens, the
    per-colour record with its black-or-white text choice, and the stylesheet. */
module Palette {

  import opened Wrappers
  import opened Seqs
  import opened Combinatorics
  import opened ColorConversions

  // ---------------------------------------------------------------------------
  // Tokens and the deduplicated colour list
  // ---------------------------------------------------------------------------

  /** `hexStrings`: the six web-safe channel values. */
  const HexStrings: seq<string> := ["00", "33", "66", "99", "CC", "FF"]

  /** `xs.concat(xs).concat(xs)`: three copies, each token at positions
      `i`, `i + |xs|` and `i + 2|xs|`, and nothing else. */
  function Tripled(tokens: seq<string>): (r: seq<string>)
    ensures |r| == 3 * |tokens|
    ensures forall i :: 0 <= i < |tokens| ==>
      r[i] == tokens[i] && r[|tokens| + i] == tokens[i] && r[2 * |tokens| + i] == tokens[i]
    ensures forall i :: 0 <= i < |r| ==> r[i] in tokens
  {
    var r := tokens + tokens + tokens;
    assert forall i :: 0 <= i < |r| ==> r[i] in tokens by {
      forall i | 0 <= i < |r|
        ensures r[i] in tokens
      {
        if i < |tokens| {
          assert r[i] == tokens[i];
        } else if i < 2 * |tokens| {
          assert r[i] == tokens[i - |tokens|];
        } else {
          assert r[i] == tokens[i - 2 * |tokens|];
        }
      }
    }
    r
  }

  /** `fullList`. */
  const FullList: seq<string> := Tripled(HexStrings)

  /** Eighteen tokens; each of the six sits at three positions, six apart. */
  lemma FullListShape()
    ensures |FullList| == 18
    ensures forall t :: 0 <= t < 6 ==>
      FullList[t] == HexStrings[t] && FullList[t + 6] == HexStrings[t] && FullList[t + 12] == HexStrings[t]
  {
  }

  /** A two-digit hex token such as `"CC"`. */
  predicate IsToken(s: string)
  {
    |s| == 2 && AllHexDigits(s)
  }

  /** The channel value a token spells. */
  function TokenValue(s: string): Byte
    requires IsToken(s)
  {
    ParsePair(s[0], s[1])
  }

  lemma HexStringsAreTokens()
    ensures forall i :: 0 <= i < |HexStrings| ==> IsToken(HexStrings[i])
    ensures NoDuplicates(HexStrings)
    ensures forall i :: 0 <= i < |HexStrings| ==> TokenValue(HexStrings[i]) == 51 * i
  {
  }

  /** `` item => `#${item.join('')}` ``. */
  function HexOf(item: seq<string>): string
  {
    "#" + Concat(item)
  }

  lemma HexOfTriple(a: string, b: string, c: string)
    ensures HexOf([a, b, c]) == "#" + a + b + c
  {
    assert [a, b, c][1..] == [b, c];
    assert [b, c][1..] == [c];
    assert [c][1..] == [];
    assert Concat([c]) == c;
    assert Concat([b, c]) == b + c;
    assert Concat([a, b, c]) == a + (b + c);
  }

  /** `uniqueList` over a token alphabet: every 3-permutation of the tripled
      list, written as a colour, first occurrences only. */
  function PaletteOf(tokens: seq<string>): (r: seq<string>)
    ensures NoDuplicates(r)
    ensures forall x :: x in r <==> x in Map(Permutations(Tripled(tokens), 3), HexOf)
  {
    Uniq(Map(Permutations(Tripled(tokens), 3), HexOf))
  }

  /** `uniqueList`. */
  const UniqueList: seq<string> := PaletteOf(HexStrings)

  /** `x` is `#` followed by three tokens of the alphabet. */
  ghost predicate IsPaletteHex(tokens: seq<string>, x: string)
  {
    exists a, b, c :: a in tokens && b in tokens && c in tokens && x == "#" + a + b + c
  }

  /** Each kept index triple spells three tokens of the alphabet. */
  lemma PermutationTriple(tokens: seq<string>, p: seq<string>)
    requires p in Permutations(Tripled(tokens), 3)
    ensures |p| == 3 && p[0] in tokens && p[1] in tokens && p[2] in tokens
  {
    var full := Tripled(tokens);
    var ts := PermutationIndices(|full|, 3);
    var k :| 0 <= k < |Permutations(full, 3)| && Permutations(full, 3)[k] == p;
    PermutationIndicesMember(|full|, 3, ts[k]);
  }

  /** Any three tokens, repeats included, are reachable: take the first from
      the first copy and the second from the second copy, so the two leading
      indices differ. */
  lemma TripleIsPermutation(tokens: seq<string>, ia: nat, ib: nat, ic: nat)
    requires ia < |tokens| && ib < |tokens| && ic < |tokens|
    ensures [tokens[ia], tokens[ib], tokens[ic]] in Permutations(Tripled(tokens), 3)
  {
    var full := Tripled(tokens);
    var n := |tokens|;
    var t: seq<nat> := [ia, n + ib, 2 * n + ic];
    TripleIndexKept(n, ia, ib, ic);
    PickAllMember(full, PermutationIndices(|full|, 3), t);
    assert Pick(full, t) == [tokens[ia], tokens[ib], tokens[ic]];
  }

  lemma TripleIndexKept(n: nat, ia: nat, ib: nat, ic: nat)
    requires ia < n && ib < n && ic < n
    ensures [ia, n + ib, 2 * n + ic] in PermutationIndices(3 * n, 3)
  {
    PermutationIndicesMember(3 * n, 3, [ia, n + ib, 2 * n + ic]);
  }

  /** The list holds exactly the colours spelled by three tokens. */
  lemma PaletteMember(tokens: seq<string>, x: string)
    ensures x in PaletteOf(tokens) <==> IsPaletteHex(tokens, x)
  {
    if x in PaletteOf(tokens) {
      PaletteSpelled(tokens, x);
    }
    if IsPaletteHex(tokens, x) {
      PaletteReaches(tokens, x);
    }
  }

  lemma PaletteSpelled(tokens: seq<string>, x: string)
    requires x in PaletteOf(tokens)
    ensures IsPaletteHex(tokens, x)
  {
    var perms := Permutations(Tripled(tokens), 3);
    assert x in Map(perms, HexOf) by {
      var u :| 0 <= u < |PaletteOf(tokens)| && PaletteOf(tokens)[u] == x;
    }
    MapMember(perms, HexOf, x);
    var i :| 0 <= i < |perms| && x == HexOf(perms[i]);
    PermutationTriple(tokens, perms[i]);
    SpelledByTriple(tokens, perms[i]);
  }

  lemma SpelledByTriple(tokens: seq<string>, p: seq<string>)
    requires |p| == 3 && p[0] in tokens && p[1] in tokens && p[2] in tokens
    ensures IsPaletteHex(tokens, HexOf(p))
  {
    assert p == [p[0], p[1], p[2]];
    HexOfTriple(p[0], p[1], p[2]);
  }

  lemma PaletteReaches(tokens: seq<string>, x: string)
    requires IsPaletteHex(tokens, x)
    ensures x in PaletteOf(tokens)
  {
    var perms := Permutations(Tripled(tokens), 3);
    var hexes := Map(perms, HexOf);
    var a, b, c :| a in tokens && b in tokens && c in tokens && x == "#" + a + b + c;
    var ia :| 0 <= ia < |tokens| && tokens[ia] == a;
    var ib :| 0 <= ib < |tokens| && tokens[ib] == b;
    var ic :| 0 <= ic < |tokens| && tokens[ic] == c;
    TripleIsPermutation(tokens, ia, ib, ic);
    HexOfTriple(a, b, c);
    MapMember(perms, HexOf, x);
    var j :| 0 <= j < |hexes| && hexes[j] == x;
  }

  /** Three tokens written as a colour parse back to their three values. */
  lemma TokensParse(a: string, b: string, c: string)
    requires IsToken(a) && IsToken(b) && IsToken(c)
    ensures HexToRgb("#" + a + b + c) == Some(Rgb(TokenValue(a), TokenValue(b), TokenValue(c)))
  {
    var x := "#" + a + b + c;
    assert x[1..] == a + b + c;
    assert forall i :: 0 <= i < 6 ==> IsHexDigit(x[1..][i]);
  }

  /** Every colour of the list parses, so the `{ r, g, b }` destructuring in
      the per-colour record never meets `null`. */
  lemma PaletteParses(tokens: seq<string>, x: string)
    requires forall i :: 0 <= i < |tokens| ==> IsToken(tokens[i])
    requires x in PaletteOf(tokens)
    ensures IsHexColor(x) && |x| == 7 && x[0] == '#'
  {
    PaletteMember(tokens, x);
    var a, b, c :| a in tokens && b in tokens && c in tokens && x == "#" + a + b + c;
    TokensParse(a, b, c);
  }

  /** Distinct token triples spell distinct colours. */
  lemma HexOfInjective(p: seq<string>, q: seq<string>)
    requires |p| == 3 && |q| == 3
    requires forall i :: 0 <= i < 3 ==> |p[i]| == 2 && |q[i]| == 2
    requires HexOf(p) == HexOf(q)
    ensures p == q
  {
    assert p == [p[0], p[1], p[2]] && q == [q[0], q[1], q[2]];
    HexOfTriple(p[0], p[1], p[2]);
    HexOfTriple(q[0], q[1], q[2]);
    var x := HexOf(p);
    assert x[1..3] == p[0] && x[3..5] == p[1] && x[5..7] == p[2];
    assert x[1..3] == q[0] && x[3..5] == q[1] && x[5..7] == q[2];
  }

  /** The reference enumeration: every token triple once, in odometer order. */
  function AllTriples(tokens: seq<string>): (r: seq<string>)
    ensures |r| == |tokens| * |tokens| * |tokens|
  {
    var args := [tokens, tokens, tokens];
    assert args[..2] == [tokens, tokens] && args[..2][..1] == [tokens] && args[..2][..1][..0] == [];
    assert Size(args[..2][..1]) == |tokens|;
    assert Size(args[..2]) == |tokens| * |tokens|;
    Map(ProductOf(args), HexOf)
  }

  lemma AllTriplesMember(tokens: seq<string>, x: string)
    ensures x in AllTriples(tokens) <==> IsPaletteHex(tokens, x)
  {
    var args := [tokens, tokens, tokens];
    MapMember(ProductOf(args), HexOf, x);
    if x in AllTriples(tokens) {
      var i :| 0 <= i < |ProductOf(args)| && x == HexOf(ProductOf(args)[i]);
      ProductMember(args, ProductOf(args)[i]);
      SpelledByTriple(tokens, ProductOf(args)[i]);
    }
    if IsPaletteHex(tokens, x) {
      var a, b, c :| a in tokens && b in tokens && c in tokens && x == "#" + a + b + c;
      ProductMember(args, [a, b, c]);
      HexOfTriple(a, b, c);
      var i :| 0 <= i < |ProductOf(args)| && ProductOf(args)[i] == [a, b, c];
    }
  }

  lemma AllTriplesNoDuplicates(tokens: seq<string>)
    requires forall i :: 0 <= i < |tokens| ==> IsToken(tokens[i])
    requires NoDuplicates(tokens)
    ensures NoDuplicates(AllTriples(tokens))
  {
    var args := [tokens, tokens, tokens];
    ProductNoDuplicates(args);
    forall p, q | p in ProductOf(args) && q in ProductOf(args) && HexOf(p) == HexOf(q)
      ensures p == q
    {
      ProductMember(args, p);
      ProductMember(args, q);
      HexOfInjective(p, q);
    }
    MapNoDuplicates(ProductOf(args), HexOf);
  }

  /** A duplicate-free alphabet of `k` tokens gives exactly `k^3` colours, none
      twice, whatever order `_uniq` leaves them in. */
  lemma PaletteSize(tokens: seq<string>)
    requires forall i :: 0 <= i < |tokens| ==> IsToken(tokens[i])
    requires NoDuplicates(tokens)
    ensures NoDuplicates(PaletteOf(tokens))
    ensures |PaletteOf(tokens)| == |tokens| * |tokens| * |tokens|
  {
    AllTriplesNoDuplicates(tokens);
    forall x
      ensures x in PaletteOf(tokens) <==> x in AllTriples(tokens)
    {
      PaletteMember(tokens, x);
      AllTriplesMember(tokens, x);
    }
    SameElementsSameLength(PaletteOf(tokens), AllTriples(tokens));
  }

  /** `uniqueList`: 216 distinct colours, each `#` and three of `hexStrings`,
      all parsing, in order of first appearance among the permutations. */
  lemma UniqueListFacts()
    ensures |UniqueList| == 216
    ensures NoDuplicates(UniqueList)
    ensures forall x :: x in UniqueList <==> IsPaletteHex(HexStrings, x)
    ensures forall i :: 0 <= i < |UniqueList| ==> IsHexColor(UniqueList[i]) && |UniqueList[i]| == 7
  {
    HexStringsAreTokens();
    PaletteSize(HexStrings);
    forall x
      ensures x in UniqueList <==> IsPaletteHex(HexStrings, x)
    {
      PaletteMember(HexStrings, x);
    }
    forall i | 0 <= i < |UniqueList|
      ensures IsHexColor(UniqueList[i]) && |UniqueList[i]| == 7
    {
      PaletteParses(HexStrings, UniqueList[i]);
    }
  }

  /** `_uniq` keeps the order in which the permutations first produce each colour. */
  lemma UniqueListOrder()
    ensures var hexes := Map(Permutations(FullList, 3), HexOf);
      forall i, j :: 0 <= i < j < |UniqueList| ==>
        FirstIndex(hexes, UniqueList[i]) < FirstIndex(hexes, UniqueList[j])
  {
    UniqFirstAppearance(Map(Permutations(FullList, 3), HexOf));
  }

  // ---------------------------------------------------------------------------
  // The per-colour record (`all`)
  // ---------------------------------------------------------------------------

  /** The `text` field: which of black or white text to put on the colour. */
  datatype TextColor = Black | White

  /** The `contrast` field of a record. */
  datatype ContrastInfo = ContrastInfo(black: real, white: real, max: real, text: TextColor)

  /** One element of `all`. */
  datatype ColorRecord = ColorRecord(rgb: Rgb, hex: string, hsl: Hsl, luminance: real, contrast: ContrastInfo)

  /** `max` and `text`: black wins only when its ratio is strictly larger. */
  function ChooseText(black: real, white: real): (info: ContrastInfo)
    ensures info.black == black && info.white == white
    ensures info.max >= black && info.max >= white
    ensures info.text == Black <==> black > white
    ensures info.text == Black ==> info.max == black
    ensures info.text == White ==> info.max == white
  {
    if black > white then ContrastInfo(black, white, black, Black)
    else ContrastInfo(black, white, white, White)
  }

  /** Equal ratios go to white. */
  lemma TieGoesToWhite(v: real)
    ensures ChooseText(v, v).text == White && ChooseText(v, v).max == v
  {
  }

  /** The body of `uniqueList.map(...)` for one colour; `None` where the
      destructuring of a `null` parse would throw. */
  function Describe(pow: Power, hex: string): (r: Option<ColorRecord>)
    ensures r.Some? <==> IsHexColor(hex)
    ensures r.Some? ==> r.value.hex == hex && Some(r.value.rgb) == HexToRgb(hex)
    ensures r.Some? ==> r.value.hsl == RgbToHsl(r.value.rgb) && r.value.luminance == Luminance(pow, r.value.rgb)
    ensures r.Some? ==>
      r.value.contrast == ChooseText(Contrast(pow, r.value.rgb, Rgb(0, 0, 0)), Contrast(pow, Rgb(255, 255, 255), r.value.rgb))
  {
    match HexToRgb(hex)
    case None => None
    case Some(c) =>
      var black := Contrast(pow, c, Rgb(0, 0, 0));
      var white := Contrast(pow, Rgb(255, 255, 255), c);
      Some(ColorRecord(c, hex, RgbToHsl(c), Luminance(pow, c), ChooseText(black, white)))
  }

  /** In every record the two candidate ratios are the record's luminance
      against 0 and 1 against the record's luminance. */
  lemma RecordContrast(pow: Power, hex: string)
    requires IsHexColor(hex)
    ensures var r := Describe(pow, hex).value;
      r.contrast.black == ContrastOf(r.luminance, 0.0) && r.contrast.white == ContrastOf(1.0, r.luminance)
  {
    var c := HexToRgb(hex).value;
    AgainstBlack(pow, c);
    WhiteAgainst(pow, c);
  }

  /** The text choice for a luminance: the two ratios multiply to 21, so the
      chosen one always reaches the square root of 21 (about 4.58), and black
      is chosen exactly above the luminance where the two ratios meet. */
  lemma TextChoice(l: real)
    requires l >= 0.0
    ensures var info := ChooseText(ContrastOf(l, 0.0), ContrastOf(1.0, l));
      info.black * info.white == 21.0 && info.max * info.max >= 21.0 &&
      (info.text == Black <==> (l + 0.05) * (l + 0.05) > 0.0525)
  {
    var black, white := ContrastOf(l, 0.0), ContrastOf(1.0, l);
    BlackWhiteProduct(l);
    BlackBeatsWhite(l);
    MaxOfPair(black, white, ChooseText(black, white).max);
  }

  /** The larger of two positive numbers squared is at least their product. */
  lemma MaxOfPair(a: real, b: real, m: real)
    requires a > 0.0 && b > 0.0 && m >= a && m >= b
    ensures m * m >= a * b
  {
    assert m * m >= a * m;
    assert a * m >= a * b;
  }

  /** `all`: `uniqueList.map(...)` builds the records colour by colour and
      stops at the first colour `hexToRgb` rejects (reading a field of `null`
      throws), modelled as `None`. */
  function AllRecords(pow: Power, hexes: seq<string>): (r: Option<seq<ColorRecord>>)
    ensures r.Some? <==> forall i :: 0 <= i < |hexes| ==> IsHexColor(hexes[i])
    ensures r.Some? ==> |r.value| == |hexes|
    ensures r.Some? ==> forall i :: 0 <= i < |hexes| ==> Describe(pow, hexes[i]) == Some(r.value[i])
    decreases |hexes|
  {
    if |hexes| == 0 then Some([])
    else
      match Describe(pow, hexes[0])
      case None => None
      case Some(first) =>
        match AllRecords(pow, hexes[1..])
        case None => None
        case Some(rest) => Some([first] + rest)
  }

  /** The palette's records all exist, one per colour, in list order. */
  lemma AllOfPalette(pow: Power)
    ensures AllRecords(pow, UniqueList).Some?
    ensures |AllRecords(pow, UniqueList).value| == 216
    ensures forall i :: 0 <= i < 216 ==> AllRecords(pow, UniqueList).value[i].hex == UniqueList[i]
  {
    UniqueListFacts();
  }

  // ---------------------------------------------------------------------------
  // The stylesheet (`colorStyles`)
  // ---------------------------------------------------------------------------

  /** `color.substring(1)`. */
  function Hexless(color: string): (x: string)
    ensures |color| > 0 ==> |x| == |color| - 1
  {
    if |color| == 0 then "" else color[1..]
  }

  /** The two CSS rules for one colour, ending in a newline. */
  function Rule(color: string): (rule: string)
    ensures |rule| == 42 + |color| * 2 + |Hexless(color)| * 2
  {
    ".bg-" + Hexless(color) + "{background-color:" + color + ";} .color-" + Hexless(color)
      + "{color:" + color + ";}\n"
  }

  /** `colorStyles`: the rules of all colours, joined with nothing between. */
  function ColorStyles(hexes: seq<string>): string
  {
    Concat(Map(hexes, Rule))
  }

  /** For a `#rrggbb` colour the rule is 68 characters, with the colour itself at
      offset 28 and its six digits at offset 4. */
  lemma RuleLayout(color: string)
    requires |color| == 7
    ensures |Rule(color)| == 68
    ensures Rule(color)[28..35] == color
    ensures Rule(color)[4..10] == color[1..]
    ensures Rule(color)[..4] == ".bg-"
  {
    var x := Hexless(color);
    var rule := Rule(color);
    assert rule == ".bg-" + x + "{background-color:" + color + ";} .color-" + x + "{color:" + color + ";}\n";
    assert rule[28..35] == color by {
      forall k | 0 <= k < 7
        ensures rule[28 + k] == color[k]
      {
      }
    }
    assert rule[4..10] == x by {
      forall k | 0 <= k < 6
        ensures rule[4 + k] == x[k]
      {
      }
    }
  }

  /** Reading the colours back out of a stylesheet of 68-character rules. */
  function ColorsOfStyles(css: string): (hexes: seq<string>)
    ensures |hexes| == |css| / 68
  {
    seq(|css| / 68, i requires 0 <= i < |css| / 68 => css[68 * i + 28 .. 68 * i + 35])
  }

  /** The rules for `hexes` sit one after another, in list order. */
  lemma {:induction false} StylesLayout(hexes: seq<string>)
    requires forall i :: 0 <= i < |hexes| ==> |hexes[i]| == 7
    ensures |ColorStyles(hexes)| == 68 * |hexes|
    ensures forall i :: 0 <= i < |hexes| ==> ColorStyles(hexes)[68 * i .. 68 * i + 68] == Rule(hexes[i])
  {
    if |hexes| > 0 {
      var rules := Map(hexes, Rule);
      assert rules[1..] == Map(hexes[1..], Rule);
      StylesLayout(hexes[1..]);
      RuleLayout(hexes[0]);
      var head, tail := Rule(hexes[0]), ColorStyles(hexes[1..]);
      assert ColorStyles(hexes) == head + tail;
      forall i | 0 <= i < |hexes|
        ensures ColorStyles(hexes)[68 * i .. 68 * i + 68] == Rule(hexes[i])
      {
        if i > 0 {
          assert tail[68 * (i - 1) .. 68 * (i - 1) + 68] == Rule(hexes[1..][i - 1]);
          assert (head + tail)[68 * i .. 68 * i + 68] == tail[68 * (i - 1) .. 68 * (i - 1) + 68];
        }
      }
    }
  }

  /** A slice of a slice is a slice of the whole. */
  lemma SliceOfSlice<T>(s: seq<T>, lo: nat, hi: nat, i: nat, j: nat)
    requires lo <= hi <= |s| && i <= j <= hi - lo
    ensures s[lo..hi][i..j] == s[lo + i .. lo + j]
  {
    assert |s[lo..hi][i..j]| == j - i == |s[lo + i .. lo + j]|;
    forall k | 0 <= k < j - i
      ensures s[lo..hi][i..j][k] == s[lo + i .. lo + j][k]
    {
      assert s[lo..hi][i..j][k] == s[lo..hi][i + k] == s[lo + i + k];
    }
  }

  /** The stylesheet can be read back into the colour list it was built from. */
  lemma StylesRoundTrip(hexes: seq<string>)
    requires forall i :: 0 <= i < |hexes| ==> |hexes[i]| == 7
    ensures ColorsOfStyles(ColorStyles(hexes)) == hexes
  {
    StylesLayout(hexes);
    var css := ColorStyles(hexes);
    forall i | 0 <= i < |hexes|
      ensures css[68 * i + 28 .. 68 * i + 35] == hexes[i]
    {
      RuleLayout(hexes[i]);
      var lo := 68 * i;
      SliceOfSlice(css, lo, lo + 68, 28, 35);
    }
  }

  /** The palette's stylesheet: 216 rules of 68 characters, one per colour in
      list order. */
  lemma PaletteStyles()
    ensures |ColorStyles(UniqueList)| == 216 * 68
    ensures ColorsOfStyles(ColorStyles(UniqueList)) == UniqueList
  {
    UniqueListFacts();
    StylesLayout(UniqueList);
    StylesRoundTrip(UniqueList);
  }
}
