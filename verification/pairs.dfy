/** The pair half of `scripts/generateColors.js`: the guideline-filtered cross
    join `everyCombo`, the list `colorCombinations` of ordered pairs whose
    contrast ratio exceeds 10, and the `contrastCounts` histogram over it. */
module Pairs {

  import opened Seqs
  import opened ColorConversions
  import opened Palette

  // ---------------------------------------------------------------------------
  // everyCombo
  // ---------------------------------------------------------------------------

  /** What `meetsContrastGuidelines` returns: a flag per guideline level. */
  type Guidelines = map<string, bool>

  /** `meetsContrastGuidelines(base, accent)` of the polished library, which is
      not part of this model and is taken as a parameter. */
  type Classifier = (string, string) -> Guidelines

  /** `Object.values(g).some(v => v)`: some guideline level is met. */
  predicate SomePasses(g: Guidelines)
  {
    exists k | k in g :: g[k]
  }

  /** One element of an `everyCombo` row. */
  datatype Combo = Combo(baseColor: string, accentColor: string, contrast: ContrastInfo, contrastGuidelines: Guidelines)

  /** The object built for one base and one accent; `contrast` is the base's. */
  function ComboOf(meets: Classifier, base: ColorRecord, accent: ColorRecord): Combo
  {
    Combo(base.hex, accent.hex, base.contrast, meets(base.hex, accent.hex))
  }

  /** The inner `all.map(accentColor => ...)` for one base. */
  function ComboWith(meets: Classifier, base: ColorRecord): ColorRecord -> Combo
  {
    (accent: ColorRecord) => ComboOf(meets, base, accent)
  }

  /** The filter callback of the second `map`. */
  predicate Passes(c: Combo)
  {
    SomePasses(c.contrastGuidelines)
  }

  /** Whether the classifier accepts an accent on a base. */
  function Meets(meets: Classifier, base: ColorRecord): ColorRecord -> bool
  {
    (accent: ColorRecord) => SomePasses(meets(base.hex, accent.hex))
  }

  /** `everyCombo`: for every base, every accent paired with it, then each row
      filtered to the pairs some guideline accepts. Rows are kept even when
      empty, and the result is not flattened. */
  function EveryCombo(meets: Classifier, all: seq<ColorRecord>): (rows: seq<seq<Combo>>)
    ensures |rows| == |all|
  {
    Map(Map(all, base => Map(all, ComboWith(meets, base))), (row: seq<Combo>) => Filter(row, Passes))
  }

  /** Row `i` is the accepted accents, in the order of `all`, each paired
      with base `i`. */
  lemma EveryComboRow(meets: Classifier, all: seq<ColorRecord>, i: nat)
    requires i < |all|
    ensures EveryCombo(meets, all)[i] == Map(Filter(all, Meets(meets, all[i])), ComboWith(meets, all[i]))
  {
    FilterMap(all, ComboWith(meets, all[i]), Passes, Meets(meets, all[i]));
  }

  /** Whether `c` pairs base `i` with some accent the classifier accepts. */
  ghost predicate AcceptedPair(meets: Classifier, all: seq<ColorRecord>, i: nat, c: Combo)
    requires i < |all|
  {
    exists j :: 0 <= j < |all| && c == ComboOf(meets, all[i], all[j]) && SomePasses(meets(all[i].hex, all[j].hex))
  }

  /** A combo is in row `i` exactly when it pairs base `i` with some accent
      the classifier accepts on it. */
  lemma EveryComboMember(meets: Classifier, all: seq<ColorRecord>, i: nat, c: Combo)
    requires i < |all|
    ensures c in EveryCombo(meets, all)[i] <==> AcceptedPair(meets, all, i, c)
  {
    EveryComboRow(meets, all, i);
    if c in EveryCombo(meets, all)[i] {
      RowOnlyAccepted(meets, all, i, c);
    }
    if AcceptedPair(meets, all, i, c) {
      RowHasAccepted(meets, all, i, c);
    }
  }

  lemma RowOnlyAccepted(meets: Classifier, all: seq<ColorRecord>, i: nat, c: Combo)
    requires i < |all|
    requires c in Map(Filter(all, Meets(meets, all[i])), ComboWith(meets, all[i]))
    ensures AcceptedPair(meets, all, i, c)
  {
    var kept := Filter(all, Meets(meets, all[i]));
    var t :| 0 <= t < |kept| && c == Map(kept, ComboWith(meets, all[i]))[t];
    FilterMember(all, Meets(meets, all[i]), kept[t]);
    var j :| 0 <= j < |all| && all[j] == kept[t];
    assert c == ComboOf(meets, all[i], all[j]);
  }

  lemma RowHasAccepted(meets: Classifier, all: seq<ColorRecord>, i: nat, c: Combo)
    requires i < |all|
    requires AcceptedPair(meets, all, i, c)
    ensures c in Map(Filter(all, Meets(meets, all[i])), ComboWith(meets, all[i]))
  {
    var kept := Filter(all, Meets(meets, all[i]));
    var j :| 0 <= j < |all| && c == ComboOf(meets, all[i], all[j]) && SomePasses(meets(all[i].hex, all[j].hex));
    FilterMember(all, Meets(meets, all[i]), all[j]);
    var t :| 0 <= t < |kept| && kept[t] == all[j];
    assert Map(kept, ComboWith(meets, all[i]))[t] == c;
  }

  // ---------------------------------------------------------------------------
  // colorCombinations
  // ---------------------------------------------------------------------------

  /** `minimumContrast`. */
  const MinimumContrast: real := 10.0

  /** `calculateRatio` on the `{ r, g, b }` of two records. */
  function RatioOf(pow: Power, base: ColorRecord, accent: ColorRecord): (ratio: real)
    ensures ratio >= 1.0
  {
    CalculateRatio(pow, base.rgb, accent.rgb)
  }

  /** The intermediate object `{ baseColor, accentColor, contrast }`. */
  datatype Pairing = Pairing(baseColor: ColorRecord, accentColor: ColorRecord, contrast: real)

  /** The final object `{ accentColor, baseColor, contrast }`, hexes only. */
  datatype HighContrast = HighContrast(accentColor: string, baseColor: string, contrast: real)

  /** The filter callback for one base: the ratio exceeds the minimum. */
  function Above(pow: Power, base: ColorRecord): ColorRecord -> bool
  {
    (accent: ColorRecord) => RatioOf(pow, base, accent) > MinimumContrast
  }

  /** The map callback for one base. */
  function PairWith(pow: Power, base: ColorRecord): ColorRecord -> Pairing
  {
    (accent: ColorRecord) => Pairing(base, accent, RatioOf(pow, base, accent))
  }

  /** The accents over the threshold for one base, paired with it. */
  function AccentsFor(pow: Power, all: seq<ColorRecord>, base: ColorRecord): seq<Pairing>
  {
    Map(Filter(all, Above(pow, base)), PairWith(pow, base))
  }

  /** One row of pairings per base. */
  function Rows(pow: Power, all: seq<ColorRecord>): (rows: seq<seq<Pairing>>)
    ensures |rows| == |all|
    ensures forall i :: 0 <= i < |all| ==> rows[i] == AccentsFor(pow, all, all[i])
  {
    Map(all, base => AccentsFor(pow, all, base))
  }

  /** `colorCombos => colorCombos.length > 0`. */
  predicate NonEmpty(row: seq<Pairing>)
  {
    |row| > 0
  }

  /** The last `map`: hexes in place of records, accent first. */
  function Summary(p: Pairing): HighContrast
  {
    HighContrast(p.accentColor.hex, p.baseColor.hex, p.contrast)
  }

  /** `colorCombinations`, step by step as the script builds it. */
  function ColorCombinations(pow: Power, all: seq<ColorRecord>): seq<HighContrast>
  {
    Map(Flatten(Filter(Rows(pow, all), NonEmpty)), Summary)
  }

  /** Every ordered pair of records, base-major, with its ratio. */
  function OrderedPairs(pow: Power, all: seq<ColorRecord>): (pairs: seq<Pairing>)
  {
    Flatten(Map(all, base => Map(all, PairWith(pow, base))))
  }

  /** Whether a pairing exceeds the threshold. */
  predicate IsHigh(p: Pairing)
  {
    p.contrast > MinimumContrast
  }

  /** The script's construction is the plain description: all ordered pairs,
      base first and then accent in the order of `all`, kept when their ratio
      exceeds 10. */
  lemma ColorCombinationsAreHighPairs(pow: Power, all: seq<ColorRecord>)
    ensures ColorCombinations(pow, all) == Map(Filter(OrderedPairs(pow, all), IsHigh), Summary)
  {
    var full := Map(all, base => Map(all, PairWith(pow, base)));
    var high := (row: seq<Pairing>) => Filter(row, IsHigh);
    FilterFlatten(full, IsHigh, high);
    forall i | 0 <= i < |all|
      ensures Map(full, high)[i] == Rows(pow, all)[i]
    {
      FilterMap(all, PairWith(pow, all[i]), IsHigh, Above(pow, all[i]));
    }
    assert Map(full, high) == Rows(pow, all);
    FlattenDropEmpty(Rows(pow, all), NonEmpty);
  }

  /** Whether `p` pairs two records of `all` with their ratio. */
  ghost predicate IsPairOf(pow: Power, all: seq<ColorRecord>, p: Pairing)
  {
    exists i, j :: 0 <= i < |all| && 0 <= j < |all| && p == Pairing(all[i], all[j], RatioOf(pow, all[i], all[j]))
  }

  /** A pairing is in the cross join exactly when it pairs two records of
      `all` with their ratio. */
  lemma OrderedPairsMember(pow: Power, all: seq<ColorRecord>, p: Pairing)
    ensures p in OrderedPairs(pow, all) <==> IsPairOf(pow, all, p)
  {
    var full := Map(all, base => Map(all, PairWith(pow, base)));
    FlattenMember(full, p);
    if p in OrderedPairs(pow, all) {
      var i :| 0 <= i < |full| && p in full[i];
      InRowIsPair(pow, all, i, p);
    }
    if IsPairOf(pow, all, p) {
      var i, j :| 0 <= i < |all| && 0 <= j < |all| && p == Pairing(all[i], all[j], RatioOf(pow, all[i], all[j]));
      assert Map(all, PairWith(pow, all[i]))[j] == p;
      assert full[i] == Map(all, PairWith(pow, all[i]));
    }
  }

  lemma InRowIsPair(pow: Power, all: seq<ColorRecord>, i: nat, p: Pairing)
    requires i < |all| && p in Map(all, PairWith(pow, all[i]))
    ensures IsPairOf(pow, all, p)
  {
    var j :| 0 <= j < |all| && p == Map(all, PairWith(pow, all[i]))[j];
    assert p == Pairing(all[i], all[j], RatioOf(pow, all[i], all[j]));
  }

  /** Whether `e` names a base and an accent of `all` whose ratio exceeds
      10, with that ratio. */
  ghost predicate IsHighPairOf(pow: Power, all: seq<ColorRecord>, e: HighContrast)
  {
    exists i, j :: 0 <= i < |all| && 0 <= j < |all| && RatioOf(pow, all[i], all[j]) > MinimumContrast &&
      e == HighContrast(all[j].hex, all[i].hex, RatioOf(pow, all[i], all[j]))
  }

  /** An entry is in `colorCombinations` exactly when it names some base and
      accent of `all` whose ratio exceeds 10, with that ratio. */
  lemma ColorCombinationsMember(pow: Power, all: seq<ColorRecord>, e: HighContrast)
    ensures e in ColorCombinations(pow, all) <==> IsHighPairOf(pow, all, e)
  {
    ColorCombinationsAreHighPairs(pow, all);
    if e in ColorCombinations(pow, all) {
      OnlyHighPairs(pow, all, e);
    }
    if IsHighPairOf(pow, all, e) {
      EveryHighPair(pow, all, e);
    }
  }

  lemma OnlyHighPairs(pow: Power, all: seq<ColorRecord>, e: HighContrast)
    requires e in Map(Filter(OrderedPairs(pow, all), IsHigh), Summary)
    ensures IsHighPairOf(pow, all, e)
  {
    var kept := Filter(OrderedPairs(pow, all), IsHigh);
    var t :| 0 <= t < |kept| && e == Map(kept, Summary)[t];
    FilterMember(OrderedPairs(pow, all), IsHigh, kept[t]);
    OrderedPairsMember(pow, all, kept[t]);
    var i, j :| 0 <= i < |all| && 0 <= j < |all| && kept[t] == Pairing(all[i], all[j], RatioOf(pow, all[i], all[j]));
    assert e == HighContrast(all[j].hex, all[i].hex, RatioOf(pow, all[i], all[j]));
  }

  lemma EveryHighPair(pow: Power, all: seq<ColorRecord>, e: HighContrast)
    requires IsHighPairOf(pow, all, e)
    ensures e in Map(Filter(OrderedPairs(pow, all), IsHigh), Summary)
  {
    var kept := Filter(OrderedPairs(pow, all), IsHigh);
    var i, j :| 0 <= i < |all| && 0 <= j < |all| && RatioOf(pow, all[i], all[j]) > MinimumContrast &&
      e == HighContrast(all[j].hex, all[i].hex, RatioOf(pow, all[i], all[j]));
    var p := Pairing(all[i], all[j], RatioOf(pow, all[i], all[j]));
    HighPairKept(pow, all, p);
    var t :| 0 <= t < |kept| && kept[t] == p;
    assert Summary(kept[t]) == e;
    MapMember(kept, Summary, e);
  }

  lemma HighPairKept(pow: Power, all: seq<ColorRecord>, p: Pairing)
    requires IsPairOf(pow, all, p) && p.contrast > MinimumContrast
    ensures p in Filter(OrderedPairs(pow, all), IsHigh)
  {
    OrderedPairsMember(pow, all, p);
    FilterMember(OrderedPairs(pow, all), IsHigh, p);
  }

  /** Every entry's ratio exceeds 10. */
  lemma ColorCombinationsAboveMinimum(pow: Power, all: seq<ColorRecord>)
    ensures forall e :: e in ColorCombinations(pow, all) ==> e.contrast > MinimumContrast
  {
    forall e | e in ColorCombinations(pow, all)
      ensures e.contrast > MinimumContrast
    {
      ColorCombinationsMember(pow, all, e);
    }
  }

  /** `calculateRatio` does not depend on the order of its arguments, so
      with every pair its reverse is listed too, with the same ratio. */
  lemma ColorCombinationsSwap(pow: Power, all: seq<ColorRecord>, e: HighContrast)
    requires e in ColorCombinations(pow, all)
    ensures HighContrast(e.baseColor, e.accentColor, e.contrast) in ColorCombinations(pow, all)
  {
    ColorCombinationsMember(pow, all, e);
    var i, j :| 0 <= i < |all| && 0 <= j < |all| && RatioOf(pow, all[i], all[j]) > MinimumContrast &&
      e == HighContrast(all[j].hex, all[i].hex, RatioOf(pow, all[i], all[j]));
    CalculateRatioSymmetric(pow, all[i].rgb, all[j].rgb);
    assert RatioOf(pow, all[j], all[i]) == RatioOf(pow, all[i], all[j]);
    ColorCombinationsMember(pow, all, HighContrast(e.baseColor, e.accentColor, e.contrast));
  }

  // ---------------------------------------------------------------------------
  // contrastCounts
  // ---------------------------------------------------------------------------

  /** `Math.floor(combo.contrast)`. */
  function KeyOf(e: HighContrast): int
  {
    e.contrast.Floor
  }

  /** The filter selecting the entries with key `k`. */
  function KeyIs(k: int): HighContrast -> bool
  {
    (e: HighContrast) => KeyOf(e) == k
  }

  /** How many entries have key `k`. */
  function Count(combos: seq<HighContrast>, k: int): nat
  {
    |Filter(combos, KeyIs(k))|
  }

  /** Appending one entry adds one to its own key's count and nothing else. */
  lemma CountSnoc(init: seq<HighContrast>, last: HighContrast)
    ensures forall k :: Count(init + [last], k) == Count(init, k) + (if KeyOf(last) == k then 1 else 0)
  {
    forall k
      ensures Count(init + [last], k) == Count(init, k) + (if KeyOf(last) == k then 1 else 0)
    {
      FilterAppend(init, [last], KeyIs(k));
    }
  }

  /** `contrastCounts` after `forEach` over `combos`: a key is present exactly
      when some entry floors to it, and its value is how many do. */
  function ContrastCounts(combos: seq<HighContrast>): (m: map<int, nat>)
    ensures forall k :: k in m <==> Count(combos, k) > 0
    ensures forall k :: k in m ==> m[k] == Count(combos, k)
    decreases |combos|
  {
    if |combos| == 0 then map[]
    else
      var init, last := combos[..|combos| - 1], combos[|combos| - 1];
      var counts := ContrastCounts(init);
      var key := KeyOf(last);
      CountSnoc(init, last);
      assert combos == init + [last];
      if key !in counts then counts[key := 1] else counts[key := counts[key] + 1]
  }

  /** Some key of a non-empty map. */
  ghost function AnyKey(m: map<int, nat>): (k: int)
    requires exists k :: k in m
    ensures k in m
  {
    var k :| k in m; k
  }

  /** The sum of the values of a histogram. */
  ghost function Total(m: map<int, nat>): nat
    decreases |m.Keys|
  {
    if !exists k :: k in m then 0
    else
      var k := AnyKey(m);
      assert |(m - {k}).Keys| < |m.Keys| by {
        assert (m - {k}).Keys == m.Keys - {k};
      }
      m[k] + Total(m - {k})
  }

  /** The total does not depend on which key is taken out first. */
  lemma {:induction false} TotalRemove(m: map<int, nat>, k: int)
    requires k in m
    ensures Total(m) == m[k] + Total(m - {k})
    decreases |m.Keys|
  {
    var j := AnyKey(m);
    if j != k {
      assert (m - {j}).Keys == m.Keys - {j};
      assert (m - {k}).Keys == m.Keys - {k};
      TotalRemove(m - {j}, k);
      TotalRemove(m - {k}, j);
      assert m - {j} - {k} == m - {k} - {j};
    }
  }

  /** Adding one to a key's count adds one to the total. */
  lemma TotalIncrement(m: map<int, nat>, key: int, v: nat)
    requires v == (if key in m then m[key] else 0) + 1
    ensures Total(m[key := v]) == Total(m) + 1
  {
    var m' := m[key := v];
    TotalRemove(m', key);
    assert m' - {key} == m - {key};
    if key in m {
      TotalRemove(m, key);
    } else {
      assert m - {key} == m;
    }
  }

  /** The counts add up to the number of entries. */
  lemma {:induction false} CountsTotal(combos: seq<HighContrast>)
    ensures Total(ContrastCounts(combos)) == |combos|
    decreases |combos|
  {
    if |combos| > 0 {
      var init, last := combos[..|combos| - 1], combos[|combos| - 1];
      CountsTotal(init);
      var counts := ContrastCounts(init);
      var key := KeyOf(last);
      TotalIncrement(counts, key, (if key in counts then counts[key] else 0) + 1);
    }
  }

  /** Over `colorCombinations` every key is at least 10, and the counts add
      up to the number of pairs. */
  lemma CountsOfCombinations(pow: Power, all: seq<ColorRecord>)
    ensures forall k :: k in ContrastCounts(ColorCombinations(pow, all)) ==> k >= 10
    ensures Total(ContrastCounts(ColorCombinations(pow, all))) == |ColorCombinations(pow, all)|
  {
    var combos := ColorCombinations(pow, all);
    ColorCombinationsAboveMinimum(pow, all);
    forall k | k in ContrastCounts(combos)
      ensures k >= 10
    {
      var hits := Filter(combos, KeyIs(k));
      FilterMember(combos, KeyIs(k), hits[0]);
    }
    CountsTotal(combos);
  }
}
