/** The worked examples in the doc comments of `scripts/permutations.js`, proved
    for inputs of the given lengths with arbitrary elements (so one lemma covers
    `permutations([0,1,2],2)`, `permutations([1,2,3],2)` and
    `permutations('cat',2)` alike). */
module CombinatoricsExamples {

  import opened Wrappers
  import opened Seqs
  import opened Combinatorics
  import opened JsStrings

  // ---------------------------------------------------------------------------
  // product of two sequences
  // ---------------------------------------------------------------------------

  /** The product of two sequences lists `[a[i], b[j]]` at position `i*|b| + j`. */
  lemma PairAt<T>(a: seq<T>, b: seq<T>, i: nat, j: nat)
    requires i < |a| && j < |b|
    ensures |ProductOf([a, b])| == |a| * |b|
    ensures i * |b| + j < |a| * |b|
    ensures ProductOf([a, b])[i * |b| + j] == [a[i], b[j]]
  {
    var singles := ProductOf([a]);
    assert [a, b][..1] == [a];
    assert [a][..0] == [];
    ExtendCons([[]], a);
    assert singles == Appended([], a);
    ExtendLength(singles, b);
    ExtendIndex(singles, b, i, j);
  }

  /** `product('me','hi')` lists `mh, mi, eh, ei`. */
  lemma ProductTwoByTwo<T>(a: seq<T>, b: seq<T>)
    requires |a| == 2 && |b| == 2
    ensures ProductOf([a, b]) == [[a[0], b[0]], [a[0], b[1]], [a[1], b[0]], [a[1], b[1]]]
  {
    PairAt(a, b, 0, 0);
    PairAt(a, b, 0, 1);
    PairAt(a, b, 1, 0);
    PairAt(a, b, 1, 1);
  }

  /** `product([1,2,3],['a','b','c'])` and `product([0,1,2],[0,1,2])`: nine
      pairs, the second component varying fastest. */
  lemma ProductThreeByThree<T>(a: seq<T>, b: seq<T>)
    requires |a| == 3 && |b| == 3
    ensures ProductOf([a, b]) == [
      [a[0], b[0]], [a[0], b[1]], [a[0], b[2]],
      [a[1], b[0]], [a[1], b[1]], [a[1], b[2]],
      [a[2], b[0]], [a[2], b[1]], [a[2], b[2]]]
  {
    PairAt(a, b, 0, 0);
    PairAt(a, b, 0, 1);
    PairAt(a, b, 0, 2);
    PairAt(a, b, 1, 0);
    PairAt(a, b, 1, 1);
    PairAt(a, b, 1, 2);
    PairAt(a, b, 2, 0);
    PairAt(a, b, 2, 1);
    PairAt(a, b, 2, 2);
  }

  /** `product({who: ['me','you'], say: ['hi','by']})`: four records, keyed by
      the object's keys in order, the last key varying fastest. */
  lemma NamedProductTwoByTwo<T>(k0: string, a: seq<T>, k1: string, b: seq<T>)
    requires |a| == 2 && |b| == 2
    ensures ProductNamed([(k0, a), (k1, b)]) == [
      [(k0, a[0]), (k1, b[0])], [(k0, a[0]), (k1, b[1])],
      [(k0, a[1]), (k1, b[0])], [(k0, a[1]), (k1, b[1])]]
  {
    var fields := [(k0, a), (k1, b)];
    assert FieldValues(fields) == [a, b];
    assert FieldNames(fields) == [k0, k1];
    ProductTwoByTwo(a, b);
    var r := ProductNamed(fields);
    assert r[0] == [(k0, a[0]), (k1, b[0])];
    assert r[1] == [(k0, a[0]), (k1, b[1])];
    assert r[2] == [(k0, a[1]), (k1, b[0])];
    assert r[3] == [(k0, a[1]), (k1, b[1])];
  }

  // ---------------------------------------------------------------------------
  // filtering short literal lists
  // ---------------------------------------------------------------------------

  lemma FilterSingle<T>(x: T, p: T -> bool)
    ensures Filter([x], p) == if p(x) then [x] else []
  {
    assert [x][1..] == [];
  }

  /** Proof step for the examples: filtering three consecutive blocks filters
      each block. */
  lemma FilterThreeBlocks<T>(a: seq<T>, b: seq<T>, c: seq<T>, p: T -> bool)
    ensures Filter(a + b + c, p) == Filter(a, p) + Filter(b, p) + Filter(c, p)
  {
    FilterAppend(a + b, c, p);
    FilterAppend(a, b, p);
  }

  /** Proof step for the examples: the four-block form of `FilterThreeBlocks`. */
  lemma FilterFourBlocks<T>(a: seq<T>, b: seq<T>, c: seq<T>, d: seq<T>, p: T -> bool)
    ensures Filter(a + b + c + d, p) == Filter(a, p) + Filter(b, p) + Filter(c, p) + Filter(d, p)
  {
    FilterAppend(a + b + c, d, p);
    FilterThreeBlocks(a, b, c, p);
  }

  lemma FilterThree<T>(x: T, y: T, z: T, p: T -> bool)
    ensures Filter([x, y, z], p) == Filter([x], p) + Filter([y], p) + Filter([z], p)
  {
    assert [x, y, z] == [x] + [y] + [z];
    FilterThreeBlocks([x], [y], [z], p);
  }

  lemma FilterFour<T>(w: T, x: T, y: T, z: T, p: T -> bool)
    ensures Filter([w, x, y, z], p) == Filter([w], p) + Filter([x], p) + Filter([y], p) + Filter([z], p)
  {
    assert [w, x, y, z] == [w] + [x] + [y] + [z];
    FilterFourBlocks([w], [x], [y], [z], p);
  }

  // ---------------------------------------------------------------------------
  // index pairs, row by row
  // ---------------------------------------------------------------------------

  /** The index pairs below `m`, as a product of two key arrays. */
  lemma IndexPairs(m: nat)
    ensures IndexProduct(m, 2) == ProductOf([Keys(m), Keys(m)])
  {
    assert KeyCopies(m, 2) == [Keys(m), Keys(m)];
  }

  /** Row `i` of the index pairs: `[i, 0], [i, 1], ...`. */
  function Row(m: nat, i: nat): seq<seq<nat>>
  {
    Appended([i], Keys(m))
  }

  /** The singletons `[0], [1], ...` that the second factor extends. */
  lemma Singletons(m: nat)
    ensures ProductOf([Keys(m)]) == Appended([], Keys(m))
  {
    var k: seq<nat> := Keys(m);
    var one: seq<seq<nat>> := [k];
    assert |one[..0]| == 0;
    ExtendCons([[]], k);
  }

  lemma IndexPairsOfThree(m: nat)
    requires m == 3
    ensures IndexProduct(m, 2) == Row(m, 0) + Row(m, 1) + Row(m, 2)
  {
    var k: seq<nat> := Keys(m);
    IndexPairs(m);
    assert [k, k][..1] == [k];
    Singletons(m);
    var s: seq<seq<nat>> := Appended([], k);
    assert s[0] == [0] && s[1] == [1] && s[2] == [2];
    ExtendCons(s, k);
    ExtendCons(s[1..], k);
    ExtendCons(s[2..], k);
    var rest: seq<seq<nat>> := s[2..][1..];
    assert |rest| == 0;
  }

  lemma IndexPairsOfFour(m: nat)
    requires m == 4
    ensures IndexProduct(m, 2) == Row(m, 0) + Row(m, 1) + Row(m, 2) + Row(m, 3)
  {
    var k: seq<nat> := Keys(m);
    IndexPairs(m);
    assert [k, k][..1] == [k];
    Singletons(m);
    var s: seq<seq<nat>> := Appended([], k);
    assert s[0] == [0] && s[1] == [1] && s[2] == [2] && s[3] == [3];
    ExtendCons(s, k);
    ExtendCons(s[1..], k);
    ExtendCons(s[2..], k);
    ExtendCons(s[3..], k);
    var rest: seq<seq<nat>> := s[3..][1..];
    assert |rest| == 0;
  }

  lemma RowOfThree(m: nat, i: nat)
    requires m == 3
    ensures Row(m, i) == [[i, 0], [i, 1], [i, 2]]
  {
    var k := Keys(m);
    assert k[0] == 0 && k[1] == 1 && k[2] == 2;
    assert [i] + [0] == [i, 0] && [i] + [1] == [i, 1] && [i] + [2] == [i, 2];
  }

  lemma RowOfFour(m: nat, i: nat)
    requires m == 4
    ensures Row(m, i) == [[i, 0], [i, 1], [i, 2], [i, 3]]
  {
    var k := Keys(m);
    assert k[0] == 0 && k[1] == 1 && k[2] == 2 && k[3] == 3;
    assert [i] + [0] == [i, 0] && [i] + [1] == [i, 1] && [i] + [2] == [i, 2] && [i] + [3] == [i, 3];
  }

  /** On pairs of single-digit indices the three filters read numerically. */
  lemma PairFilters(a: nat, b: nat)
    requires a < 10 && b < 10
    ensures DistinctLead([a, b]) <==> a != b
    ensures OrderedLead([a, b]) <==> a <= b
    ensures KeysSorted([a, b]) <==> a <= b
  {
    DistinctLeadMeaning([a, b]);
    DigitKeyOrder(a, b);
    SortedPair([a, b]);
  }

  /** Mapping an index pair back to values. */
  lemma PickPairAt<T>(xs: seq<T>, ts: seq<seq<nat>>, k: nat)
    requires InRange(|xs|, ts)
    requires k < |ts| && |ts[k]| == 2
    ensures ts[k][0] < |xs| && ts[k][1] < |xs|
    ensures PickAll(xs, ts)[k] == [xs[ts[k][0]], xs[ts[k][1]]]
  {
    assert ts[k] in ts;
    assert Pick(xs, ts[k]) == [xs[ts[k][0]], xs[ts[k][1]]];
  }

  // ---------------------------------------------------------------------------
  // permutations([0,1,2], 2)
  // ---------------------------------------------------------------------------

  lemma DistinctRowOfThree(m: nat, i: nat)
    requires m == 3 && i < 3
    ensures Filter(Row(m, i), DistinctLead) ==
      (if i != 0 then [[i, 0]] else []) + (if i != 1 then [[i, 1]] else []) + (if i != 2 then [[i, 2]] else [])
  {
    RowOfThree(m, i);
    FilterThree([i, 0], [i, 1], [i, 2], DistinctLead);
    FilterSingle([i, 0], DistinctLead);
    FilterSingle([i, 1], DistinctLead);
    FilterSingle([i, 2], DistinctLead);
    PairFilters(i, 0);
    PairFilters(i, 1);
    PairFilters(i, 2);
  }

  lemma DistinctRowsOfThree(m: nat)
    requires m == 3
    ensures Filter(Row(m, 0), DistinctLead) == [[0, 1], [0, 2]]
    ensures Filter(Row(m, 1), DistinctLead) == [[1, 0], [1, 2]]
    ensures Filter(Row(m, 2), DistinctLead) == [[2, 0], [2, 1]]
  {
    DistinctRowOfThree(m, 0);
    DistinctRowOfThree(m, 1);
    DistinctRowOfThree(m, 2);
  }

  /** Proof step for `DistinctPairsOfThree`: joins the three literal rows.
      It is kept apart so the literal equality is checked without the `Filter`
      terms in scope. */
  lemma PermutationRowsJoin(whole: seq<seq<nat>>, a: seq<seq<nat>>, b: seq<seq<nat>>, c: seq<seq<nat>>)
    requires whole == a + b + c
    requires a == [[0, 1], [0, 2]] && b == [[1, 0], [1, 2]] && c == [[2, 0], [2, 1]]
    ensures whole == [[0, 1], [0, 2], [1, 0], [1, 2], [2, 0], [2, 1]]
  {
  }

  lemma DistinctPairsOfThree(m: nat)
    requires m == 3
    ensures Filter(IndexProduct(m, 2), DistinctLead) == [[0, 1], [0, 2], [1, 0], [1, 2], [2, 0], [2, 1]]
  {
    IndexPairsOfThree(m);
    FilterThreeBlocks(Row(m, 0), Row(m, 1), Row(m, 2), DistinctLead);
    DistinctRowsOfThree(m);
    PermutationRowsJoin(Filter(IndexProduct(m, 2), DistinctLead),
      Filter(Row(m, 0), DistinctLead), Filter(Row(m, 1), DistinctLead), Filter(Row(m, 2), DistinctLead));
  }

  /** `permutations([0,1,2], 2)` keeps the six ordered pairs of distinct indices. */
  lemma PermutationIndicesOfThree(m: nat)
    requires m == 3
    ensures PermutationIndices(m, 2) == [[0, 1], [0, 2], [1, 0], [1, 2], [2, 0], [2, 1]]
  {
    DistinctPairsOfThree(m);
  }

  /** `permutations([1,2,3], 2)`, `permutations('cat', 2)`: the six ordered
      pairs of distinct positions, listed by first position, then second. */
  lemma PermutationsOfThree<T>(xs: seq<T>)
    requires |xs| == 3
    ensures Permutations(xs, 2) ==
      [[xs[0], xs[1]], [xs[0], xs[2]], [xs[1], xs[0]], [xs[1], xs[2]], [xs[2], xs[0]], [xs[2], xs[1]]]
  {
    PermutationIndicesOfThreeAt(|xs|);
    PickPermutationsOfThree(xs, PermutationIndices(|xs|, 2));
  }

  lemma PermutationIndicesOfThreeAt(m: nat)
    requires m == 3
    ensures var ts := PermutationIndices(m, 2);
      |ts| == 6 && ts[0] == [0, 1] && ts[1] == [0, 2] && ts[2] == [1, 0] &&
      ts[3] == [1, 2] && ts[4] == [2, 0] && ts[5] == [2, 1]
  {
    PermutationIndicesOfThree(m);
    PermutationPairsAt(PermutationIndices(m, 2));
  }

  lemma PermutationPairsAt(ts: seq<seq<nat>>)
    requires ts == [[0, 1], [0, 2], [1, 0], [1, 2], [2, 0], [2, 1]]
    ensures |ts| == 6 && ts[0] == [0, 1] && ts[1] == [0, 2] && ts[2] == [1, 0] &&
      ts[3] == [1, 2] && ts[4] == [2, 0] && ts[5] == [2, 1]
  {
  }

  lemma PickPermutationsOfThree<T>(xs: seq<T>, ts: seq<seq<nat>>)
    requires |xs| == 3 && InRange(|xs|, ts) && |ts| == 6
    requires ts[0] == [0, 1] && ts[1] == [0, 2] && ts[2] == [1, 0]
    requires ts[3] == [1, 2] && ts[4] == [2, 0] && ts[5] == [2, 1]
    ensures PickAll(xs, ts) ==
      [[xs[0], xs[1]], [xs[0], xs[2]], [xs[1], xs[0]], [xs[1], xs[2]], [xs[2], xs[0]], [xs[2], xs[1]]]
  {
    PickPairAt(xs, ts, 0);
    PickPairAt(xs, ts, 1);
    PickPairAt(xs, ts, 2);
    PickPairAt(xs, ts, 3);
    PickPairAt(xs, ts, 4);
    PickPairAt(xs, ts, 5);
  }

  // ---------------------------------------------------------------------------
  // combinations([0,1,2,3], 2)
  // ---------------------------------------------------------------------------

  /** The two filters `combinations` applies in turn: the lead guard inside
      `permutations`, then `isSorted`. */
  predicate SortedDistinct(t: seq<nat>)
  {
    DistinctLead(t) && KeysSorted(t)
  }

  lemma CombinationIndicesAsOneFilter(m: nat, n: int)
    ensures CombinationIndices(m, n) == Filter(IndexProduct(m, Arity(m, n)), SortedDistinct)
  {
    PermutationsOfKeys(m, n);
    FilterFilter(IndexProduct(m, Arity(m, n)), DistinctLead, KeysSorted, SortedDistinct);
  }

  lemma SortedDistinctRowOfFour(m: nat, i: nat)
    requires m == 4 && i < 4
    ensures Filter(Row(m, i), SortedDistinct) ==
      (if i < 1 then [[i, 1]] else []) + (if i < 2 then [[i, 2]] else []) +
      (if i < 3 then [[i, 3]] else [])
  {
    RowOfFour(m, i);
    FilterFour([i, 0], [i, 1], [i, 2], [i, 3], SortedDistinct);
    assert Filter([[i, 0]], SortedDistinct) == [] by {
      FilterSingle([i, 0], SortedDistinct);
      PairFilters(i, 0);
    }
    assert Filter([[i, 1]], SortedDistinct) == if i < 1 then [[i, 1]] else [] by {
      FilterSingle([i, 1], SortedDistinct);
      PairFilters(i, 1);
    }
    assert Filter([[i, 2]], SortedDistinct) == if i < 2 then [[i, 2]] else [] by {
      FilterSingle([i, 2], SortedDistinct);
      PairFilters(i, 2);
    }
    assert Filter([[i, 3]], SortedDistinct) == if i < 3 then [[i, 3]] else [] by {
      FilterSingle([i, 3], SortedDistinct);
      PairFilters(i, 3);
    }
  }

  lemma SortedDistinctRowsOfFourLow(m: nat)
    requires m == 4
    ensures Filter(Row(m, 0), SortedDistinct) == [[0, 1], [0, 2], [0, 3]]
    ensures Filter(Row(m, 1), SortedDistinct) == [[1, 2], [1, 3]]
  {
    SortedDistinctRowOfFour(m, 0);
    SortedDistinctRowOfFour(m, 1);
  }

  lemma SortedDistinctRowsOfFourHigh(m: nat)
    requires m == 4
    ensures Filter(Row(m, 2), SortedDistinct) == [[2, 3]]
    ensures Filter(Row(m, 3), SortedDistinct) == []
  {
    SortedDistinctRowOfFour(m, 2);
    SortedDistinctRowOfFour(m, 3);
  }

  /** Proof step for `SortedDistinctPairsOfFour`: joins the four literal rows,
      apart from the `Filter` terms. */
  lemma CombinationRowsJoin(whole: seq<seq<nat>>, a: seq<seq<nat>>, b: seq<seq<nat>>, c: seq<seq<nat>>, d: seq<seq<nat>>)
    requires whole == a + b + c + d
    requires a == [[0, 1], [0, 2], [0, 3]] && b == [[1, 2], [1, 3]] && c == [[2, 3]] && d == []
    ensures whole == [[0, 1], [0, 2], [0, 3], [1, 2], [1, 3], [2, 3]]
  {
  }

  lemma SortedDistinctPairsOfFour(m: nat)
    requires m == 4
    ensures Filter(IndexProduct(m, 2), SortedDistinct) == [[0, 1], [0, 2], [0, 3], [1, 2], [1, 3], [2, 3]]
  {
    IndexPairsOfFour(m);
    FilterFourBlocks(Row(m, 0), Row(m, 1), Row(m, 2), Row(m, 3), SortedDistinct);
    SortedDistinctRowsOfFourLow(m);
    SortedDistinctRowsOfFourHigh(m);
    CombinationRowsJoin(Filter(IndexProduct(m, 2), SortedDistinct),
      Filter(Row(m, 0), SortedDistinct), Filter(Row(m, 1), SortedDistinct),
      Filter(Row(m, 2), SortedDistinct), Filter(Row(m, 3), SortedDistinct));
  }

  /** `combinations([0,1,2,3], 2)`: the six pairs `i < j`, each unordered pair once. */
  lemma CombinationIndicesOfFour(m: nat)
    requires m == 4
    ensures CombinationIndices(m, 2) == [[0, 1], [0, 2], [0, 3], [1, 2], [1, 3], [2, 3]]
  {
    CombinationIndicesAsOneFilter(m, 2);
    SortedDistinctPairsOfFour(m);
  }

  lemma CombinationPairsAt(ts: seq<seq<nat>>)
    requires ts == [[0, 1], [0, 2], [0, 3], [1, 2], [1, 3], [2, 3]]
    ensures |ts| == 6 && ts[0] == [0, 1] && ts[1] == [0, 2] && ts[2] == [0, 3] &&
      ts[3] == [1, 2] && ts[4] == [1, 3] && ts[5] == [2, 3]
  {
  }

  lemma CombinationIndicesOfFourAt(m: nat)
    requires m == 4
    ensures var ts := CombinationIndices(m, 2);
      |ts| == 6 && ts[0] == [0, 1] && ts[1] == [0, 2] && ts[2] == [0, 3] &&
      ts[3] == [1, 2] && ts[4] == [1, 3] && ts[5] == [2, 3]
  {
    CombinationIndicesOfFour(m);
    CombinationPairsAt(CombinationIndices(m, 2));
  }

  lemma PickCombinationsOfFour<T>(xs: seq<T>, ts: seq<seq<nat>>)
    requires |xs| == 4 && InRange(|xs|, ts) && |ts| == 6
    requires ts[0] == [0, 1] && ts[1] == [0, 2] && ts[2] == [0, 3]
    requires ts[3] == [1, 2] && ts[4] == [1, 3] && ts[5] == [2, 3]
    ensures PickAll(xs, ts) ==
      [[xs[0], xs[1]], [xs[0], xs[2]], [xs[0], xs[3]], [xs[1], xs[2]], [xs[1], xs[3]], [xs[2], xs[3]]]
  {
    PickPairAt(xs, ts, 0);
    PickPairAt(xs, ts, 1);
    PickPairAt(xs, ts, 2);
    PickPairAt(xs, ts, 3);
    PickPairAt(xs, ts, 4);
    PickPairAt(xs, ts, 5);
  }

  /** `combinations([0,1,2,3], 2)` at the value level, for any four elements. */
  lemma CombinationsOfFour<T>(xs: seq<T>)
    requires |xs| == 4
    ensures Combinations(xs, 2) ==
      [[xs[0], xs[1]], [xs[0], xs[2]], [xs[0], xs[3]], [xs[1], xs[2]], [xs[1], xs[3]], [xs[2], xs[3]]]
  {
    CombinationIndicesOfFourAt(|xs|);
    PickCombinationsOfFour(xs, CombinationIndices(|xs|, 2));
  }

  // ---------------------------------------------------------------------------
  // combinations_with_replacement([0,1,2,3], 2)
  // ---------------------------------------------------------------------------

  lemma OrderedRowOfFour(m: nat, i: nat)
    requires m == 4 && i < 4
    ensures Filter(Row(m, i), OrderedLead) ==
      (if i <= 0 then [[i, 0]] else []) + (if i <= 1 then [[i, 1]] else []) +
      (if i <= 2 then [[i, 2]] else []) + (if i <= 3 then [[i, 3]] else [])
  {
    RowOfFour(m, i);
    FilterFour([i, 0], [i, 1], [i, 2], [i, 3], OrderedLead);
    FilterSingle([i, 0], OrderedLead);
    FilterSingle([i, 1], OrderedLead);
    FilterSingle([i, 2], OrderedLead);
    FilterSingle([i, 3], OrderedLead);
    PairFilters(i, 0);
    PairFilters(i, 1);
    PairFilters(i, 2);
    PairFilters(i, 3);
  }

  lemma OrderedRowsOfFourLow(m: nat)
    requires m == 4
    ensures Filter(Row(m, 0), OrderedLead) == [[0, 0], [0, 1], [0, 2], [0, 3]]
    ensures Filter(Row(m, 1), OrderedLead) == [[1, 1], [1, 2], [1, 3]]
  {
    OrderedRowOfFour(m, 0);
    OrderedRowOfFour(m, 1);
  }

  lemma OrderedRowsOfFourHigh(m: nat)
    requires m == 4
    ensures Filter(Row(m, 2), OrderedLead) == [[2, 2], [2, 3]]
    ensures Filter(Row(m, 3), OrderedLead) == [[3, 3]]
  {
    OrderedRowOfFour(m, 2);
    OrderedRowOfFour(m, 3);
  }

  /** Proof step for `OrderedPairsOfFour`: joins the four literal rows,
      apart from the `Filter` terms. */
  lemma ReplacementRowsJoin(whole: seq<seq<nat>>, a: seq<seq<nat>>, b: seq<seq<nat>>, c: seq<seq<nat>>, d: seq<seq<nat>>)
    requires whole == a + b + c + d
    requires a == [[0, 0], [0, 1], [0, 2], [0, 3]] && b == [[1, 1], [1, 2], [1, 3]]
    requires c == [[2, 2], [2, 3]] && d == [[3, 3]]
    ensures whole == [[0, 0], [0, 1], [0, 2], [0, 3], [1, 1], [1, 2], [1, 3], [2, 2], [2, 3], [3, 3]]
  {
  }

  lemma OrderedPairsOfFour(m: nat)
    requires m == 4
    ensures Filter(IndexProduct(m, 2), OrderedLead) ==
      [[0, 0], [0, 1], [0, 2], [0, 3], [1, 1], [1, 2], [1, 3], [2, 2], [2, 3], [3, 3]]
  {
    IndexPairsOfFour(m);
    FilterFourBlocks(Row(m, 0), Row(m, 1), Row(m, 2), Row(m, 3), OrderedLead);
    OrderedRowsOfFourLow(m);
    OrderedRowsOfFourHigh(m);
    ReplacementRowsJoin(Filter(IndexProduct(m, 2), OrderedLead),
      Filter(Row(m, 0), OrderedLead), Filter(Row(m, 1), OrderedLead),
      Filter(Row(m, 2), OrderedLead), Filter(Row(m, 3), OrderedLead));
  }

  /** `combinations_with_replacement([0,1,2,3], 2)`: the ten pairs `i <= j`. */
  lemma ReplacementIndicesOfFour(m: nat)
    requires m == 4
    ensures ReplacementIndices(m, 2) ==
      [[0, 0], [0, 1], [0, 2], [0, 3], [1, 1], [1, 2], [1, 3], [2, 2], [2, 3], [3, 3]]
  {
    OrderedPairsOfFour(m);
  }

  lemma CombinationsWithReplacementOfFour<T>(xs: seq<T>)
    requires |xs| == 4
    ensures CombinationsWithReplacement(xs, 2) ==
      [[xs[0], xs[0]], [xs[0], xs[1]], [xs[0], xs[2]], [xs[0], xs[3]], [xs[1], xs[1]],
       [xs[1], xs[2]], [xs[1], xs[3]], [xs[2], xs[2]], [xs[2], xs[3]], [xs[3], xs[3]]]
  {
    ReplacementIndicesOfFourAt(|xs|);
    PickReplacementsOfFour(xs, ReplacementIndices(|xs|, 2));
  }

  lemma ReplacementIndicesOfFourAt(m: nat)
    requires m == 4
    ensures var ts := ReplacementIndices(m, 2);
      |ts| == 10 && ts[0] == [0, 0] && ts[1] == [0, 1] && ts[2] == [0, 2] && ts[3] == [0, 3] &&
      ts[4] == [1, 1] && ts[5] == [1, 2] && ts[6] == [1, 3] && ts[7] == [2, 2] && ts[8] == [2, 3] &&
      ts[9] == [3, 3]
  {
    ReplacementIndicesOfFour(m);
    ReplacementPairsAt(ReplacementIndices(m, 2));
  }

  lemma ReplacementPairsAt(ts: seq<seq<nat>>)
    requires ts == [[0, 0], [0, 1], [0, 2], [0, 3], [1, 1], [1, 2], [1, 3], [2, 2], [2, 3], [3, 3]]
    ensures |ts| == 10 && ts[0] == [0, 0] && ts[1] == [0, 1] && ts[2] == [0, 2] && ts[3] == [0, 3] &&
      ts[4] == [1, 1] && ts[5] == [1, 2] && ts[6] == [1, 3] && ts[7] == [2, 2] && ts[8] == [2, 3] &&
      ts[9] == [3, 3]
  {
  }

  lemma PickReplacementsOfFour<T>(xs: seq<T>, ts: seq<seq<nat>>)
    requires |xs| == 4 && InRange(|xs|, ts) && |ts| == 10
    requires ts[0] == [0, 0] && ts[1] == [0, 1] && ts[2] == [0, 2] && ts[3] == [0, 3] && ts[4] == [1, 1]
    requires ts[5] == [1, 2] && ts[6] == [1, 3] && ts[7] == [2, 2] && ts[8] == [2, 3] && ts[9] == [3, 3]
    ensures PickAll(xs, ts) ==
      [[xs[0], xs[0]], [xs[0], xs[1]], [xs[0], xs[2]], [xs[0], xs[3]], [xs[1], xs[1]],
       [xs[1], xs[2]], [xs[1], xs[3]], [xs[2], xs[2]], [xs[2], xs[3]], [xs[3], xs[3]]]
  {
    var r := PickAll(xs, ts);
    assert r[0] == [xs[0], xs[0]] by { PickPairAt(xs, ts, 0); }
    assert r[1] == [xs[0], xs[1]] by { PickPairAt(xs, ts, 1); }
    assert r[2] == [xs[0], xs[2]] by { PickPairAt(xs, ts, 2); }
    assert r[3] == [xs[0], xs[3]] by { PickPairAt(xs, ts, 3); }
    assert r[4] == [xs[1], xs[1]] by { PickPairAt(xs, ts, 4); }
    assert r[5] == [xs[1], xs[2]] by { PickPairAt(xs, ts, 5); }
    assert r[6] == [xs[1], xs[3]] by { PickPairAt(xs, ts, 6); }
    assert r[7] == [xs[2], xs[2]] by { PickPairAt(xs, ts, 7); }
    assert r[8] == [xs[2], xs[3]] by { PickPairAt(xs, ts, 8); }
    assert r[9] == [xs[3], xs[3]] by { PickPairAt(xs, ts, 9); }
  }

  // ---------------------------------------------------------------------------
  // combinations as written
  // ---------------------------------------------------------------------------

  /** As written, `combinations([0,1,2,3], 2)` throws where its doc comment
      promises the six pairs; the corrected definition returns them. */
  lemma CombinationsUnboundLodash()
    ensures CombinationsAsWritten([0, 1, 2, 3], 2) == Failure(ReferenceError("_"))
    ensures Combinations([0, 1, 2, 3], 2) == [[0, 1], [0, 2], [0, 3], [1, 2], [1, 3], [2, 3]]
  {
    CombinationsOfFour([0, 1, 2, 3]);
  }
}
