/** The itertools-style combinatorics of `scripts/permutations.js`: the cartesian
    product in odometer order, and permutations, combinations and combinations
    with replacement, each obtained by filtering a product of index keys. */
module Combinatorics {

  import opened Wrappers
  import opened Seqs
  import opened JsStrings

  // ---------------------------------------------------------------------------
  // Cartesian product
  // ---------------------------------------------------------------------------

  /** `_map(b, y => _concat(x, [y]))`: the partial tuple `x` extended by each element of `b`. */
  function Appended<T>(x: seq<T>, b: seq<T>): (r: seq<seq<T>>)
    ensures |r| == |b|
    ensures forall j :: 0 <= j < |b| ==> r[j] == x + [b[j]]
  {
    seq(|b|, j requires 0 <= j < |b| => x + [b[j]])
  }

  /** One step of the reduction in `_cartesianProductOf`: every partial tuple of
      `acc`, in order, extended by every element of `b`, in order, flattened. */
  function Extend<T>(acc: seq<seq<T>>, b: seq<T>): seq<seq<T>>
  {
    Flatten(seq(|acc|, i requires 0 <= i < |acc| => Appended(acc[i], b)))
  }

  lemma ExtendCons<T>(acc: seq<seq<T>>, b: seq<T>)
    requires |acc| > 0
    ensures Extend(acc, b) == Appended(acc[0], b) + Extend(acc[1..], b)
  {
    var rows := seq(|acc|, i requires 0 <= i < |acc| => Appended(acc[i], b));
    assert rows[1..] == seq(|acc| - 1, i requires 0 <= i < |acc| - 1 => Appended(acc[1..][i], b));
  }

  lemma {:induction false} ExtendLength<T>(acc: seq<seq<T>>, b: seq<T>)
    ensures |Extend(acc, b)| == |acc| * |b|
  {
    if |acc| > 0 {
      ExtendCons(acc, b);
      ExtendLength(acc[1..], b);
      assert |acc| * |b| == |b| + (|acc| - 1) * |b|;
    }
  }

  /** Row `i` of the step occupies positions `i*|b| .. i*|b|+|b|`: the last
      sequence varies fastest. */
  lemma {:induction false} ExtendIndex<T>(acc: seq<seq<T>>, b: seq<T>, i: nat, j: nat)
    requires i < |acc| && j < |b|
    ensures i * |b| + j < |Extend(acc, b)|
    ensures Extend(acc, b)[i * |b| + j] == acc[i] + [b[j]]
  {
    ExtendCons(acc, b);
    ExtendLength(acc, b);
    ExtendLength(acc[1..], b);
    MulBound(i, j, |acc|, |b|);
    if i > 0 {
      ExtendIndex(acc[1..], b, i - 1, j);
      assert i * |b| + j == |b| + ((i - 1) * |b| + j);
    }
  }

  lemma MulBound(a: nat, j: nat, n: nat, w: nat)
    requires a < n && j < w
    ensures a * w + j < n * w
  {
    assert a * w + j < a * w + w == (a + 1) * w <= n * w;
  }

  lemma {:induction false} ExtendMember<T>(acc: seq<seq<T>>, b: seq<T>, t: seq<T>)
    ensures t in Extend(acc, b) <==> |t| > 0 && t[..|t| - 1] in acc && t[|t| - 1] in b
  {
    if |acc| > 0 {
      ExtendCons(acc, b);
      ExtendMember(acc[1..], b, t);
      var row := Appended(acc[0], b);
      if t in row {
        var j :| 0 <= j < |b| && row[j] == t;
        assert t[..|t| - 1] == acc[0];
      }
      if |t| > 0 && t[..|t| - 1] == acc[0] && t[|t| - 1] in b {
        var j :| 0 <= j < |b| && b[j] == t[|t| - 1];
        assert t == acc[0] + [b[j]] == row[j];
      }
      if |t| > 0 {
        assert t[..|t| - 1] in acc <==> t[..|t| - 1] == acc[0] || t[..|t| - 1] in acc[1..] by {
          assert acc == [acc[0]] + acc[1..];
        }
      }
    }
  }

  /** The number of tuples promised by a product: the product of the lengths. */
  function Size<T>(args: seq<seq<T>>): nat
  {
    if |args| == 0 then 1 else Size(args[..|args| - 1]) * |args[|args| - 1]|
  }

  /** `_cartesianProductOf(args)`: `_reduce` over the argument sequences starting
      from `[[]]`, each step extending every partial tuple by every element of the
      next sequence. */
  function ProductOf<T>(args: seq<seq<T>>): (r: seq<seq<T>>)
    ensures |r| == Size(args)
    ensures forall i :: 0 <= i < |r| ==> |r[i]| == |args|
  {
    if |args| == 0 then [[]]
    else
      var init := ProductOf(args[..|args| - 1]);
      var last := args[|args| - 1];
      ExtendLength(init, last);
      ExtendTupleLengths(init, last, |args| - 1);
      Extend(init, last)
  }

  lemma ExtendTupleLengths<T>(acc: seq<seq<T>>, b: seq<T>, n: nat)
    requires forall i :: 0 <= i < |acc| ==> |acc[i]| == n
    ensures forall i :: 0 <= i < |Extend(acc, b)| ==> |Extend(acc, b)[i]| == n + 1
  {
    forall i | 0 <= i < |Extend(acc, b)|
      ensures |Extend(acc, b)[i]| == n + 1
    {
      var t := Extend(acc, b)[i];
      ExtendMember(acc, b, t);
    }
  }

  /** A tuple is in the product exactly when it has one entry per argument and
      its `i`-th entry comes from argument `i`. */
  lemma {:induction false} ProductMember<T>(args: seq<seq<T>>, t: seq<T>)
    ensures t in ProductOf(args) <==> |t| == |args| && forall i :: 0 <= i < |t| ==> t[i] in args[i]
  {
    if |args| > 0 {
      var init := args[..|args| - 1];
      var last := args[|args| - 1];
      ExtendMember(ProductOf(init), last, t);
      if |t| > 0 {
        ProductMember(init, t[..|t| - 1]);
        if |t| == |args| && forall i :: 0 <= i < |t| ==> t[i] in args[i] {
          assert forall i :: 0 <= i < |t| - 1 ==> t[..|t| - 1][i] in init[i];
        }
        if t[..|t| - 1] in ProductOf(init) && t[|t| - 1] in last {
          assert forall i :: 0 <= i < |t| - 1 ==> t[i] == t[..|t| - 1][i];
        }
      }
    }
  }

  /** Extending distinct partial tuples by distinct elements gives distinct tuples. */
  lemma {:induction false} ExtendNoDuplicates<T>(acc: seq<seq<T>>, b: seq<T>)
    requires NoDuplicates(acc) && NoDuplicates(b)
    ensures NoDuplicates(Extend(acc, b))
  {
    if |acc| > 0 {
      ExtendCons(acc, b);
      assert NoDuplicates(acc[1..]);
      ExtendNoDuplicates(acc[1..], b);
      var row := Appended(acc[0], b);
      forall i, j | 0 <= i < j < |row|
        ensures row[i] != row[j]
      {
        assert row[i][|acc[0]|] == b[i] && row[j][|acc[0]|] == b[j];
      }
      forall t | t in row
        ensures t !in Extend(acc[1..], b)
      {
        var j :| 0 <= j < |b| && t == row[j];
        assert t[..|t| - 1] == acc[0];
        ExtendMember(acc[1..], b, t);
      }
      NoDuplicatesAppend(row, Extend(acc[1..], b));
    }
  }

  /** The product of duplicate-free sequences lists no tuple twice. */
  lemma {:induction false} ProductNoDuplicates<T>(args: seq<seq<T>>)
    requires forall i :: 0 <= i < |args| ==> NoDuplicates(args[i])
    ensures NoDuplicates(ProductOf(args))
  {
    if |args| > 0 {
      ProductNoDuplicates(args[..|args| - 1]);
      ExtendNoDuplicates(ProductOf(args[..|args| - 1]), args[|args| - 1]);
    }
  }

  /** Odometer position of the tuple choosing element `ix[i]` of argument `i`:
      `ix` read as a mixed-radix numeral whose last digit is least significant. */
  function Rank<T>(args: seq<seq<T>>, ix: seq<nat>): nat
    requires |ix| == |args|
  {
    if |args| == 0 then 0
    else Rank(args[..|args| - 1], ix[..|ix| - 1]) * |args[|args| - 1]| + ix[|ix| - 1]
  }

  ghost predicate ValidChoice<T>(args: seq<seq<T>>, ix: seq<nat>)
  {
    |ix| == |args| && forall i :: 0 <= i < |ix| ==> ix[i] < |args[i]|
  }

  function Select<T>(args: seq<seq<T>>, ix: seq<nat>): seq<T>
    requires ValidChoice(args, ix)
  {
    seq(|ix|, i requires 0 <= i < |ix| => args[i][ix[i]])
  }

  /** Odometer order: the tuple choosing `ix` sits at position `Rank(args, ix)`,
      so the tuples are listed by their index choices in lexicographic order, the
      last argument varying fastest. */
  lemma {:induction false} ProductAtRank<T>(args: seq<seq<T>>, ix: seq<nat>)
    requires ValidChoice(args, ix)
    ensures Rank(args, ix) < |ProductOf(args)|
    ensures ProductOf(args)[Rank(args, ix)] == Select(args, ix)
  {
    if |args| > 0 {
      var init, last := args[..|args| - 1], args[|args| - 1];
      var ixInit, j := ix[..|ix| - 1], ix[|ix| - 1];
      assert ValidChoice(init, ixInit);
      ProductAtRank(init, ixInit);
      var p := ProductOf(init);
      ExtendIndex(p, last, Rank(init, ixInit), j);
      assert Select(args, ix) == Select(init, ixInit) + [last[j]];
    }
  }

  /** `_zipObject(keys, values)`, kept as an ordered list of entries. */
  function Zip<T>(keys: seq<string>, values: seq<T>): (r: seq<(string, T)>)
    requires |keys| == |values|
    ensures |r| == |keys|
    ensures forall k :: 0 <= k < |keys| ==> r[k] == (keys[k], values[k])
  {
    seq(|keys|, k requires 0 <= k < |keys| => (keys[k], values[k]))
  }

  function FieldNames<T>(fields: seq<(string, seq<T>)>): (r: seq<string>)
    ensures |r| == |fields|
  {
    seq(|fields|, k requires 0 <= k < |fields| => fields[k].0)
  }

  function FieldValues<T>(fields: seq<(string, seq<T>)>): (r: seq<seq<T>>)
    ensures |r| == |fields|
  {
    seq(|fields|, k requires 0 <= k < |fields| => fields[k].1)
  }

  /** `_cartesianProductObj(optObj)`: the product of the object's value lists,
      each tuple zipped back onto the object's keys (listed in enumeration order). */
  function ProductNamed<T>(fields: seq<(string, seq<T>)>): (r: seq<seq<(string, T)>>)
    ensures |r| == |ProductOf(FieldValues(fields))|
  {
    var combs := ProductOf(FieldValues(fields));
    seq(|combs|, i requires 0 <= i < |combs| => Zip(FieldNames(fields), combs[i]))
  }

  /** The call shapes `product` accepts: several arrays or strings (or one array
      of them), or one object whose values are arrays. A string argument is
      taken as its sequence of Dafny characters (Unicode scalar values); lodash's
      `_toArray` agrees on ASCII text but groups combining marks, emoji
      sequences and flag pairs into one element. */
  datatype ProductInput<T> =
    | Positional(lists: seq<seq<T>>)
    | Named(fields: seq<(string, seq<T>)>)

  datatype Arrangement<T> =
    | Tuple(items: seq<T>)
    | Record(entries: seq<(string, T)>)

  /** `product(...)`: dispatches on the call shape. */
  function Product<T>(input: ProductInput<T>): (r: seq<Arrangement<T>>)
    ensures input.Positional? ==> |r| == Size(input.lists) && forall i :: 0 <= i < |r| ==> r[i].Tuple?
    ensures input.Named? ==> |r| == Size(FieldValues(input.fields)) && forall i :: 0 <= i < |r| ==> r[i].Record?
  {
    match input
    case Positional(lists) =>
      var tuples := ProductOf(lists);
      seq(|tuples|, i requires 0 <= i < |tuples| => Tuple(tuples[i]))
    case Named(fields) =>
      var records := ProductNamed(fields);
      seq(|records|, i requires 0 <= i < |records| => Record(records[i]))
  }

  /** The named form lists the same tuples, in the same order, as the positional
      form applied to the object's values: record `i` carries the object's keys
      and the values of positional tuple `i`. */
  lemma NamedAgreesWithPositional<T>(fields: seq<(string, seq<T>)>)
    ensures var named := Product(Named(fields));
            var positional := Product(Positional(FieldValues(fields)));
            |named| == |positional| &&
            forall i :: 0 <= i < |named| ==>
              |named[i].entries| == |fields| &&
              forall k :: 0 <= k < |fields| ==>
                named[i].entries[k].0 == fields[k].0 &&
                named[i].entries[k].1 == positional[i].items[k]
  {
  }

  // ---------------------------------------------------------------------------
  // Index keys and the filters on them
  // ---------------------------------------------------------------------------

  /** `_keys(obj)` of an array of length `m`: indices `0 .. m-1`. The source holds
      them as decimal strings; here they are numbers, and every comparison the
      source makes on them is made on `Decimal(i)`. */
  function Keys(m: nat): (r: seq<nat>)
    ensures |r| == m
    ensures forall i :: 0 <= i < m ==> r[i] == i
  {
    seq(m, i requires 0 <= i < m => i)
  }

  lemma KeysMember(m: nat, x: nat)
    ensures x in Keys(m) <==> x < m
  {
    if x < m {
      assert Keys(m)[x] == x;
    }
  }

  /** `n = n ? n : obj.length`: an omitted or zero arity means the input length. */
  function Arity(len: nat, n: int): int
  {
    if n != 0 then n else len
  }

  /** The `for` loop pushing `_keys(obj)` onto `nInds` once per `j < n`
      (no pushes at all when `n` is negative). */
  function KeyCopies(m: nat, k: int): (r: seq<seq<nat>>)
    ensures |r| == if k > 0 then k else 0
    ensures forall i :: 0 <= i < |r| ==> r[i] == Keys(m)
  {
    seq(if k > 0 then k else 0, _ => Keys(m))
  }

  /** `product(nInds)`: every tuple of `k` indices below `m`, in odometer order. */
  function IndexProduct(m: nat, k: int): seq<seq<nat>>
  {
    ProductOf(KeyCopies(m, k))
  }

  lemma IndexProductMember(m: nat, k: int, t: seq<nat>)
    ensures t in IndexProduct(m, k) <==>
      |t| == (if k > 0 then k else 0) && forall i :: 0 <= i < |t| ==> t[i] < m
  {
    ProductMember(KeyCopies(m, k), t);
    forall i | 0 <= i < |t| {
      KeysMember(m, t[i]);
    }
  }

  lemma IndexProductBounded(m: nat, k: int)
    ensures forall t :: t in IndexProduct(m, k) ==> forall i :: 0 <= i < |t| ==> t[i] < m
  {
    forall t | t in IndexProduct(m, k) {
      IndexProductMember(m, k, t);
    }
  }

  lemma IndexProductStep(m: nat, k: int)
    requires k >= 1
    ensures IndexProduct(m, k) == Extend(IndexProduct(m, k - 1), Keys(m))
  {
    assert KeyCopies(m, k)[..k - 1] == KeyCopies(m, k - 1);
  }

  function Pow(m: nat, k: nat): nat
  {
    if k == 0 then 1 else m * Pow(m, k - 1)
  }

  lemma {:induction false} IndexProductSize(m: nat, k: nat)
    ensures |IndexProduct(m, k)| == Pow(m, k)
  {
    if k > 0 {
      var prev := IndexProduct(m, k - 1);
      IndexProductStep(m, k);
      IndexProductSize(m, k - 1);
      ExtendLength(prev, Keys(m));
      assert |IndexProduct(m, k)| == |prev| * m;
      assert Pow(m, k) == m * Pow(m, k - 1);
    }
  }

  /** `pair[i]` on an index tuple: the key string, or `undefined` past the end. */
  function KeyAt(t: seq<nat>, i: nat): Option<string>
  {
    if i < |t| then Some(Decimal(t[i])) else None
  }

  /** The `permutations` filter `pair => pair[0] !== pair[1]`. */
  predicate DistinctLead(t: seq<nat>)
  {
    KeyAt(t, 0) != KeyAt(t, 1)
  }

  /** The `combinations_with_replacement` filter `pair => pair[0] <= pair[1]`; a
      comparison with `undefined` is false. */
  predicate OrderedLead(t: seq<nat>)
  {
    match (KeyAt(t, 0), KeyAt(t, 1))
    case (Some(a), Some(b)) => LessOrEqual(a, b)
    case _ => false
  }

  /** `isSorted` in `combinations`: every key is `<=` its successor as strings. */
  predicate KeysSorted(t: seq<nat>)
  {
    forall i :: 0 < i < |t| ==> LessOrEqual(Decimal(t[i - 1]), Decimal(t[i]))
  }

  /** Only the first two positions are guarded: a one-tuple passes (its second
      key is `undefined`), an empty tuple does not, and beyond that the two leading
      indices must differ. */
  lemma DistinctLeadMeaning(t: seq<nat>)
    ensures DistinctLead(t) <==> |t| == 1 || (|t| >= 2 && t[0] != t[1])
  {
    if |t| >= 2 {
      DecimalInjective(t[0], t[1]);
    }
  }

  /** `_map(indices, i => obj[i])`. */
  function Pick<T>(xs: seq<T>, idx: seq<nat>): (r: seq<T>)
    requires forall i :: 0 <= i < |idx| ==> idx[i] < |xs|
    ensures |r| == |idx|
    ensures forall i :: 0 <= i < |idx| ==> r[i] == xs[idx[i]]
  {
    seq(|idx|, i requires 0 <= i < |idx| => xs[idx[i]])
  }

  ghost predicate InRange(m: nat, ts: seq<seq<nat>>)
  {
    forall t :: t in ts ==> forall i :: 0 <= i < |t| ==> t[i] < m
  }

  /** `_map(arrangements, indices => _map(indices, i => obj[i]))`. */
  function PickAll<T>(xs: seq<T>, ts: seq<seq<nat>>): (r: seq<seq<T>>)
    requires InRange(|xs|, ts)
    ensures |r| == |ts|
    ensures forall k :: 0 <= k < |ts| ==> r[k] == Pick(xs, ts[k])
  {
    seq(|ts|, k requires 0 <= k < |ts| => Pick(xs, ts[k]))
  }

  lemma PickAllMember<T>(xs: seq<T>, ts: seq<seq<nat>>, t: seq<nat>)
    requires InRange(|xs|, ts)
    requires t in ts
    ensures Pick(xs, t) in PickAll(xs, ts)
  {
    var k :| 0 <= k < |ts| && ts[k] == t;
    assert PickAll(xs, ts)[k] == Pick(xs, t);
  }

  lemma FilterInRange(m: nat, ts: seq<seq<nat>>, p: seq<nat> -> bool)
    requires InRange(m, ts)
    ensures InRange(m, Filter(ts, p))
  {
    forall t | t in Filter(ts, p) {
      FilterMember(ts, p, t);
    }
  }

  // ---------------------------------------------------------------------------
  // permutations
  // ---------------------------------------------------------------------------

  /** The index tuples `permutations` keeps. */
  function PermutationIndices(m: nat, n: int): (r: seq<seq<nat>>)
    ensures InRange(m, r)
  {
    IndexProductBounded(m, Arity(m, n));
    FilterInRange(m, IndexProduct(m, Arity(m, n)), DistinctLead);
    Filter(IndexProduct(m, Arity(m, n)), DistinctLead)
  }

  /** `permutations(obj, n)`: the `n`-fold product of the index keys, keeping the
      tuples whose first two keys differ, mapped back to values. */
  function Permutations<T>(xs: seq<T>, n: int): (r: seq<seq<T>>)
    ensures |r| == |PermutationIndices(|xs|, n)|
    ensures var ts := PermutationIndices(|xs|, n);
      forall k :: 0 <= k < |r| ==>
        |r[k]| == |ts[k]| && forall i :: 0 <= i < |r[k]| ==> ts[k][i] < |xs| && r[k][i] == xs[ts[k][i]]
  {
    PickAll(xs, PermutationIndices(|xs|, n))
  }

  /** An index tuple is kept exactly when it has the default-resolved length,
      every index is in range, and its first two indices differ (a lone index is
      kept; nothing at all is kept when that length is zero or negative). */
  lemma PermutationIndicesMember(m: nat, n: int, t: seq<nat>)
    ensures t in PermutationIndices(m, n) <==>
      var k := Arity(m, n);
      |t| == (if k > 0 then k else 0) && (forall i :: 0 <= i < |t| ==> t[i] < m) &&
      (|t| == 1 || (|t| >= 2 && t[0] != t[1]))
  {
    FilterMember(IndexProduct(m, Arity(m, n)), DistinctLead, t);
    IndexProductMember(m, Arity(m, n), t);
    DistinctLeadMeaning(t);
  }

  lemma FilterAppendedLead(x: seq<nat>, b: seq<nat>)
    requires |x| >= 2
    ensures Filter(Appended(x, b), DistinctLead) == if DistinctLead(x) then Appended(x, b) else []
  {
    var row := Appended(x, b);
    forall j | 0 <= j < |b|
      ensures DistinctLead(row[j]) == DistinctLead(x)
    {
      assert KeyAt(row[j], 0) == KeyAt(x, 0) && KeyAt(row[j], 1) == KeyAt(x, 1);
    }
    if DistinctLead(x) {
      FilterAll(row, DistinctLead);
    } else {
      FilterNone(row, DistinctLead);
    }
  }

  /** Past the second position the guard never looks: extending tuples of length
      at least two multiplies the kept count by the width of the extension. */
  lemma {:induction false} FilterExtendCount(acc: seq<seq<nat>>, b: seq<nat>)
    requires forall i :: 0 <= i < |acc| ==> |acc[i]| >= 2
    ensures |Filter(Extend(acc, b), DistinctLead)| == |Filter(acc, DistinctLead)| * |b|
  {
    if |acc| > 0 {
      ExtendCons(acc, b);
      FilterAppend(Appended(acc[0], b), Extend(acc[1..], b), DistinctLead);
      FilterAppendedLead(acc[0], b);
      FilterExtendCount(acc[1..], b);
      var keep := if DistinctLead(acc[0]) then 1 else 0;
      assert |Filter(acc, DistinctLead)| == keep + |Filter(acc[1..], DistinctLead)|;
      assert (keep + |Filter(acc[1..], DistinctLead)|) * |b|
          == keep * |b| + |Filter(acc[1..], DistinctLead)| * |b|;
    }
  }

  lemma {:induction false} RowCount(a: nat, m: nat)
    ensures |Filter(Appended([a], Keys(m)), DistinctLead)| == if a < m then m - 1 else m
  {
    if m > 0 {
      var head: seq<nat> := [a];
      var last: seq<nat> := [a, m - 1];
      var rowPrev := Appended(head, Keys(m - 1));
      assert Appended(head, Keys(m)) == rowPrev + [last] by {
        forall j | 0 <= j < m - 1
          ensures Appended(head, Keys(m))[j] == rowPrev[j]
        {
        }
        assert Appended(head, Keys(m))[m - 1] == head + [m - 1] == last;
      }
      FilterAppend(rowPrev, [last], DistinctLead);
      RowCount(a, m - 1);
      DistinctLeadMeaning(last);
    }
  }

  lemma {:induction false} SingletonsCount(acc: seq<seq<nat>>, m: nat)
    requires forall i :: 0 <= i < |acc| ==> |acc[i]| == 1 && acc[i][0] < m
    ensures |Filter(Extend(acc, Keys(m)), DistinctLead)| == |acc| * (m - 1)
  {
    if |acc| > 0 {
      ExtendCons(acc, Keys(m));
      FilterAppend(Appended(acc[0], Keys(m)), Extend(acc[1..], Keys(m)), DistinctLead);
      assert acc[0] == [acc[0][0]];
      RowCount(acc[0][0], m);
      SingletonsCount(acc[1..], m);
      assert |acc| * (m - 1) == (m - 1) + (|acc| - 1) * (m - 1);
    }
  }

  lemma PermutationPairCount(m: nat)
    ensures |Filter(IndexProduct(m, 2), DistinctLead)| == m * m - m
  {
    var prev := IndexProduct(m, 1);
    IndexProductStep(m, 2);
    forall i | 0 <= i < |prev|
      ensures |prev[i]| == 1 && prev[i][0] < m
    {
      IndexProductMember(m, 1, prev[i]);
    }
    IndexProductSize(m, 1);
    SingletonsCount(prev, m);
    assert m * (m - 1) == m * m - m;
  }

  lemma PermutationStepCount(m: nat, k: nat)
    requires k >= 3
    ensures |Filter(IndexProduct(m, k), DistinctLead)| == |Filter(IndexProduct(m, k - 1), DistinctLead)| * m
  {
    var prev := IndexProduct(m, k - 1);
    IndexProductStep(m, k);
    forall i | 0 <= i < |prev|
      ensures |prev[i]| >= 2
    {
      IndexProductMember(m, k - 1, prev[i]);
    }
    FilterExtendCount(prev, Keys(m));
  }

  lemma {:induction false} PermutationIndexCount(m: nat, k: nat)
    requires k >= 2
    ensures |Filter(IndexProduct(m, k), DistinctLead)| == Pow(m, k) - Pow(m, k - 1)
  {
    if k == 2 {
      PermutationPairCount(m);
      assert Pow(m, 2) == m * m && Pow(m, 1) == m;
    } else {
      var here := |Filter(IndexProduct(m, k), DistinctLead)|;
      var before := |Filter(IndexProduct(m, k - 1), DistinctLead)|;
      PermutationStepCount(m, k);
      assert here == before * m;
      PermutationIndexCount(m, k - 1);
      assert before == Pow(m, k - 1) - Pow(m, k - 2);
      PowStep(m, k);
    }
  }

  lemma PowStep(m: nat, k: nat)
    requires k >= 2
    ensures (Pow(m, k - 1) - Pow(m, k - 2)) * m == Pow(m, k) - Pow(m, k - 1)
  {
    var a, b := Pow(m, k - 1), Pow(m, k - 2);
    assert Pow(m, k) == m * a && a == m * b;
    assert (a - b) * m == m * a - m * b;
  }

  /** How many arrangements `permutations` returns: none for a non-positive
      arity, one per element for arity one, and `m^k - m^(k-1)` from arity two on
      (every `k`-tuple except those repeating the first index in second place). */
  lemma PermutationsCount<T>(xs: seq<T>, n: int)
    ensures var m, k := |xs|, Arity(|xs|, n);
            |Permutations(xs, n)| ==
              if k <= 0 then 0
              else if k == 1 then m
              else Pow(m, k) - Pow(m, k - 1)
  {
    var m, k := |xs|, Arity(|xs|, n);
    if k <= 0 {
      assert IndexProduct(m, k) == [[]];
      assert !DistinctLead([]);
    } else if k == 1 {
      var ts := IndexProduct(m, 1);
      forall i | 0 <= i < |ts|
        ensures DistinctLead(ts[i])
      {
        IndexProductMember(m, 1, ts[i]);
      }
      FilterAll(ts, DistinctLead);
      IndexProductSize(m, 1);
    } else {
      PermutationIndexCount(m, k);
    }
  }

  /** Only positions 0 and 1 are guarded: from arity three on an index may
      repeat further along, so `permutations('cat', 3)` contains `"cac"`. */
  lemma PermutationsRepeatPastLead<T>(xs: seq<T>)
    requires |xs| >= 2
    ensures [xs[0], xs[1], xs[0]] in Permutations(xs, 3)
  {
    var t: seq<nat> := [0, 1, 0];
    var v := [xs[0], xs[1], xs[0]];
    assert Pick(xs, t) == v;
    var ts := PermutationIndices(|xs|, 3);
    assert t in ts by {
      PermutationIndicesMember(|xs|, 3, t);
    }
    PickAllMember(xs, ts, t);
  }

  // ---------------------------------------------------------------------------
  // combinations_with_replacement
  // ---------------------------------------------------------------------------

  /** The index tuples `combinations_with_replacement` keeps. */
  function ReplacementIndices(m: nat, n: int): (r: seq<seq<nat>>)
    ensures InRange(m, r)
  {
    IndexProductBounded(m, Arity(m, n));
    FilterInRange(m, IndexProduct(m, Arity(m, n)), OrderedLead);
    Filter(IndexProduct(m, Arity(m, n)), OrderedLead)
  }

  /** `combinations_with_replacement(obj, n)`: the `n`-fold index product, keeping
      the tuples whose first key is `<=` the second as strings, mapped to values. */
  function CombinationsWithReplacement<T>(xs: seq<T>, n: int): (r: seq<seq<T>>)
    ensures |r| == |ReplacementIndices(|xs|, n)|
    ensures var ts := ReplacementIndices(|xs|, n);
      forall k :: 0 <= k < |r| ==>
        |r[k]| == |ts[k]| && forall i :: 0 <= i < |r[k]| ==> ts[k][i] < |xs| && r[k][i] == xs[ts[k][i]]
  {
    PickAll(xs, ReplacementIndices(|xs|, n))
  }

  /** A tuple is kept exactly when it has the resolved length, at least two
      positions, every index in range, and the first two keys in string order. */
  lemma ReplacementIndicesMember(m: nat, n: int, t: seq<nat>)
    ensures t in ReplacementIndices(m, n) <==>
      var k := Arity(m, n);
      |t| == (if k > 0 then k else 0) && (forall i :: 0 <= i < |t| ==> t[i] < m) &&
      |t| >= 2 && LessOrEqual(Decimal(t[0]), Decimal(t[1]))
  {
    FilterMember(IndexProduct(m, Arity(m, n)), OrderedLead, t);
    IndexProductMember(m, Arity(m, n), t);
  }

  /** Pairs are kept exactly when both indices are in range and the first key is
      `<=` the second as strings. */
  lemma ReplacementPairKeys(m: nat, t: seq<nat>)
    ensures t in ReplacementIndices(m, 2) <==>
      |t| == 2 && t[0] < m && t[1] < m && LessOrEqual(Decimal(t[0]), Decimal(t[1]))
  {
    ReplacementIndicesMember(m, 2, t);
    assert Arity(m, 2) == 2;
    if |t| == 2 {
      assert (forall i :: 0 <= i < |t| ==> t[i] < m) <==> t[0] < m && t[1] < m;
    }
  }

  /** For inputs of at most ten elements the string order is the numeric order:
      pairs are kept exactly when the first index is at most the second. */
  lemma ReplacementPairs(m: nat, t: seq<nat>)
    requires m <= 10
    ensures t in ReplacementIndices(m, 2) <==> |t| == 2 && t[0] <= t[1] < m
  {
    ReplacementPairKeys(m, t);
    if |t| == 2 && t[0] < m && t[1] < m {
      DigitKeyOrder(t[0], t[1]);
    }
  }

  /** Arity one keeps nothing: `pair[1]` is `undefined` and `key <= undefined` is false. */
  lemma ReplacementArityOne<T>(xs: seq<T>)
    ensures CombinationsWithReplacement(xs, 1) == []
  {
    var ts := ReplacementIndices(|xs|, 1);
    if |ts| > 0 {
      ReplacementIndicesMember(|xs|, 1, ts[0]);
    }
  }

  // ---------------------------------------------------------------------------
  // combinations
  // ---------------------------------------------------------------------------

  /** `permutations` applied to the key array itself returns index tuples. */
  lemma PermutationsOfKeys(m: nat, n: int)
    ensures Permutations(Keys(m), n) == PermutationIndices(m, n)
  {
    var ts := PermutationIndices(m, n);
    forall k | 0 <= k < |ts|
      ensures Permutations(Keys(m), n)[k] == ts[k]
    {
      assert ts[k] in ts;
    }
  }

  /** The index tuples `combinations` keeps: the permutations of the key array
      whose keys are in non-decreasing string order. */
  function CombinationIndices(m: nat, n: int): (r: seq<seq<nat>>)
    ensures InRange(m, r)
  {
    PermutationsOfKeys(m, n);
    FilterInRange(m, Permutations(Keys(m), n), KeysSorted);
    Filter(Permutations(Keys(m), n), KeysSorted)
  }

  /** `combinations(obj, n)` as its doc-comment describes it (as written, the body
      calls an unbound `_`; see `CombinationsAsWritten`). */
  function Combinations<T>(xs: seq<T>, n: int): (r: seq<seq<T>>)
    ensures |r| == |CombinationIndices(|xs|, n)|
    ensures var ts := CombinationIndices(|xs|, n);
      forall k :: 0 <= k < |r| ==>
        |r[k]| == |ts[k]| && forall i :: 0 <= i < |r[k]| ==> ts[k][i] < |xs| && r[k][i] == xs[ts[k][i]]
  {
    PickAll(xs, CombinationIndices(|xs|, n))
  }

  lemma CombinationIndicesMember(m: nat, n: int, t: seq<nat>)
    ensures t in CombinationIndices(m, n) <==>
      var k := Arity(m, n);
      |t| == (if k > 0 then k else 0) && (forall i :: 0 <= i < |t| ==> t[i] < m) &&
      (|t| == 1 || (|t| >= 2 && t[0] != t[1])) && KeysSorted(t)
  {
    PermutationsOfKeys(m, n);
    FilterMember(PermutationIndices(m, n), KeysSorted, t);
    PermutationIndicesMember(m, n, t);
  }

  lemma SortedPair(t: seq<nat>)
    requires |t| == 2
    ensures KeysSorted(t) <==> LessOrEqual(Decimal(t[0]), Decimal(t[1]))
  {
    if LessOrEqual(Decimal(t[0]), Decimal(t[1])) {
      forall i | 0 < i < |t|
        ensures LessOrEqual(Decimal(t[i - 1]), Decimal(t[i]))
      {
        assert i == 1;
      }
    }
  }

  /** Pairs are kept exactly when both indices are in range, differ, and the
      first key is `<=` the second as strings. */
  lemma CombinationPairKeys(m: nat, t: seq<nat>)
    ensures t in CombinationIndices(m, 2) <==>
      |t| == 2 && t[0] < m && t[1] < m && t[0] != t[1] && LessOrEqual(Decimal(t[0]), Decimal(t[1]))
  {
    CombinationIndicesMember(m, 2, t);
    assert Arity(m, 2) == 2;
    if |t| == 2 {
      assert (forall i :: 0 <= i < |t| ==> t[i] < m) <==> t[0] < m && t[1] < m;
      SortedPair(t);
    }
  }

  /** For at most ten elements, `combinations(xs, 2)` picks exactly the index
      pairs `i < j`: each unordered pair once. */
  lemma CombinationPairs(m: nat, t: seq<nat>)
    requires m <= 10
    ensures t in CombinationIndices(m, 2) <==> |t| == 2 && t[0] < t[1] < m
  {
    CombinationPairKeys(m, t);
    if |t| == 2 && t[0] < m && t[1] < m {
      DigitKeyOrder(t[0], t[1]);
    }
  }

  /** The lead guard inherited from `permutations` lets a repeated index through
      at position two: `[0, 1, 1]` is a 3-combination. */
  lemma CombinationsRepeatPastLead(m: nat)
    requires m >= 2
    ensures [0, 1, 1] in CombinationIndices(m, 3)
  {
    var t: seq<nat> := [0, 1, 1];
    assert KeysSorted(t) by {
      DigitKeyOrder(0, 1);
      DigitKeyOrder(1, 1);
    }
    CombinationIndicesMember(m, 3, t);
  }

  /** With eleven or more elements the string order of keys shows through: the
      pair of indices 2 and 10 is listed as `[10, 2]`, never as `[2, 10]`. */
  lemma CombinationsPastTen(m: nat)
    requires m >= 11
    ensures [10, 2] in CombinationIndices(m, 2)
    ensures [2, 10] !in CombinationIndices(m, 2)
  {
    TenSortsBeforeTwo();
    var t: seq<nat> := [10, 2];
    var u: seq<nat> := [2, 10];
    CombinationPairKeys(m, t);
    CombinationPairKeys(m, u);
  }

  /** What `combinations` does as written: `_` is not in scope (the lodash
      import is commented out), so the call throws before anything is computed. */
  datatype JsError = ReferenceError(name: string)

  function CombinationsAsWritten<T>(xs: seq<T>, n: int): (r: Result<seq<seq<T>>, JsError>)
    ensures r.Failure? && r.error.name == "_"
  {
    Failure(ReferenceError("_"))
  }
}
