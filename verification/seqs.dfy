/** Sequence helpers standing for the lodash collection functions the scripts use
    (`_flatten`, `Array.prototype.filter`, `_map`, `join('')`, `_uniq`). */
module Seqs {

  /** `_flatten(xss, true)`: one level of nesting removed, order kept. */
  function Flatten<T>(xss: seq<seq<T>>): seq<T>
  {
    if |xss| == 0 then [] else xss[0] + Flatten(xss[1..])
  }

  lemma FlattenAppend<T>(a: seq<seq<T>>, b: seq<seq<T>>)
    ensures Flatten(a + b) == Flatten(a) + Flatten(b)
  {
    if |a| == 0 {
      assert a + b == b;
    } else {
      assert (a + b)[1..] == a[1..] + b;
      FlattenAppend(a[1..], b);
    }
  }

  lemma FlattenMember<T>(xss: seq<seq<T>>, x: T)
    ensures x in Flatten(xss) <==> exists i :: 0 <= i < |xss| && x in xss[i]
  {
    if |xss| > 0 {
      FlattenMember(xss[1..], x);
      assert forall i :: 1 <= i < |xss| ==> xss[i] == xss[1..][i - 1];
    }
  }

  /** `xs.filter(p)`: the elements satisfying `p`, in their original order. */
  function Filter<T>(xs: seq<T>, p: T -> bool): (r: seq<T>)
    ensures |r| <= |xs|
  {
    if |xs| == 0 then []
    else (if p(xs[0]) then [xs[0]] else []) + Filter(xs[1..], p)
  }

  lemma {:induction false} FilterMember<T>(xs: seq<T>, p: T -> bool, x: T)
    ensures x in Filter(xs, p) <==> x in xs && p(x)
  {
    if |xs| > 0 {
      FilterMember(xs[1..], p, x);
      assert x in xs <==> x == xs[0] || x in xs[1..];
    }
  }

  lemma {:induction false} FilterAppend<T>(a: seq<T>, b: seq<T>, p: T -> bool)
    ensures Filter(a + b, p) == Filter(a, p) + Filter(b, p)
  {
    if |a| == 0 {
      assert a + b == b;
    } else {
      var head := if p(a[0]) then [a[0]] else [];
      assert (a + b)[0] == a[0];
      assert (a + b)[1..] == a[1..] + b;
      FilterAppend(a[1..], b, p);
      calc {
        Filter(a + b, p);
        head + Filter(a[1..] + b, p);
        head + (Filter(a[1..], p) + Filter(b, p));
        (head + Filter(a[1..], p)) + Filter(b, p);
      }
    }
  }

  /** Two filters in a row are one filter by the conjunction. */
  lemma {:induction false} FilterFilter<T>(xs: seq<T>, p: T -> bool, q: T -> bool, both: T -> bool)
    requires forall x :: both(x) == (p(x) && q(x))
    ensures Filter(Filter(xs, p), q) == Filter(xs, both)
  {
    if |xs| > 0 {
      FilterFilter(xs[1..], p, q, both);
      var head := if p(xs[0]) then [xs[0]] else [];
      FilterAppend(head, Filter(xs[1..], p), q);
      if p(xs[0]) {
        assert head[1..] == [];
      }
    }
  }

  lemma FilterAll<T>(xs: seq<T>, p: T -> bool)
    requires forall i :: 0 <= i < |xs| ==> p(xs[i])
    ensures Filter(xs, p) == xs
  {
    if |xs| > 0 {
      FilterAll(xs[1..], p);
    }
  }

  lemma FilterNone<T>(xs: seq<T>, p: T -> bool)
    requires forall i :: 0 <= i < |xs| ==> !p(xs[i])
    ensures Filter(xs, p) == []
  {
    if |xs| > 0 {
      FilterNone(xs[1..], p);
    }
  }

  /** `_map(xs, f)`. */
  function Map<A, B>(xs: seq<A>, f: A -> B): (r: seq<B>)
    ensures |r| == |xs|
    ensures forall i :: 0 <= i < |xs| ==> r[i] == f(xs[i])
  {
    seq(|xs|, i requires 0 <= i < |xs| => f(xs[i]))
  }

  lemma MapAppend<A, B>(a: seq<A>, b: seq<A>, f: A -> B)
    ensures Map(a + b, f) == Map(a, f) + Map(b, f)
  {
  }

  lemma MapMember<A, B>(xs: seq<A>, f: A -> B, y: B)
    ensures y in Map(xs, f) <==> exists i :: 0 <= i < |xs| && y == f(xs[i])
  {
    if y in Map(xs, f) {
      var i :| 0 <= i < |xs| && Map(xs, f)[i] == y;
    }
  }

  /** Filtering mapped values is mapping the values whose image passes. */
  lemma {:induction false} FilterMap<A, B>(xs: seq<A>, f: A -> B, p: B -> bool, pf: A -> bool)
    requires forall x :: pf(x) == p(f(x))
    ensures Filter(Map(xs, f), p) == Map(Filter(xs, pf), f)
  {
    if |xs| > 0 {
      FilterMap(xs[1..], f, p, pf);
      assert Map(xs, f)[1..] == Map(xs[1..], f);
      var head := if pf(xs[0]) then [xs[0]] else [];
      MapAppend(head, Filter(xs[1..], pf), f);
    }
  }

  /** Dropping the empty inner lists does not change the flattening. */
  lemma {:induction false} FlattenDropEmpty<T>(xss: seq<seq<T>>, nonEmpty: seq<T> -> bool)
    requires forall xs :: nonEmpty(xs) == (|xs| > 0)
    ensures Flatten(Filter(xss, nonEmpty)) == Flatten(xss)
  {
    if |xss| > 0 {
      FlattenDropEmpty(xss[1..], nonEmpty);
      var head := if nonEmpty(xss[0]) then [xss[0]] else [];
      FlattenAppend(head, Filter(xss[1..], nonEmpty));
      if nonEmpty(xss[0]) {
        assert Flatten(head) == xss[0] + Flatten(head[1..]);
      }
    }
  }

  /** Filtering a flattening is flattening the filtered inner lists; `g` is
      the filter applied to one inner list. */
  lemma {:induction false} FilterFlatten<T>(xss: seq<seq<T>>, p: T -> bool, g: seq<T> -> seq<T>)
    requires forall xs :: g(xs) == Filter(xs, p)
    ensures Filter(Flatten(xss), p) == Flatten(Map(xss, g))
  {
    if |xss| > 0 {
      FilterFlatten(xss[1..], p, g);
      FilterAppend(xss[0], Flatten(xss[1..]), p);
      assert Map(xss, g)[1..] == Map(xss[1..], g);
    }
  }

  /** Mapping a flattening is flattening the mapped inner lists; `g` is the
      map applied to one inner list. */
  lemma {:induction false} MapFlatten<A, B>(xss: seq<seq<A>>, f: A -> B, g: seq<A> -> seq<B>)
    requires forall xs :: g(xs) == Map(xs, f)
    ensures Map(Flatten(xss), f) == Flatten(Map(xss, g))
  {
    if |xss| > 0 {
      MapFlatten(xss[1..], f, g);
      MapAppend(xss[0], Flatten(xss[1..]), f);
      assert Map(xss, g)[1..] == Map(xss[1..], g);
    }
  }

  /** The position of the first occurrence of `x`. */
  function FirstIndex<T(==)>(xs: seq<T>, x: T): (k: nat)
    requires x in xs
    ensures k < |xs| && xs[k] == x && x !in xs[..k]
  {
    if xs[0] == x then 0
    else
      var k := FirstIndex(xs[1..], x);
      assert xs[..k + 1] == [xs[0]] + xs[1..][..k];
      k + 1
  }

  /** Any position holding the first occurrence is the one `FirstIndex` finds. */
  lemma FirstIndexUnique<T>(xs: seq<T>, x: T, k: nat)
    requires k < |xs| && xs[k] == x && x !in xs[..k]
    ensures FirstIndex(xs, x) == k
  {
  }

  /** `_uniq(xs)`: each value once, at the place of its first occurrence. */
  function Uniq<T(==)>(xs: seq<T>): (r: seq<T>)
    ensures forall i :: 0 <= i < |r| ==> r[i] in xs
    ensures forall i :: 0 <= i < |xs| ==> xs[i] in r
    ensures NoDuplicates(r)
    ensures |r| <= |xs|
  {
    if |xs| == 0 then []
    else
      var rest := Uniq(xs[..|xs| - 1]);
      var last := xs[|xs| - 1];
      assert forall i :: 0 <= i < |xs| - 1 ==> xs[i] == xs[..|xs| - 1][i];
      if last in rest then rest
      else
        NoDuplicatesAppend(rest, [last]);
        rest + [last]
  }

  /** `_uniq` keeps the values in the order of their first occurrences. */
  lemma {:induction false} UniqFirstAppearance<T>(xs: seq<T>)
    ensures forall i, j :: 0 <= i < j < |Uniq(xs)| ==>
      FirstIndex(xs, Uniq(xs)[i]) < FirstIndex(xs, Uniq(xs)[j])
  {
    if |xs| > 0 {
      var init := xs[..|xs| - 1];
      var last := xs[|xs| - 1];
      var rest := Uniq(init);
      UniqFirstAppearance(init);
      forall x | x in init
        ensures FirstIndex(xs, x) == FirstIndex(init, x)
      {
        var f := FirstIndex(init, x);
        assert xs[..f] == init[..f];
        FirstIndexUnique(xs, x, f);
      }
      if last !in rest {
        assert last !in init;
        assert xs[..|xs| - 1] == init;
        FirstIndexUnique(xs, last, |xs| - 1);
      }
    }
  }

  /** `items.join('')` for string items. */
  function Concat(items: seq<string>): string
  {
    if |items| == 0 then "" else items[0] + Concat(items[1..])
  }

  ghost predicate NoDuplicates<T>(xs: seq<T>)
  {
    forall i, j :: 0 <= i < j < |xs| ==> xs[i] != xs[j]
  }

  lemma NoDuplicatesAppend<T>(a: seq<T>, b: seq<T>)
    requires NoDuplicates(a) && NoDuplicates(b)
    requires forall x :: x in a ==> x !in b
    ensures NoDuplicates(a + b)
  {
    forall i, j | 0 <= i < j < |a + b|
      ensures (a + b)[i] != (a + b)[j]
    {
      if j >= |a| && i < |a| {
        assert (a + b)[i] in a;
        assert (a + b)[j] == b[j - |a|];
      }
    }
  }

  /** A duplicate-free sequence has as many distinct elements as positions. */
  lemma {:induction false} NoDuplicatesCardinality<T>(xs: seq<T>)
    requires NoDuplicates(xs)
    ensures |set x | x in xs| == |xs|
  {
    if |xs| > 0 {
      var init := xs[..|xs| - 1];
      var last := xs[|xs| - 1];
      assert NoDuplicates(init);
      NoDuplicatesCardinality(init);
      assert last !in init;
      assert (set x | x in xs) == (set x | x in init) + {last};
    }
  }

  /** Two duplicate-free sequences with the same elements have the same length. */
  lemma SameElementsSameLength<T>(a: seq<T>, b: seq<T>)
    requires NoDuplicates(a) && NoDuplicates(b)
    requires forall x :: x in a <==> x in b
    ensures |a| == |b|
  {
    NoDuplicatesCardinality(a);
    NoDuplicatesCardinality(b);
    assert (set x | x in a) == (set x | x in b);
  }

  lemma MapNoDuplicates<A, B>(xs: seq<A>, f: A -> B)
    requires NoDuplicates(xs)
    requires forall x, y :: x in xs && y in xs && f(x) == f(y) ==> x == y
    ensures NoDuplicates(Map(xs, f))
  {
  }
}
