/** The two pieces of JavaScript string semantics the combinatorics code leans on:
    `_keys` of an array yields the indices as decimal strings, and `<` / `<=` on
    two strings compares them character by character (the same as JavaScript's
    code-unit order on the ASCII digit keys this is used for). */
module JsStrings {

  function DigitChar(d: nat): char
    requires d < 10
  {
    ('0' as int + d) as char
  }

  /** `String(i)` for an array index `i`: its decimal numeral, no leading zeros. */
  function Decimal(n: nat): (s: string)
    ensures 1 <= |s|
    ensures AllDigits(s)
    ensures |s| == 1 <==> n < 10
  {
    if n < 10 then [DigitChar(n)] else Decimal(n / 10) + [DigitChar(n % 10)]
  }

  ghost predicate AllDigits(s: string)
  {
    forall i :: 0 <= i < |s| ==> '0' <= s[i] <= '9'
  }

  /** Reading a decimal numeral back, as `obj[i]` does when `i` is an index key. */
  function ParseDecimal(s: string): nat
    requires AllDigits(s)
  {
    if |s| == 0 then 0
    else ParseDecimal(s[..|s| - 1]) * 10 + (s[|s| - 1] as int - '0' as int)
  }

  /** Index keys round-trip: the key string of `n` names element `n` again. */
  lemma {:induction false} DecimalRoundTrip(n: nat)
    ensures ParseDecimal(Decimal(n)) == n
  {
    if n >= 10 {
      DecimalRoundTrip(n / 10);
      var s := Decimal(n);
      assert s[..|s| - 1] == Decimal(n / 10);
    }
  }

  /** Distinct indices have distinct keys, so `!==` on keys is `!=` on indices. */
  lemma DecimalInjective(a: nat, b: nat)
    ensures Decimal(a) == Decimal(b) <==> a == b
  {
    if Decimal(a) == Decimal(b) {
      DecimalRoundTrip(a);
      DecimalRoundTrip(b);
    }
  }

  /** `a < b` on two strings: the first differing character decides, and a
      proper prefix is smaller. On the ASCII digit keys compared here this is
      JavaScript's code-unit order. */
  predicate Less(a: string, b: string)
    decreases |a|
  {
    if |b| == 0 then false
    else if |a| == 0 then true
    else if a[0] != b[0] then a[0] < b[0]
    else Less(a[1..], b[1..])
  }

  /** `a <= b` on two JavaScript strings. */
  predicate LessOrEqual(a: string, b: string)
  {
    !Less(b, a)
  }

  /** String order on index keys is a total order: exactly one of `<`, `==`, `>`. */
  lemma {:induction false} LessTrichotomy(a: string, b: string)
    ensures Less(a, b) || a == b || Less(b, a)
    ensures !(Less(a, b) && Less(b, a))
    ensures !Less(a, a)
    decreases |a|
  {
    if |a| > 0 && |b| > 0 && a[0] == b[0] {
      LessTrichotomy(a[1..], b[1..]);
      if a[1..] == b[1..] {
        assert a == [a[0]] + a[1..] && b == [b[0]] + b[1..];
      }
    }
    if |a| > 0 {
      LessTrichotomy(a[1..], a[1..]);
    }
  }

  /** String `<` is transitive, so with `LessTrichotomy` it is a strict total
      order and `<=` on keys is a total preorder. */
  lemma {:induction false} LessTransitive(a: string, b: string, c: string)
    requires Less(a, b) && Less(b, c)
    ensures Less(a, c)
    decreases |a|
  {
    if |a| > 0 && a[0] == b[0] && b[0] == c[0] {
      LessTransitive(a[1..], b[1..], c[1..]);
    }
  }

  /** For single-digit indices (arrays of at most ten elements) the key order is
      the numeric order. */
  lemma DigitKeyOrder(i: nat, j: nat)
    requires i < 10 && j < 10
    ensures LessOrEqual(Decimal(i), Decimal(j)) <==> i <= j
  {
    var a, b := Decimal(i), Decimal(j);
    assert a == [DigitChar(i)] && b == [DigitChar(j)];
    assert Less(b, a) <==> DigitChar(j) < DigitChar(i);
  }

  /** From eleven elements on the two orders part: key "10" sorts before key "2". */
  lemma TenSortsBeforeTwo()
    ensures LessOrEqual(Decimal(10), Decimal(2)) && !LessOrEqual(Decimal(2), Decimal(10))
  {
    assert Decimal(10) == "10";
    assert Decimal(2) == "2";
  }
}
