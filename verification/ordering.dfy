/**
 * Python's ordering of `str` values (code point by code point, a proper
 * prefix first) and the `sorted(list(set(...)))` idiom, as a strictly
 * ascending sequence.
 */
module Ordering {

  /** Python's `a < b` on strings. */
  predicate Below(a: string, b: string) {
    if |a| == 0 then |b| > 0
    else |b| > 0 && (a[0] < b[0] || (a[0] == b[0] && Below(a[1..], b[1..])))
  }

  lemma {:induction false} BelowIrreflexive(a: string)
    ensures !Below(a, a)
  {
    if |a| > 0 {
      BelowIrreflexive(a[1..]);
    }
  }

  lemma {:induction false} BelowTransitive(a: string, b: string, c: string)
    requires Below(a, b) && Below(b, c)
    ensures Below(a, c)
  {
    if |a| > 0 && a[0] == b[0] && b[0] == c[0] {
      BelowTransitive(a[1..], b[1..], c[1..]);
    }
  }

  lemma {:induction false} BelowTotal(a: string, b: string)
    ensures a == b || Below(a, b) || Below(b, a)
  {
    if |a| > 0 && |b| > 0 && a[0] == b[0] {
      BelowTotal(a[1..], b[1..]);
      if a[1..] == b[1..] {
        assert a == [a[0]] + a[1..] && b == [b[0]] + b[1..];
      }
    }
  }

  lemma BelowAsymmetric(a: string, b: string)
    requires Below(a, b)
    ensures !Below(b, a)
  {
    if Below(b, a) {
      BelowTransitive(a, b, a);
      BelowIrreflexive(a);
    }
  }

  /** Ascending with no repeats: what `sorted` yields from a set. */
  predicate StrictlySorted(xs: seq<string>) {
    forall i, j :: 0 <= i < j < |xs| ==> Below(xs[i], xs[j])
  }

  /** Adds `x` to a strictly sorted sequence, as `set.add` does: no effect when `x` is already there. */
  function Insert(x: string, xs: seq<string>): (r: seq<string>)
    requires StrictlySorted(xs)
    ensures StrictlySorted(r)
    ensures forall y :: y in r <==> y in xs || y == x
  {
    if |xs| == 0 then [x]
    else if x == xs[0] then xs
    else if Below(x, xs[0]) then
      assert forall j :: 0 <= j < |xs| ==> Below(x, xs[j]) by {
        forall j | 0 <= j < |xs| ensures Below(x, xs[j]) {
          if j > 0 { BelowTransitive(x, xs[0], xs[j]); }
        }
      }
      [x] + xs
    else
      BelowTotal(x, xs[0]);
      var rest := Insert(x, xs[1..]);
      assert forall y :: y in rest ==> Below(xs[0], y);
      [xs[0]] + rest
  }

  /** `sorted(set(xs))`: the distinct elements of `xs`, ascending. */
  function SortedDistinct(xs: seq<string>): (r: seq<string>)
    ensures StrictlySorted(r)
    ensures forall y :: y in r <==> y in xs
  {
    if |xs| == 0 then []
    else
      var init := xs[..|xs| - 1];
      assert xs == init + [xs[|xs| - 1]];
      Insert(xs[|xs| - 1], SortedDistinct(init))
  }

  /** The head of a strictly sorted sequence is below every other element. */
  lemma HeadIsLeast(a: seq<string>, y: string)
    requires StrictlySorted(a) && y in a
    ensures a[0] == y || Below(a[0], y)
  {
  }

  lemma SameElementsBothEmpty(a: seq<string>, b: seq<string>)
    requires forall y :: y in a <==> y in b
    ensures |a| == 0 <==> |b| == 0
  {
    if |a| > 0 { assert a[0] in a; }
    if |b| > 0 { assert b[0] in b; }
  }

  /** A strictly sorted sequence is fixed by its elements, so `SortedDistinct` is the only answer. */
  lemma {:induction false} SortedUnique(a: seq<string>, b: seq<string>)
    requires StrictlySorted(a) && StrictlySorted(b)
    requires forall y :: y in a <==> y in b
    ensures a == b
  {
    SameElementsBothEmpty(a, b);
    if |a| > 0 {
      HeadIsLeast(a, b[0]);
      HeadIsLeast(b, a[0]);
      if a[0] != b[0] {
        BelowAsymmetric(a[0], b[0]);
        assert false;
      }
      assert a == [a[0]] + a[1..] && b == [b[0]] + b[1..];
      BelowIrreflexive(a[0]);
      forall y ensures y in a[1..] <==> y in b[1..] {
        if y in a[1..] {
          var i :| 1 <= i < |a| && a[i] == y;
          assert y in b;
          var j :| 0 <= j < |b| && b[j] == y;
          assert j != 0;
          assert b[1..][j - 1] == y;
        }
        if y in b[1..] {
          var i :| 1 <= i < |b| && b[i] == y;
          assert y in a;
          var j :| 0 <= j < |a| && a[j] == y;
          assert j != 0;
          assert a[1..][j - 1] == y;
        }
      }
      SortedUnique(a[1..], b[1..]);
    }
  }
}
