/**
 * The loop shape shared by the parser and the filter: visit the items in
 * order, and append the result of each one that yields something.
 */
module Lists {
  import opened Wrappers

  /** The present results of `f` over `xs`, in order. */
  function FilterMap<A, B>(f: A -> Option<B>, xs: seq<A>): (r: seq<B>)
    ensures |r| <= |xs|
  {
    if |xs| == 0 then []
    else FilterMap(f, xs[..|xs| - 1]) + Kept(f(xs[|xs| - 1]))
  }

  /** What one item contributes: its result, or nothing. */
  function Kept<B>(y: Option<B>): seq<B> {
    match y
    case Some(v) => [v]
    case None => []
  }

  /** Mapping a concatenation concatenates the results: order is kept, nothing is merged. */
  lemma {:induction false} FilterMapAppend<A, B>(f: A -> Option<B>, a: seq<A>, b: seq<A>)
    ensures FilterMap(f, a + b) == FilterMap(f, a) + FilterMap(f, b)
    decreases |b|
  {
    if |b| == 0 {
      assert a + b == a;
    } else {
      var b' := b[..|b| - 1];
      assert (a + b)[..|a + b| - 1] == a + b';
      assert (a + b)[|a + b| - 1] == b[|b| - 1];
      FilterMapAppend(f, a, b');
    }
  }

  /** Some item of `xs` yields `y`. */
  predicate Yields<A, B(==)>(f: A -> Option<B>, xs: seq<A>, y: B) {
    exists i :: 0 <= i < |xs| && f(xs[i]) == Some(y)
  }

  /** A value is in the output exactly when some item yields it. */
  lemma {:induction false} FilterMapMembers<A, B>(f: A -> Option<B>, xs: seq<A>, y: B)
    ensures y in FilterMap(f, xs) <==> Yields(f, xs, y)
  {
    if |xs| > 0 {
      var init := xs[..|xs| - 1];
      var last := |xs| - 1;
      FilterMapMembers(f, init, y);
      if y in FilterMap(f, xs) {
        if y in FilterMap(f, init) {
          var i :| 0 <= i < |init| && f(init[i]) == Some(y);
          assert xs[i] == init[i];
        } else {
          assert f(xs[last]) == Some(y);
        }
        assert Yields(f, xs, y);
      }
      if Yields(f, xs, y) {
        var i :| 0 <= i < |xs| && f(xs[i]) == Some(y);
        if i < last {
          assert init[i] == xs[i];
          assert Yields(f, init, y);
        } else {
          assert i == last;
          assert Kept(f(xs[last])) == [y];
        }
        assert y in FilterMap(f, xs);
      }
    }
  }
}
