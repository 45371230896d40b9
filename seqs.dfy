/** Order-preserving selection on sequences, the model of a boolean row mask. */
module Seqs {

  /** `xs` can be obtained from `ys` by deleting elements, keeping the order of the rest. */
  predicate IsSubsequence<T(==)>(xs: seq<T>, ys: seq<T>)
    decreases |ys|
  {
    if xs == [] then true
    else if ys == [] then false
    else if xs[0] == ys[0] && IsSubsequence(xs[1..], ys[1..]) then true
    else IsSubsequence(xs, ys[1..])
  }

  /**
   * The rows of `xs` that satisfy `keep`, in their original order (a
   * DataFrame indexed by a boolean mask).
   */
  function Filter<T>(xs: seq<T>, keep: T -> bool): (r: seq<T>)
    ensures |r| <= |xs|
  {
    if xs == [] then []
    else if keep(xs[0]) then [xs[0]] + Filter(xs[1..], keep)
    else Filter(xs[1..], keep)
  }

  /**
   * Each value occurs in the selection exactly as often as in the input when
   * it satisfies `keep`, and not at all otherwise.
   */
  lemma {:induction false} FilterCount<T>(xs: seq<T>, keep: T -> bool, y: T)
    ensures multiset(Filter(xs, keep))[y] == if keep(y) then multiset(xs)[y] else 0
  {
    if xs != [] {
      FilterCount(xs[1..], keep, y);
      assert xs == [xs[0]] + xs[1..];
      assert multiset(xs)[y] == multiset([xs[0]])[y] + multiset(xs[1..])[y];
      if keep(xs[0]) {
        var rest := Filter(xs[1..], keep);
        assert multiset([xs[0]] + rest)[y] == multiset([xs[0]])[y] + multiset(rest)[y];
      }
    }
  }

  /** The selection keeps the input order. */
  lemma {:induction false} FilterIsSubsequence<T>(xs: seq<T>, keep: T -> bool)
    ensures IsSubsequence(Filter(xs, keep), xs)
  {
    if xs != [] {
      FilterIsSubsequence(xs[1..], keep);
      var rest := Filter(xs[1..], keep);
      if keep(xs[0]) {
        assert ([xs[0]] + rest)[1..] == rest;
      } else {
        SubsequenceOfTail(rest, xs);
      }
    }
  }

  lemma SubsequenceOfTail<T>(xs: seq<T>, ys: seq<T>)
    requires ys != [] && IsSubsequence(xs, ys[1..])
    ensures IsSubsequence(xs, ys)
  {
  }

  /**
   * The mask keeps exactly the rows that satisfy `keep`: each kept row is an
   * input row satisfying it, each such input row is kept as often as it
   * occurs, no other row is kept, and the kept rows stay in input order.
   */
  lemma FilterKeepsExactly<T>(xs: seq<T>, keep: T -> bool)
    ensures forall i :: 0 <= i < |Filter(xs, keep)| ==>
      Filter(xs, keep)[i] in xs && keep(Filter(xs, keep)[i])
    ensures forall i :: 0 <= i < |xs| && keep(xs[i]) ==>
      multiset(Filter(xs, keep))[xs[i]] == multiset(xs)[xs[i]]
    ensures forall i :: 0 <= i < |xs| && !keep(xs[i]) ==> xs[i] !in Filter(xs, keep)
    ensures IsSubsequence(Filter(xs, keep), xs)
  {
    var r := Filter(xs, keep);
    forall i | 0 <= i < |r| ensures r[i] in xs && keep(r[i]) {
      FilterCount(xs, keep, r[i]);
      assert r[i] in multiset(r);
    }
    forall i | 0 <= i < |xs| ensures multiset(r)[xs[i]] == if keep(xs[i]) then multiset(xs)[xs[i]] else 0 {
      FilterCount(xs, keep, xs[i]);
    }
    FilterIsSubsequence(xs, keep);
  }

  /** A row is kept exactly when it occurs in the input and satisfies `keep`. */
  lemma FilterMembership<T>(xs: seq<T>, keep: T -> bool, x: T)
    ensures x in Filter(xs, keep) <==> x in xs && keep(x)
  {
    FilterCount(xs, keep, x);
    assert x in Filter(xs, keep) <==> x in multiset(Filter(xs, keep));
    assert x in xs <==> x in multiset(xs);
  }

  /** Masking distributes over concatenation: the selection is row by row. */
  lemma {:induction false} FilterAppend<T>(a: seq<T>, b: seq<T>, keep: T -> bool)
    ensures Filter(a + b, keep) == Filter(a, keep) + Filter(b, keep)
  {
    if a == [] {
      assert a + b == b;
    } else {
      assert (a + b)[0] == a[0];
      assert (a + b)[1..] == a[1..] + b;
      FilterAppend(a[1..], b, keep);
    }
  }
}
