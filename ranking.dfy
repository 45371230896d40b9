/**
 * The two selections the dashboard makes on the coerced table: the ten rows
 * with the largest `total` (`nlargest(10, 'total')`) and the points leader
 * (`idxmax` on `total`, shown only when the largest total is positive).
 */
module Ranking {
  import opened Options
  import opened Records

  /** `i` is the first position holding the largest total. */
  predicate IsFirstMax(rows: seq<ScoredRow>, i: int) {
    && 0 <= i < |rows|
    && (forall j :: 0 <= j < |rows| ==> Points(rows[j]) <= Points(rows[i]))
    && (forall j :: 0 <= j < i ==> Points(rows[j]) < Points(rows[i]))
  }

  /** `idxmax`: the position of the first occurrence of the largest total. */
  function FirstMaxIndex(rows: seq<ScoredRow>): (i: nat)
    requires |rows| > 0
    ensures IsFirstMax(rows, i)
  {
    if |rows| == 1 then 0
    else
      var k := FirstMaxIndex(rows[..|rows| - 1]);
      if Points(rows[|rows| - 1]) > Points(rows[k]) then |rows| - 1 else k
  }

  /** At most one position is the first maximum, so `idxmax` is determined. */
  lemma FirstMaxUnique(rows: seq<ScoredRow>, i: int, j: int)
    requires IsFirstMax(rows, i) && IsFirstMax(rows, j)
    ensures i == j
  {
    assert Points(rows[i]) == Points(rows[j]);
  }

  function RemoveAt(rows: seq<ScoredRow>, i: nat): (r: seq<ScoredRow>)
    requires i < |rows|
    ensures |r| == |rows| - 1
    ensures multiset(r) + multiset{rows[i]} == multiset(rows)
  {
    assert rows == rows[..i] + [rows[i]] + rows[i + 1..];
    rows[..i] + rows[i + 1..]
  }

  /**
   * `nlargest(n, 'total')` with pandas' default `keep='first'`: repeatedly
   * take the first row holding the largest remaining total. The result has
   * min(n, |rows|) rows, in descending order of total, drawn from the input.
   */
  function TopN(rows: seq<ScoredRow>, n: nat): (r: seq<ScoredRow>)
    ensures |r| == if n < |rows| then n else |rows|
    ensures multiset(r) <= multiset(rows)
    ensures forall i, j :: 0 <= i < j < |r| ==> Points(r[i]) >= Points(r[j])
    decreases n
  {
    if n == 0 || rows == [] then []
    else
      var i := FirstMaxIndex(rows);
      var rest := RemoveAt(rows, i);
      var tail := TopN(rest, n - 1);
      BoundedByMax(rows, rows[i], rest, tail);
      [rows[i]] + tail
  }

  /** Rows drawn from what is left after removing a maximum are no larger than it. */
  lemma BoundedByMax(rows: seq<ScoredRow>, m: ScoredRow, rest: seq<ScoredRow>, tail: seq<ScoredRow>)
    requires forall j :: 0 <= j < |rows| ==> Points(rows[j]) <= Points(m)
    requires multiset(rest) + multiset{m} == multiset(rows)
    requires multiset(tail) <= multiset(rest)
    ensures forall k :: 0 <= k < |tail| ==> Points(tail[k]) <= Points(m)
    ensures multiset([m] + tail) <= multiset(rows)
  {
    forall k | 0 <= k < |tail| ensures Points(tail[k]) <= Points(m) {
      assert tail[k] in multiset(tail);
      assert tail[k] in multiset(rows);
      var j :| 0 <= j < |rows| && rows[j] == tail[k];
    }
  }

  /**
   * Every selected row's total is at least every unselected row's total:
   * the selection really is the top of the table.
   */
  lemma {:induction false} TopNSelectsLargest(rows: seq<ScoredRow>, n: nat)
    ensures forall a, b :: a in TopN(rows, n) && b in multiset(rows) - multiset(TopN(rows, n)) ==>
      Points(a) >= Points(b)
    decreases n
  {
    if n > 0 && rows != [] {
      var i := FirstMaxIndex(rows);
      var rest := RemoveAt(rows, i);
      var tail := TopN(rest, n - 1);
      assert TopN(rows, n) == [rows[i]] + tail;
      assert multiset(rest) + multiset{rows[i]} == multiset(rows);
      assert forall j :: 0 <= j < |rows| ==> Points(rows[j]) <= Points(rows[i]);
      TopNSelectsLargest(rest, n - 1);
      SelectMaxStep(rows, rows[i], rest, tail);
    }
  }

  /** One step of the selection: putting the largest row in front keeps the top above the rest. */
  lemma SelectMaxStep(rows: seq<ScoredRow>, m: ScoredRow, rest: seq<ScoredRow>, tail: seq<ScoredRow>)
    requires multiset(rest) + multiset{m} == multiset(rows)
    requires forall j :: 0 <= j < |rows| ==> Points(rows[j]) <= Points(m)
    requires forall a, b :: a in tail && b in multiset(rest) - multiset(tail) ==> Points(a) >= Points(b)
    ensures forall a, b :: a in [m] + tail && b in multiset(rows) - multiset([m] + tail) ==>
      Points(a) >= Points(b)
  {
    assert multiset([m] + tail) == multiset{m} + multiset(tail);
    assert multiset(rows) - multiset([m] + tail) == multiset(rest) - multiset(tail);
    forall a, b | a in [m] + tail && b in multiset(rows) - multiset([m] + tail)
      ensures Points(a) >= Points(b)
    {
      if a != m {
        assert a in tail;
      } else {
        assert b in multiset(rows);
        var j :| 0 <= j < |rows| && rows[j] == b;
      }
    }
  }

  /** When the table has at most n rows, the selection is all of it, reordered. */
  lemma {:induction false} TopNOfShortTable(rows: seq<ScoredRow>, n: nat)
    requires |rows| <= n
    ensures multiset(TopN(rows, n)) == multiset(rows)
    decreases n
  {
    if n > 0 && rows != [] {
      var i := FirstMaxIndex(rows);
      var rest := RemoveAt(rows, i);
      TopNOfShortTable(rest, n - 1);
      var tail := TopN(rest, n - 1);
      assert TopN(rows, n) == [rows[i]] + tail;
      PutBack(rows, rows[i], rest, tail);
    }
  }

  lemma PutBack(rows: seq<ScoredRow>, m: ScoredRow, rest: seq<ScoredRow>, tail: seq<ScoredRow>)
    requires multiset(rest) + multiset{m} == multiset(rows)
    requires multiset(tail) == multiset(rest)
    ensures multiset([m] + tail) == multiset(rows)
  {
  }

  /**
   * The points leader: the first row with the largest total, produced only
   * when the table is non-empty and that total is positive.
   */
  function Leader(rows: seq<ScoredRow>): (r: Option<ScoredRow>)
    ensures r.Some? <==> exists j :: 0 <= j < |rows| && Points(rows[j]) > 0
    ensures r.Some? ==> Points(r.value) > 0 && exists i :: IsFirstMax(rows, i) && rows[i] == r.value
  {
    if rows == [] then None
    else
      var i := FirstMaxIndex(rows);
      if Points(rows[i]) > 0 then Some(rows[i]) else None
  }

  /**
   * The top-n selection starts with the `idxmax` row, so the leader, when
   * there is one, heads it.
   */
  lemma LeaderHeadsTopN(rows: seq<ScoredRow>, n: nat)
    requires n > 0 && |rows| > 0
    ensures |TopN(rows, n)| > 0 && TopN(rows, n)[0] == rows[FirstMaxIndex(rows)]
    ensures Leader(rows).Some? ==> TopN(rows, n)[0] == Leader(rows).value
  {
  }
}
