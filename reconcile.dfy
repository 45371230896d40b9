/**
 * The reconciliation of league entries with standings: key normalisation,
 * the two key-set differences reported as warnings, the `isin` filters, the
 * left merge and the coercion of `total` to a number.
 */
module Reconcile {
  import opened Options
  import opened Keys
  import opened Records
  import opened Seqs

  // ---------------------------------------------------------------------
  // Key normalisation (both join columns are replaced by their string form)
  // ---------------------------------------------------------------------

  function NormaliseEntries(es: seq<Entry<RawId>>): (r: seq<Entry<string>>)
    ensures |r| == |es|
    ensures forall i :: 0 <= i < |es| ==>
      r[i] == Entry(Render(es[i].id), es[i].entryName, es[i].joinedTime,
                    es[i].playerFirstName, es[i].playerLastName)
  {
    seq(|es|, i requires 0 <= i < |es| =>
      Entry(Render(es[i].id), es[i].entryName, es[i].joinedTime,
            es[i].playerFirstName, es[i].playerLastName))
  }

  function NormaliseStandings(ss: seq<Standing<RawId, Total>>): (r: seq<Standing<string, Total>>)
    ensures |r| == |ss|
    ensures forall i :: 0 <= i < |ss| ==>
      r[i] == Standing(Render(ss[i].leagueEntry), ss[i].total, ss[i].matchesWon,
                       ss[i].matchesLost, ss[i].matchesDrawn)
  {
    seq(|ss|, i requires 0 <= i < |ss| =>
      Standing(Render(ss[i].leagueEntry), ss[i].total, ss[i].matchesWon,
               ss[i].matchesLost, ss[i].matchesDrawn))
  }

  // ---------------------------------------------------------------------
  // Key sets and the two differences
  // ---------------------------------------------------------------------

  function StandingKeys<P>(ss: seq<Standing<string, P>>): (r: set<string>)
    ensures forall i :: 0 <= i < |ss| ==> ss[i].leagueEntry in r
    ensures forall k :: k in r ==> exists i :: 0 <= i < |ss| && ss[i].leagueEntry == k
  {
    set i | 0 <= i < |ss| :: ss[i].leagueEntry
  }

  function EntryKeys(es: seq<Entry<string>>): (r: set<string>)
    ensures forall i :: 0 <= i < |es| ==> es[i].id in r
    ensures forall k :: k in r ==> exists i :: 0 <= i < |es| && es[i].id == k
  {
    set i | 0 <= i < |es| :: es[i].id
  }

  /** Keys some standing refers to that no entry carries. */
  function MissingInEntries<P>(ss: seq<Standing<string, P>>, es: seq<Entry<string>>): (r: set<string>)
    ensures forall k :: k in r <==>
      (exists i :: 0 <= i < |ss| && ss[i].leagueEntry == k) &&
      (forall j :: 0 <= j < |es| ==> es[j].id != k)
  {
    StandingKeys(ss) - EntryKeys(es)
  }

  /** Entry ids no standing refers to. */
  function MissingInStandings<P>(ss: seq<Standing<string, P>>, es: seq<Entry<string>>): (r: set<string>)
    ensures forall k :: k in r <==>
      (exists j :: 0 <= j < |es| && es[j].id == k) &&
      (forall i :: 0 <= i < |ss| ==> ss[i].leagueEntry != k)
  {
    EntryKeys(es) - StandingKeys(ss)
  }

  /**
   * Together the two warnings report exactly the keys that occur on one
   * side only, and no key is reported twice.
   */
  lemma MissingIsSymmetricDifference<P>(ss: seq<Standing<string, P>>, es: seq<Entry<string>>)
    ensures forall k :: k in MissingInEntries(ss, es) + MissingInStandings(ss, es) <==>
      (k in StandingKeys(ss)) != (k in EntryKeys(es))
    ensures MissingInEntries(ss, es) !! MissingInStandings(ss, es)
    ensures MissingInEntries(ss, es) == {} && MissingInStandings(ss, es) == {} <==>
      StandingKeys(ss) == EntryKeys(es)
  {
  }

  // ---------------------------------------------------------------------
  // The `isin` filters
  // ---------------------------------------------------------------------

  /** Standings whose key is some entry's id, in their original order. */
  function ValidStandings<P>(ss: seq<Standing<string, P>>, es: seq<Entry<string>>): (r: seq<Standing<string, P>>)
    ensures |r| <= |ss|
    ensures forall i :: 0 <= i < |r| ==> r[i] in ss && r[i].leagueEntry in EntryKeys(es)
  {
    var ids := EntryKeys(es);
    FilterKeepsExactly(ss, (s: Standing<string, P>) => s.leagueEntry in ids);
    Filter(ss, (s: Standing<string, P>) => s.leagueEntry in ids)
  }

  /** Entries whose id some standing refers to, in their original order. */
  function ValidEntries<P>(ss: seq<Standing<string, P>>, es: seq<Entry<string>>): (r: seq<Entry<string>>)
    ensures |r| <= |es|
    ensures forall i :: 0 <= i < |r| ==> r[i] in es && r[i].id in StandingKeys(ss)
  {
    var keys := StandingKeys(ss);
    FilterKeepsExactly(es, (e: Entry<string>) => e.id in keys);
    Filter(es, (e: Entry<string>) => e.id in keys)
  }

  /**
   * The standings filter keeps exactly the standings whose key is an entry
   * id, each as often as it occurs, in input order, and changes none of them.
   */
  lemma ValidStandingsKeepExactly<P>(ss: seq<Standing<string, P>>, es: seq<Entry<string>>)
    ensures forall i :: 0 <= i < |ValidStandings(ss, es)| ==>
      ValidStandings(ss, es)[i] in ss && ValidStandings(ss, es)[i].leagueEntry in EntryKeys(es)
    ensures forall i :: 0 <= i < |ss| && ss[i].leagueEntry in EntryKeys(es) ==>
      multiset(ValidStandings(ss, es))[ss[i]] == multiset(ss)[ss[i]]
    ensures forall i :: 0 <= i < |ss| && ss[i].leagueEntry !in EntryKeys(es) ==>
      ss[i] !in ValidStandings(ss, es)
    ensures IsSubsequence(ValidStandings(ss, es), ss)
  {
    var ids := EntryKeys(es);
    FilterKeepsExactly(ss, (s: Standing<string, P>) => s.leagueEntry in ids);
  }

  /**
   * The entries filter keeps exactly the entries whose id some standing
   * refers to, each as often as it occurs, in input order, unchanged.
   */
  lemma ValidEntriesKeepExactly<P>(ss: seq<Standing<string, P>>, es: seq<Entry<string>>)
    ensures forall i :: 0 <= i < |ValidEntries(ss, es)| ==>
      ValidEntries(ss, es)[i] in es && ValidEntries(ss, es)[i].id in StandingKeys(ss)
    ensures forall i :: 0 <= i < |es| && es[i].id in StandingKeys(ss) ==>
      multiset(ValidEntries(ss, es))[es[i]] == multiset(es)[es[i]]
    ensures forall i :: 0 <= i < |es| && es[i].id !in StandingKeys(ss) ==>
      es[i] !in ValidEntries(ss, es)
    ensures IsSubsequence(ValidEntries(ss, es), es)
  {
    var keys := StandingKeys(ss);
    FilterKeepsExactly(es, (e: Entry<string>) => e.id in keys);
  }

  /** After filtering, the standings carry exactly the keys the two inputs share. */
  lemma ValidStandingKeys<P>(ss: seq<Standing<string, P>>, es: seq<Entry<string>>)
    ensures StandingKeys(ValidStandings(ss, es)) == StandingKeys(ss) * EntryKeys(es)
  {
    CommonKeysKeptInStandings(ss, es);
    KeptStandingKeysAreCommon(ss, es);
  }

  lemma CommonKeysKeptInStandings<P>(ss: seq<Standing<string, P>>, es: seq<Entry<string>>)
    ensures StandingKeys(ss) * EntryKeys(es) <= StandingKeys(ValidStandings(ss, es))
  {
    var vs := ValidStandings(ss, es);
    ValidStandingsKeepExactly(ss, es);
    forall k | k in StandingKeys(ss) * EntryKeys(es) ensures k in StandingKeys(vs) {
      var i :| 0 <= i < |ss| && ss[i].leagueEntry == k;
      assert ss[i] in multiset(vs);
      var i' :| 0 <= i' < |vs| && vs[i'] == ss[i];
    }
  }

  lemma KeptStandingKeysAreCommon<P>(ss: seq<Standing<string, P>>, es: seq<Entry<string>>)
    ensures StandingKeys(ValidStandings(ss, es)) <= StandingKeys(ss) * EntryKeys(es)
  {
    var vs := ValidStandings(ss, es);
    ValidStandingsKeepExactly(ss, es);
    forall k | k in StandingKeys(vs) ensures k in StandingKeys(ss) * EntryKeys(es) {
      var i :| 0 <= i < |vs| && vs[i].leagueEntry == k;
      var i' :| 0 <= i' < |ss| && ss[i'] == vs[i];
    }
  }

  /** After filtering, the entries carry exactly the keys the two inputs share. */
  lemma ValidEntryKeys<P>(ss: seq<Standing<string, P>>, es: seq<Entry<string>>)
    ensures EntryKeys(ValidEntries(ss, es)) == StandingKeys(ss) * EntryKeys(es)
  {
    CommonKeysKeptInEntries(ss, es);
    KeptEntryKeysAreCommon(ss, es);
  }

  lemma CommonKeysKeptInEntries<P>(ss: seq<Standing<string, P>>, es: seq<Entry<string>>)
    ensures StandingKeys(ss) * EntryKeys(es) <= EntryKeys(ValidEntries(ss, es))
  {
    var ve := ValidEntries(ss, es);
    ValidEntriesKeepExactly(ss, es);
    forall k | k in StandingKeys(ss) * EntryKeys(es) ensures k in EntryKeys(ve) {
      var j :| 0 <= j < |es| && es[j].id == k;
      assert es[j] in multiset(ve);
      var j' :| 0 <= j' < |ve| && ve[j'] == es[j];
    }
  }

  lemma KeptEntryKeysAreCommon<P>(ss: seq<Standing<string, P>>, es: seq<Entry<string>>)
    ensures EntryKeys(ValidEntries(ss, es)) <= StandingKeys(ss) * EntryKeys(es)
  {
    var ve := ValidEntries(ss, es);
    ValidEntriesKeepExactly(ss, es);
    forall k | k in EntryKeys(ve) ensures k in StandingKeys(ss) * EntryKeys(es) {
      var j :| 0 <= j < |ve| && ve[j].id == k;
      var j' :| 0 <= j' < |es| && es[j'] == ve[j];
    }
  }

  /**
   * No dangling references: every kept standing's key is the id of some
   * kept entry, and every kept entry's id is the key of some kept standing.
   */
  lemma FilteredSidesMatch<P>(ss: seq<Standing<string, P>>, es: seq<Entry<string>>)
    ensures forall i :: 0 <= i < |ValidStandings(ss, es)| ==>
      ValidStandings(ss, es)[i].leagueEntry in EntryKeys(ValidEntries(ss, es))
    ensures forall j :: 0 <= j < |ValidEntries(ss, es)| ==>
      ValidEntries(ss, es)[j].id in StandingKeys(ValidStandings(ss, es))
  {
    ValidStandingKeys(ss, es);
    ValidEntryKeys(ss, es);
  }

  /**
   * The filtered standings are empty exactly when the filtered entries are,
   * which is exactly when the two key sets share nothing: the two
   * "no valid data" errors always fire together.
   */
  lemma FilteredEmptyTogether<P>(ss: seq<Standing<string, P>>, es: seq<Entry<string>>)
    ensures ValidStandings(ss, es) == [] <==> StandingKeys(ss) * EntryKeys(es) == {}
    ensures ValidEntries(ss, es) == [] <==> StandingKeys(ss) * EntryKeys(es) == {}
  {
    ValidStandingKeys(ss, es);
    ValidEntryKeys(ss, es);
    var vs, ve := ValidStandings(ss, es), ValidEntries(ss, es);
    if vs != [] { assert vs[0].leagueEntry in StandingKeys(vs); }
    if ve != [] { assert ve[0].id in EntryKeys(ve); }
  }

  // ---------------------------------------------------------------------
  // The left merge of the filtered standings with the filtered entries
  // ---------------------------------------------------------------------

  /** The entries whose id equals `key`, in entry order. */
  function MatchesFor(key: string, right: seq<Entry<string>>): seq<Entry<string>>
  {
    Filter(right, (e: Entry<string>) => e.id == key)
  }

  /** One merged row per entry of `m`, each pairing `s` with that entry. */
  function Attach<P>(s: Standing<string, P>, m: seq<Entry<string>>): (r: seq<Row<P>>)
    ensures |r| == |m|
  {
    if m == [] then [] else [Row(s, Some(m[0]))] + Attach(s, m[1..])
  }

  /**
   * The merged rows one standing contributes: one per matching entry, or a
   * single row with no entry columns when nothing matches.
   */
  function RowsFor<P>(s: Standing<string, P>, right: seq<Entry<string>>): seq<Row<P>>
  {
    var m := MatchesFor(s.leagueEntry, right);
    if m == [] then [Row(s, None)] else Attach(s, m)
  }

  /** `left.merge(right, left_on='league_entry', right_on='id', how='left')`. */
  function LeftJoin<P>(left: seq<Standing<string, P>>, right: seq<Entry<string>>): (r: seq<Row<P>>)
    ensures |r| >= |left|
    ensures r == [] <==> left == []
  {
    if left == [] then [] else RowsFor(left[0], right) + LeftJoin(left[1..], right)
  }

  lemma {:induction false} AttachRows<P>(s: Standing<string, P>, m: seq<Entry<string>>)
    ensures forall i :: 0 <= i < |m| ==> Attach(s, m)[i] == Row(s, Some(m[i]))
  {
    if m != [] {
      AttachRows(s, m[1..]);
    }
  }

  /** Each merged row pairs a standing of `left` with an entry carrying its key, or with nothing when no entry does. */
  lemma {:induction false} RowsForAreMatches<P>(s: Standing<string, P>, right: seq<Entry<string>>)
    ensures forall i :: 0 <= i < |RowsFor(s, right)| ==>
      RowsFor(s, right)[i].standing == s &&
      (RowsFor(s, right)[i].entry.Some? ==>
         RowsFor(s, right)[i].entry.value in right &&
         RowsFor(s, right)[i].entry.value.id == s.leagueEntry) &&
      (RowsFor(s, right)[i].entry.None? ==> s.leagueEntry !in EntryKeys(right))
  {
    var m := MatchesFor(s.leagueEntry, right);
    FilterKeepsExactly(right, (e: Entry<string>) => e.id == s.leagueEntry);
    AttachRows(s, m);
    if m == [] {
      forall j | 0 <= j < |right| ensures right[j].id != s.leagueEntry {
        FilterMembership(right, (e: Entry<string>) => e.id == s.leagueEntry, right[j]);
      }
    }
  }

  /**
   * Every merged row carries a standing of `left`; its entry columns, when
   * present, are exactly those of an entry whose id is the standing's key;
   * they are absent only when no entry has that id.
   */
  lemma {:induction false} LeftJoinRowsAreMatches<P>(left: seq<Standing<string, P>>, right: seq<Entry<string>>)
    ensures forall i :: 0 <= i < |LeftJoin(left, right)| ==>
      LeftJoin(left, right)[i].standing in left &&
      (LeftJoin(left, right)[i].entry.Some? ==>
         LeftJoin(left, right)[i].entry.value in right &&
         LeftJoin(left, right)[i].entry.value.id == LeftJoin(left, right)[i].standing.leagueEntry) &&
      (LeftJoin(left, right)[i].entry.None? ==>
         LeftJoin(left, right)[i].standing.leagueEntry !in EntryKeys(right))
  {
    if left != [] {
      LeftJoinRowsAreMatches(left[1..], right);
      RowsForAreMatches(left[0], right);
      var head: seq<Row<P>>, tail: seq<Row<P>> := RowsFor(left[0], right), LeftJoin(left[1..], right);
      assert LeftJoin(left, right) == head + tail;
      forall i | 0 <= i < |head + tail|
        ensures (head + tail)[i].standing in left
      {
        if i >= |head| {
          assert (head + tail)[i] == tail[i - |head|];
          assert tail[i - |head|].standing in left[1..];
        }
      }
    }
  }

  /**
   * The merge is row by row on the left side: the rows of a longer
   * standings table are the rows of its first part followed by those of the
   * rest, so the output follows the standings order.
   */
  lemma {:induction false} LeftJoinAppend<P>(a: seq<Standing<string, P>>, b: seq<Standing<string, P>>, right: seq<Entry<string>>)
    ensures LeftJoin(a + b, right) == LeftJoin(a, right) + LeftJoin(b, right)
  {
    if a == [] {
      assert a + b == b;
    } else {
      assert (a + b)[0] == a[0];
      assert (a + b)[1..] == a[1..] + b;
      LeftJoinAppend(a[1..], b, right);
    }
  }

  lemma {:induction false} AttachCount<P>(s: Standing<string, P>, m: seq<Entry<string>>, e: Entry<string>)
    ensures multiset(Attach(s, m))[Row(s, Some(e))] == multiset(m)[e]
  {
    if m != [] {
      AttachCount(s, m[1..], e);
      assert m == [m[0]] + m[1..];
    }
  }

  lemma RowsForCount<P>(t: Standing<string, P>, right: seq<Entry<string>>, s: Standing<string, P>, e: Entry<string>)
    requires e.id == s.leagueEntry
    ensures multiset(RowsFor(t, right))[Row(s, Some(e))] == if t == s then multiset(right)[e] else 0
  {
    var rows := RowsFor(t, right);
    if t != s {
      RowsForAreMatches(t, right);
      assert Row(s, Some(e)) !in rows;
    } else {
      var keep := (x: Entry<string>) => x.id == s.leagueEntry;
      var m := MatchesFor(s.leagueEntry, right);
      FilterKeepsExactly(right, keep);
      FilterMembership(right, keep, e);
      if e in right {
        var j :| 0 <= j < |right| && right[j] == e;
        assert multiset(m)[e] == multiset(right)[e];
      } else {
        assert multiset(right)[e] == 0;
      }
      if m != [] {
        AttachCount(s, m, e);
      }
    }
  }

  /**
   * The merge emits one row per (standing, matching entry) pair: a standing
   * occurring a times and an entry with its key occurring b times give
   * a * b rows pairing them.
   */
  lemma {:induction false} LeftJoinPairCount<P>(left: seq<Standing<string, P>>, right: seq<Entry<string>>, s: Standing<string, P>, e: Entry<string>)
    requires e.id == s.leagueEntry
    ensures multiset(LeftJoin(left, right))[Row(s, Some(e))] == multiset(left)[s] * multiset(right)[e]
  {
    if left != [] {
      var row := Row(s, Some(e));
      LeftJoinPairCount(left[1..], right, s, e);
      RowsForCount(left[0], right, s, e);
      JoinCountSplit(left, right, row);
      HeadCountSplit(left, s);
      PairCountStep(multiset(left[1..])[s], multiset(right)[e], left[0] == s);
    }
  }

  lemma JoinCountSplit<P>(left: seq<Standing<string, P>>, right: seq<Entry<string>>, row: Row<P>)
    requires left != []
    ensures multiset(LeftJoin(left, right))[row] ==
      multiset(RowsFor(left[0], right))[row] + multiset(LeftJoin(left[1..], right))[row]
  {
    var head, tail := RowsFor(left[0], right), LeftJoin(left[1..], right);
    assert LeftJoin(left, right) == head + tail;
    assert multiset(head + tail) == multiset(head) + multiset(tail);
  }

  lemma HeadCountSplit<T>(xs: seq<T>, x: T)
    requires xs != []
    ensures multiset(xs)[x] == multiset(xs[1..])[x] + (if xs[0] == x then 1 else 0)
  {
    assert xs == [xs[0]] + xs[1..];
    assert multiset(xs) == multiset{xs[0]} + multiset(xs[1..]);
  }

  lemma PairCountStep(a: nat, b: nat, hit: bool)
    ensures (a + (if hit then 1 else 0)) * b == a * b + (if hit then b else 0)
  {
  }

  /**
   * When every standing's key is some entry's id (as after filtering), the
   * left merge is in effect an inner join: every row has its entry columns.
   */
  lemma LeftJoinOfMatchedIsInner<P>(left: seq<Standing<string, P>>, right: seq<Entry<string>>)
    requires forall i :: 0 <= i < |left| ==> left[i].leagueEntry in EntryKeys(right)
    ensures forall i :: 0 <= i < |LeftJoin(left, right)| ==> LeftJoin(left, right)[i].entry.Some?
  {
    LeftJoinRowsAreMatches(left, right);
    forall i | 0 <= i < |LeftJoin(left, right)| ensures LeftJoin(left, right)[i].entry.Some? {
      var j :| 0 <= j < |left| && left[j] == LeftJoin(left, right)[i].standing;
    }
  }

  /** No two entries share an id. */
  predicate DistinctIds(es: seq<Entry<string>>) {
    forall i, j :: 0 <= i < |es| && 0 <= j < |es| && es[i].id == es[j].id ==> i == j
  }

  lemma {:induction false} UniqueMatch(key: string, right: seq<Entry<string>>)
    requires DistinctIds(right) && key in EntryKeys(right)
    ensures |MatchesFor(key, right)| == 1
    ensures MatchesFor(key, right)[0] in right && MatchesFor(key, right)[0].id == key
  {
    var keep := (e: Entry<string>) => e.id == key;
    var rest := right[1..];
    assert DistinctIds(rest) by {
      forall i, j | 0 <= i < |rest| && 0 <= j < |rest| && rest[i].id == rest[j].id ensures i == j {
        assert right[i + 1].id == right[j + 1].id;
      }
    }
    if right[0].id == key {
      FilterKeepsExactly(rest, keep);
      assert Filter(rest, keep) == [];
    } else {
      var j :| 0 <= j < |right| && right[j].id == key;
      assert rest[j - 1].id == key;
      UniqueMatch(key, rest);
    }
  }

  /**
   * With unique entry ids and every standing matched, the merge keeps
   * exactly one row per standing, in standings order, each carrying the
   * entry whose id is that standing's key.
   */
  lemma {:induction false} LeftJoinOneToOne<P>(left: seq<Standing<string, P>>, right: seq<Entry<string>>)
    requires DistinctIds(right)
    requires forall i :: 0 <= i < |left| ==> left[i].leagueEntry in EntryKeys(right)
    ensures |LeftJoin(left, right)| == |left|
    ensures forall i :: 0 <= i < |left| ==>
      LeftJoin(left, right)[i].standing == left[i] &&
      LeftJoin(left, right)[i].entry.Some? &&
      LeftJoin(left, right)[i].entry.value in right &&
      LeftJoin(left, right)[i].entry.value.id == left[i].leagueEntry
  {
    if left != [] {
      LeftJoinOneToOne(left[1..], right);
      UniqueMatch(left[0].leagueEntry, right);
      var m := MatchesFor(left[0].leagueEntry, right);
      assert RowsFor(left[0], right) == [Row(left[0], Some(m[0]))];
    }
  }

  // ---------------------------------------------------------------------
  // Coercion of the `total` column
  // ---------------------------------------------------------------------

  /**
   * `pd.to_numeric(..., errors='coerce').fillna(0)` on one cell: a number
   * stays, a numeral becomes its value, anything else becomes 0.
   */
  function CoerceTotal(t: Total): (n: int)
    ensures t.Num? ==> n == t.n
    ensures t.Text? ==> ParseInt(t.s) == Some(n) || (ParseInt(t.s).None? && n == 0)
    ensures n != 0 ==> t.Num? || (t.Text? && ParseInt(t.s).Some?)
  {
    match t
    case Num(n) => n
    case Text(s) => (match ParseInt(s) case Some(v) => v case None => 0)
    case Missing => 0
  }

  /** A number and its decimal text coerce to the same value. */
  lemma CoerceRenderedNumber(n: int)
    ensures CoerceTotal(Text(Decimal(n))) == n
    ensures CoerceTotal(Text(Decimal(n))) == CoerceTotal(Num(n))
  {
    ParseDecimal(n);
  }

  /**
   * Every numeral `pd.to_numeric` reads as an integer, with an optional
   * sign and any number of leading zeros, coerces to its signed value.
   */
  lemma CoerceSignedNumeral(sign: string, k: nat, n: nat)
    requires sign == "" || sign == "+" || sign == "-"
    ensures CoerceTotal(Text(sign + Zeros(k) + NatDigits(n))) == if sign == "-" then -(n as int) else n
  {
    ParseSignedNumeral(sign, k, n);
  }

  /** Sample cells: "42" is 42, "-7" is -7, "abc", the empty text and a missing cell are 0. */
  lemma CoerceExamples()
    ensures CoerceTotal(Text("42")) == 42
    ensures CoerceTotal(Text("-7")) == -7
    ensures CoerceTotal(Text("abc")) == 0
    ensures CoerceTotal(Text("")) == 0
    ensures CoerceTotal(Missing) == 0
  {
    assert "42"[..1] == "4" && "4"[..0] == "";
    assert DigitsValue("42") == 42;
    assert "-7"[1..] == "7" && "7"[..0] == "";
    assert DigitsValue("7") == 7;
    assert !IsDigit("abc"[0]);
  }

  /**
   * The coerced table: same rows in the same order, every column unchanged
   * except `total`, which holds the coerced value.
   */
  function CoerceTotals(rows: seq<JoinedRow>): (r: seq<ScoredRow>)
    ensures |r| == |rows|
    ensures forall i :: 0 <= i < |rows| ==>
      r[i].entry == rows[i].entry &&
      r[i].standing.leagueEntry == rows[i].standing.leagueEntry &&
      r[i].standing.total == CoerceTotal(rows[i].standing.total) &&
      r[i].standing.matchesWon == rows[i].standing.matchesWon &&
      r[i].standing.matchesLost == rows[i].standing.matchesLost &&
      r[i].standing.matchesDrawn == rows[i].standing.matchesDrawn
  {
    seq(|rows|, i requires 0 <= i < |rows| =>
      var s := rows[i].standing;
      Row(Standing(s.leagueEntry, CoerceTotal(s.total), s.matchesWon, s.matchesLost, s.matchesDrawn),
          rows[i].entry))
  }
}
