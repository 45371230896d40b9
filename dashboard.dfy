/**
 * The dashboard script from the fetched payload to what the page reports:
 * the two mismatch warnings, the two "no valid data" errors, the "merged
 * data is empty" error, and, when the merge produced rows, the coerced
 * standings table, the top-10 selection and the points leader.
 */
module Dashboard {
  import opened Options
  import opened Keys
  import opened Records
  import opened Reconcile
  import opened Ranking

  /** The part of the API payload the script reads. */
  datatype LeagueData = LeagueData(
    name: string,
    entries: seq<Entry<RawId>>,
    standings: seq<Standing<RawId, Total>>)

  /** What the page shows once the merge produced rows. */
  datatype Board = Board(table: seq<ScoredRow>, topScorers: seq<ScoredRow>, leader: Option<ScoredRow>)

  /**
   * Everything the reconciliation reports: the warnings (empty sets are not
   * shown), the error flags, and the board when there is one.
   */
  datatype Report = Report(
    missingInEntries: set<string>,
    missingInStandings: set<string>,
    noValidStandings: bool,
    noValidEntries: bool,
    mergedEmpty: bool,
    board: Option<Board>)

  /** The page: a prompt when the fetch gave nothing, otherwise the league's report. */
  datatype Page = NoData | League(name: string, report: Report)

  /** How many teams the "Top 10 Scoring Teams" chart shows. */
  const TopCount: nat := 10

  /**
   * Normalise both key columns, report the key mismatches, filter both sides
   * to the shared keys, merge when both are non-empty, then coerce `total`
   * and derive the top-10 and the leader.
   */
  function ReconcileLeague(entries: seq<Entry<RawId>>, standings: seq<Standing<RawId, Total>>): (r: Report)
    ensures r.noValidStandings <==> r.noValidEntries
    ensures r.noValidStandings <==>
      StandingKeys(NormaliseStandings(standings)) * EntryKeys(NormaliseEntries(entries)) == {}
    ensures !r.mergedEmpty
    ensures r.board.Some? <==> !r.noValidStandings
    ensures r.board.Some? ==>
      && |r.board.value.table| >= |ValidStandings(NormaliseStandings(standings), NormaliseEntries(entries))|
      && |r.board.value.topScorers| == (if |r.board.value.table| < TopCount then |r.board.value.table| else TopCount)
      && forall i :: 0 <= i < |r.board.value.table| ==>
           r.board.value.table[i].entry.Some? &&
           r.board.value.table[i].entry.value in NormaliseEntries(entries) &&
           r.board.value.table[i].entry.value.id == r.board.value.table[i].standing.leagueEntry
    ensures r.missingInEntries == MissingInEntries(NormaliseStandings(standings), NormaliseEntries(entries))
    ensures r.missingInStandings == MissingInStandings(NormaliseStandings(standings), NormaliseEntries(entries))
    ensures r.board.Some? ==>
      && r.board.value.table == CoerceTotals(LeftJoin(
           ValidStandings(NormaliseStandings(standings), NormaliseEntries(entries)),
           ValidEntries(NormaliseStandings(standings), NormaliseEntries(entries))))
      && r.board.value.topScorers == TopN(r.board.value.table, TopCount)
      && r.board.value.leader == Leader(r.board.value.table)
  {
    var es := NormaliseEntries(entries);
    var ss := NormaliseStandings(standings);
    var vs := ValidStandings(ss, es);
    var ve := ValidEntries(ss, es);
    FilteredEmptyTogether(ss, es);
    var attempted := vs != [] && ve != [];
    var merged := if attempted then LeftJoin(vs, ve) else [];
    var board :=
      if attempted && merged != [] then
        var table := CoerceTotals(merged);
        MergedRowsHaveEntries(ss, es);
        Some(Board(table, TopN(table, TopCount), Leader(table)))
      else None;
    Report(MissingInEntries(ss, es), MissingInStandings(ss, es), vs == [], ve == [],
           attempted && merged == [], board)
  }

  /**
   * Every row of the merge of the filtered sides pairs a kept standing with
   * an input entry carrying its key.
   */
  lemma MergedRowsHaveEntries(ss: seq<Standing<string, Total>>, es: seq<Entry<string>>)
    ensures forall i :: 0 <= i < |LeftJoin(ValidStandings(ss, es), ValidEntries(ss, es))| ==>
      var row := LeftJoin(ValidStandings(ss, es), ValidEntries(ss, es))[i];
      row.entry.Some? && row.entry.value in es && row.entry.value.id == row.standing.leagueEntry
  {
    var vs, ve := ValidStandings(ss, es), ValidEntries(ss, es);
    FilteredSidesMatch(ss, es);
    LeftJoinOfMatchedIsInner(vs, ve);
    LeftJoinRowsAreMatches(vs, ve);
    forall i | 0 <= i < |LeftJoin(vs, ve)| ensures LeftJoin(vs, ve)[i].entry.value in es {
      var e := LeftJoin(vs, ve)[i].entry.value;
      var j :| 0 <= j < |ve| && ve[j] == e;
    }
  }

  /** The whole page: without a payload (a failed fetch) nothing is reconciled. */
  function ShowLeague(data: Option<LeagueData>): (p: Page)
    ensures data.None? <==> p.NoData?
    ensures data.Some? ==>
      p.name == data.value.name && p.report == ReconcileLeague(data.value.entries, data.value.standings)
  {
    match data
    case None => NoData
    case Some(d) => League(d.name, ReconcileLeague(d.entries, d.standings))
  }

  /**
   * With no standings at all, nothing is merged: both error checks fire,
   * no key is missing from the entries, and every entry id is reported as
   * missing from the standings.
   */
  lemma NoStandingsNoBoard(entries: seq<Entry<RawId>>)
    ensures ReconcileLeague(entries, []) ==
      Report({}, EntryKeys(NormaliseEntries(entries)), true, true, false, None)
  {
    assert NormaliseStandings([]) == [];
    assert StandingKeys(NormaliseStandings([])) == {};
  }

  /** How a run of the script as written ends. */
  datatype Outcome = Crashed(missingColumn: string) | Completed(report: Report)

  /**
   * The script exactly as written. A DataFrame built from an empty list has
   * no columns, so selecting `league_entry` (empty standings) or `id` (empty
   * entries) raises before any check runs; otherwise it reconciles.
   */
  function RunAsWritten(entries: seq<Entry<RawId>>, standings: seq<Standing<RawId, Total>>): (o: Outcome)
    ensures o.Crashed? <==> standings == [] || entries == []
    ensures o.Crashed? ==> o.missingColumn == (if standings == [] then "league_entry" else "id")
    ensures o.Completed? ==> o.report == ReconcileLeague(entries, standings)
  {
    if standings == [] then Crashed("league_entry")
    else if entries == [] then Crashed("id")
    else Completed(ReconcileLeague(entries, standings))
  }

  /**
   * The discrepancy: with one entry and no standings the script as written
   * stops on a missing column, where the reconciliation reports that no
   * valid standings remain.
   */
  lemma EmptyStandingsCrashAsWritten()
    ensures
      var entries := [Entry(IntId(7), "A", "", "Ann", "Lee")];
      && RunAsWritten(entries, []) == Crashed("league_entry")
      && ReconcileLeague(entries, []).noValidStandings
      && ReconcileLeague(entries, []).board.None?
  {
    NoStandingsNoBoard([Entry(IntId(7), "A", "", "Ann", "Lee")]);
  }
}
