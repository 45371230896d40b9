/**
 * A worked example of the whole reconciliation: entries 1 ("A") and 2 ("B")
 * arrive with integer ids, standings for "1" (total "50") and "3" (total
 * "30") arrive with string keys.
 */
module Scenarios {
  import opened Options
  import opened Keys
  import opened Records
  import opened Seqs
  import opened Reconcile
  import opened Ranking
  import opened Dashboard

  const RawA := Entry(IntId(1), "A", "2023-08-01", "Ann", "Lee")
  const RawB := Entry(IntId(2), "B", "2023-08-02", "Bo", "Kim")
  const Raw1 := Standing(StrId("1"), Text("50"), 3, 1, 0)
  const Raw3 := Standing(StrId("3"), Text("30"), 2, 2, 0)

  const EntryA := Entry("1", "A", "2023-08-01", "Ann", "Lee")
  const EntryB := Entry("2", "B", "2023-08-02", "Bo", "Kim")
  const Standing1 := Standing("1", Text("50"), 3, 1, 0)
  const Standing3 := Standing("3", Text("30"), 2, 2, 0)

  /** The one row of the final table: team A with total 50. */
  const RowA := Row(Standing("1", 50, 3, 1, 0), Some(EntryA))

  lemma ExampleNormalised()
    ensures NormaliseEntries([RawA, RawB]) == [EntryA, EntryB]
    ensures NormaliseStandings([Raw1, Raw3]) == [Standing1, Standing3]
  {
    assert Decimal(1) == "1" && Decimal(2) == "2";
  }

  lemma ExampleKeySets()
    ensures StandingKeys([Standing1, Standing3]) == {"1", "3"}
    ensures EntryKeys([EntryA, EntryB]) == {"1", "2"}
  {
    var ss, es := [Standing1, Standing3], [EntryA, EntryB];
    forall k | k in StandingKeys(ss) ensures k == "1" || k == "3" {
      var i :| 0 <= i < |ss| && ss[i].leagueEntry == k;
    }
    assert ss[0].leagueEntry in StandingKeys(ss) && ss[1].leagueEntry in StandingKeys(ss);
    forall k | k in EntryKeys(es) ensures k == "1" || k == "2" {
      var j :| 0 <= j < |es| && es[j].id == k;
    }
    assert es[0].id in EntryKeys(es) && es[1].id in EntryKeys(es);
  }

  lemma ExampleFiltered()
    ensures ValidStandings([Standing1, Standing3], [EntryA, EntryB]) == [Standing1]
    ensures ValidEntries([Standing1, Standing3], [EntryA, EntryB]) == [EntryA]
  {
    var ss, es := [Standing1, Standing3], [EntryA, EntryB];
    ExampleKeySets();
    var ids, keys := EntryKeys(es), StandingKeys(ss);
    var keepS := (s: Standing<string, Total>) => s.leagueEntry in ids;
    var keepE := (e: Entry<string>) => e.id in keys;
    assert ss[1..] == [Standing3] && es[1..] == [EntryB];
    assert Filter(ss[1..], keepS) == [];
    assert Filter(es[1..], keepE) == [];
  }

  lemma ExampleMerged()
    ensures LeftJoin([Standing1], [EntryA]) == [Row(Standing1, Some(EntryA))]
  {
    assert MatchesFor("1", [EntryA]) == [EntryA];
  }

  lemma ExampleCoerced()
    ensures CoerceTotals([Row(Standing1, Some(EntryA))]) == [RowA]
  {
    assert "50"[..1] == "5" && "5"[..0] == "";
    assert CoerceTotal(Text("50")) == 50;
  }

  lemma ExampleMissing()
    ensures MissingInEntries([Standing1, Standing3], [EntryA, EntryB]) == {"3"}
    ensures MissingInStandings([Standing1, Standing3], [EntryA, EntryB]) == {"2"}
  {
    ExampleKeySets();
    assert {"1", "3"} - {"1", "2"} == {"3"};
    assert {"1", "2"} - {"1", "3"} == {"2"};
  }

  lemma ExampleBoard()
    ensures TopN([RowA], TopCount) == [RowA]
    ensures Leader([RowA]) == Some(RowA)
  {
    assert FirstMaxIndex([RowA]) == 0;
  }

  /**
   * Key 3 is reported missing from the entries and key 2 from the
   * standings; the table is the single row for team A with total 50, which
   * is also the whole top-10 and the leader.
   */
  lemma WorkedExample()
    ensures ReconcileLeague([RawA, RawB], [Raw1, Raw3]) ==
      Report({"3"}, {"2"}, false, false, false, Some(Board([RowA], [RowA], Some(RowA))))
  {
    ExampleNormalised();
    ExampleMissing();
    ExampleFiltered();
    ExampleMerged();
    ExampleCoerced();
    ExampleBoard();
  }
}
