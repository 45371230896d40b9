# Fantasy league standings reconciliation, modelled in Dafny

The dashboard script `Working_OneAPICall.py` fetches a draft league's details
and gets back two record lists. The league entries are teams, each with an
`id`, a team name, a join time and the manager's names. The standings are
score lines, each with a `league_entry` key, a `total` and win/loss/draw
counts. Before it draws anything, the script reconciles the two lists:

1. both join keys are turned into strings;
2. the keys found on one side only are reported as two warnings;
3. each side is filtered down to the keys the other side also has;
4. an error is reported when either filtered side is empty;
5. the filtered standings are left-merged with the filtered entries on
   `league_entry == id`;
6. `total` is coerced to a number, and anything unparseable or missing becomes 0.

From the merged table it then takes the ten rows with the largest `total` and
the "points leader". The leader is the first row holding the largest total,
and it is shown only when that total is positive.

This project models that core as pure functions over sequences and sets:

- `options.dfy` holds `Option`.
- `keys.dfy` (module `Keys`) covers raw keys, the decimal rendering of
  integer ids and the parsing of numeric text.
- `records.dfy` (module `Records`) holds the record and row types.
- `seqs.dfy` (module `Seqs`) models a boolean row mask as an
  order-preserving `Filter`.
- `reconcile.dfy` (module `Reconcile`) covers steps 1 to 6.
- `ranking.dfy` (module `Ranking`) covers `idxmax`, `nlargest` and the leader.
- `dashboard.dfy` (module `Dashboard`) is the script's path from payload to
  report.
- `scenarios.dfy` (module `Scenarios`) is a worked example run through the
  whole path.

The fetch is an `Option<LeagueData>` input. Warnings and errors are fields of
a `Report` value rather than calls to the UI.

The library behaviour the model relies on:

- `merge(how='left')` emits one row per (left row, matching right row) pair,
  in left order and then right order. A left row with no match gives one row
  without entry columns.
- `nlargest(n, 'total')` uses the default `keep='first'`. It returns rows in
  descending order of `total`. On a table longer than n, equal totals keep
  their input order. On a table of at most n rows pandas sorts with an
  unstable sort, so the order among equal totals is unspecified there; the
  model uses input order in both cases. The model builds the selection by
  repeatedly taking the first row with the largest remaining total.
- `idxmax` gives the first position of the maximum. The merge renumbers rows
  from 0, so `loc` at that label is that position.

## Model

| member | source | states |
|---|---|---|
| `Keys.Render` | Working_OneAPICall.py:45-46 | Normalising a string key leaves it unchanged. Normalising an integer key gives its canonical decimal numeral (`Keys.Decimal`), which parses back to the same integer. |
| `Keys.ParseDecimal` | Working_OneAPICall.py:45-46 | Round trip: reading back the decimal rendering of any integer, negative ones included, gives that integer. |
| `Keys.RenderMatches` | Working_OneAPICall.py:44-46 | After normalisation, two integer ids match exactly when they are equal. An integer id matches a string key exactly when the string is its decimal rendering. |
| `Keys.Decimal` | Working_OneAPICall.py:45-46 | An integer renders as a non-empty digit run, with a leading minus sign exactly when it is negative, and with no leading zero except for 0 itself. |
| `Keys.ParseInt` | Working_OneAPICall.py:85 | Text counts as a number exactly when it is an optional sign followed by one or more decimal digits. |
| `Keys.ParseSignedNumeral` | Working_OneAPICall.py:85 | Every accepted text has its value fixed: an optional `+` or `-`, any number of leading zeros and the digits of n read as n, or as -n after a minus sign ("+7" and "007" are 7, "-0" is 0). |
| `Reconcile.NormaliseStandings` | Working_OneAPICall.py:45 | The `league_entry` column is replaced by its string form. Row count, order and every other column are unchanged. |
| `Reconcile.NormaliseEntries` | Working_OneAPICall.py:46 | The `id` column is replaced by its string form. Row count, order and every other column are unchanged. |
| `Reconcile.StandingKeys` | Working_OneAPICall.py:49 | The standings key set holds exactly the keys that occur in some standing row. |
| `Reconcile.EntryKeys` | Working_OneAPICall.py:50 | The entry id set holds exactly the ids that occur in some entry row. |
| `Reconcile.MissingInEntries` | Working_OneAPICall.py:52 | A key is reported exactly when some standing refers to it and no entry has it as id. |
| `Reconcile.MissingInStandings` | Working_OneAPICall.py:53 | An id is reported exactly when some entry has it and no standing refers to it. |
| `Reconcile.MissingIsSymmetricDifference` | Working_OneAPICall.py:49-58 | A key is reported by one of the two warnings exactly when it is a key of one side and not of the other (the symmetric difference), and the two sets are disjoint. Both are empty exactly when the key sets are equal. |
| `Reconcile.ValidStandings` | Working_OneAPICall.py:61 | The `isin` filter on standings: no more rows than the input, each an input row whose key is an entry id. The full characterisation is `ValidStandingsKeepExactly` and `ValidStandingKeys`. |
| `Reconcile.ValidEntries` | Working_OneAPICall.py:62 | The `isin` filter on entries: no more rows than the input, each an input entry whose id is a standing key. The full characterisation is `ValidEntriesKeepExactly` and `ValidEntryKeys`. |
| `Reconcile.ValidStandingsKeepExactly` | Working_OneAPICall.py:61 | The standings filter keeps a row exactly when its key is an entry id. Kept rows keep their multiplicity. Rows with other keys are dropped. The result is an order-preserving subsequence of unchanged input rows. |
| `Seqs.FilterAppend` | Working_OneAPICall.py:61-62 | A boolean mask acts row by row: masking a concatenation gives the concatenation of the masked parts. |
| `Reconcile.ValidEntriesKeepExactly` | Working_OneAPICall.py:62 | The entries filter keeps a row exactly when its id is a standing key, with the same multiplicity, order and unchanged rows. |
| `Reconcile.ValidStandingKeys` | Working_OneAPICall.py:61 | The filtered standings carry exactly the keys the two inputs share. |
| `Reconcile.ValidEntryKeys` | Working_OneAPICall.py:62 | The filtered entries carry exactly the keys the two inputs share. |
| `Reconcile.FilteredSidesMatch` | Working_OneAPICall.py:60-62 | No dangling references: every kept standing's key is a kept entry's id, and every kept entry's id is a kept standing's key. |
| `Reconcile.FilteredEmptyTogether` | Working_OneAPICall.py:64-68 | Each filtered side is empty exactly when the two key sets do not intersect, so the two error checks always fire together. |
| `Reconcile.LeftJoin` | Working_OneAPICall.py:71-75 | The merge is never shorter than the left side, and it is empty exactly when the left side is empty. |
| `Reconcile.LeftJoinRowsAreMatches` | Working_OneAPICall.py:72-75 | Every merged row carries a standing of the left side. Its entry columns, when present, are those of a right-side entry whose id is the standing's key. They are absent only when no entry has that id. |
| `Reconcile.LeftJoinAppend` | Working_OneAPICall.py:72-75 | The merge works row by row on the left side, so output order follows standings order. |
| `Reconcile.LeftJoinPairCount` | Working_OneAPICall.py:72-75 | The merge has one row per (standing, matching entry) pair. A standing occurring a times and a matching entry occurring b times give exactly a*b rows pairing them. |
| `Reconcile.LeftJoinOfMatchedIsInner` | Working_OneAPICall.py:71-75 | When every standing's key is an entry id, as after filtering, every merged row has entry columns, so the left merge acts as an inner join. |
| `Reconcile.UniqueMatch` | Working_OneAPICall.py:72-75 | When entry ids are unique, a key that occurs among them matches exactly one entry. |
| `Reconcile.LeftJoinOneToOne` | Working_OneAPICall.py:72-75 | With unique entry ids and every standing matched, the merge has exactly one row per standing, in standings order. Each row carries the entry whose id is the standing's key. |
| `Reconcile.CoerceTotal` | Working_OneAPICall.py:85 | A number keeps its value. Numeric text becomes its value. Non-numeric text and a missing cell become 0. |
| `Reconcile.CoerceSignedNumeral` | Working_OneAPICall.py:85 | A signed or zero-padded integer numeral coerces to its signed value. |
| `Reconcile.CoerceRenderedNumber` | Working_OneAPICall.py:85 | A number and its decimal text coerce to the same value. |
| `Reconcile.CoerceExamples` | Working_OneAPICall.py:84-85 | "42" gives 42, "-7" gives -7, "abc" and "" give 0, and a missing cell gives 0. |
| `Reconcile.CoerceTotals` | Working_OneAPICall.py:85 | Column replacement: same rows in the same order, only `total` replaced by its coerced value. |
| `Ranking.FirstMaxIndex` | Working_OneAPICall.py:169 | `idxmax` picks a position whose total is the largest and where no earlier row's total is equal or larger. |
| `Ranking.FirstMaxUnique` | Working_OneAPICall.py:169 | That position is unique, so the leader is determined. |
| `Ranking.TopN` | Working_OneAPICall.py:119 | `nlargest` returns min(n, row count) rows, in descending order of total, drawn as a sub-multiset of the input. |
| `Ranking.TopNSelectsLargest` | Working_OneAPICall.py:119 | Every selected row's total is at least every unselected row's total. Unselected rows are the input multiset minus the selection. |
| `Ranking.TopNOfShortTable` | Working_OneAPICall.py:119 | On a table of at most n rows, the selection is a permutation of the whole table. |
| `Ranking.Leader` | Working_OneAPICall.py:168-174 | There is a leader exactly when some total is positive, i.e. the table is non-empty and its maximum is above 0. The leader is the row at the first position of the maximum. |
| `Ranking.LeaderHeadsTopN` | Working_OneAPICall.py:119-169 | When there is a leader, it is the first row of the top-n selection. |
| `Dashboard.ReconcileLeague` | Working_OneAPICall.py:44-174 | For the whole pipeline: <br>• the two "no valid data" errors coincide, and fire exactly when the normalised key sets do not intersect; <br>• the "merged data is empty" error (line 77) never fires; <br>• a board exists exactly when there is valid data; <br>• the table is at least as long as the kept standings, and each row carries an input entry whose id is its key; <br>• the top list has min(10, rows) rows; <br>• the two warnings are `MissingInEntries` and `MissingInStandings` of the normalised lists; <br>• the table is the merge of the two filtered sides with `total` coerced (`CoerceTotals`), the top list is `TopN` of that table and the leader is `Leader` of it. |
| `Dashboard.MergedRowsHaveEntries` | Working_OneAPICall.py:60-75 | Every row of the merge of the filtered sides has entry columns, taken from an input entry whose id is the row's key. |
| `Dashboard.ShowLeague` | Working_OneAPICall.py:24-30 | A failed fetch, i.e. no payload, shows the prompt and reconciles nothing. Otherwise the page shows the league name and the reconciliation of its two lists. |
| `Dashboard.NoStandingsNoBoard` | Working_OneAPICall.py:61-68 | With no standings, both errors fire, nothing is merged, nothing is missing from the entries, and every entry id is reported missing from the standings. |
| `Dashboard.RunAsWritten` | Working_OneAPICall.py:35-46 | For payloads whose records carry every field the script reads, the script as written stops on a missing column exactly when either list is empty: `league_entry` first, then `id`. Otherwise it completes with the reconciliation. |
| `Dashboard.EmptyStandingsCrashAsWritten` | Working_OneAPICall.py:35-45 | Take one entry and no standings. The script as written stops at line 45. The corrected reconciliation reports that no valid standings remain and shows no board. |
| `Scenarios.WorkedExample` | Working_OneAPICall.py:44-85 | The inputs are entries 1 and 2 with integer ids, and standings "1" (total "50") and "3" (total "30"). The warnings are {"3"} and {"2"}. The table is the single row for entry 1 with total 50, which is also the whole top-10 and the leader. |

## Findings

| source | as written | input that shows it | evidently intended | confidence | as-written member | corrected member |
|---|---|---|---|---|---|---|
| Working_OneAPICall.py:35-46 | A DataFrame built from an empty list has no columns. Selecting `league_entry` (line 45) or `id` (line 46) therefore raises before the empty-data checks at lines 64-68 can run. | A league with one entry and an empty `standings` list | Report "No valid standings data available after filtering." and skip the merge and the charts | not executed | `Dashboard.EmptyStandingsCrashAsWritten` (on `Dashboard.RunAsWritten`) | `Dashboard.NoStandingsNoBoard` (on `Dashboard.ReconcileLeague`, which `Dashboard.ShowLeague` uses) |

## Left out

- The HTTP request and the `st.cache_data` memoisation (Working_OneAPICall.py:14-24) are network I/O and a framework cache. The model treats the fetch result as an `Option<LeagueData>` given to `Dashboard.ShowLeague`.
- `Dashboard.ShowLeague`: a 200 response whose JSON body is falsy, or that lacks `league`, `league_entries` or `standings`, is not modelled. Only "payload present" and "payload absent" are distinguished.
- Every Streamlit output call (`st.write`, `st.warning`, `st.error`, `st.dataframe`, `st.metric`, the titles and the text input) is UI. Warnings and errors are fields of `Dashboard.Report` instead.
- The Altair charts (Working_OneAPICall.py:93-165) are rendering: the bar chart sorted by y, the histogram binning, the win/loss/draw charts and the chart sizes. Only the data selections they are given are modelled: the table, `nlargest(10)` and the leader.
- `Reconcile.CoerceTotal`: text is numeric only when it is an optional sign and decimal digits. Fractional, exponent, whitespace-padded, "inf"/"nan" and boolean totals are out of scope. Floating-point parsing is not modelled, so such text coerces to 0 here even where `pd.to_numeric` would return a number.
- `Keys.Render`: only integer and string keys are modelled. Keys that pandas would render as "1.0" (a float column) or "nan" (a missing key) are out of scope.
- `Ranking.LeaderHeadsTopN`: for tables of at most n rows, `nlargest` falls back to an unstable sort, so the source's order among equal totals is unspecified. The model keeps input order, so "the leader heads the top-n" holds in the source only when such a short table has no tie at the maximum.
- `Ranking.TopN`: the `keep='first'` tie order is fixed by the definition, which always takes the first remaining maximum. No separate lemma states it.
- `joined_time` is carried as opaque text, and the league name is only passed through. Standings columns that the script never reads (ranks, points for and against) are not modelled; the merge would carry them unchanged. Entry columns beyond the five modelled in `Records.Entry` are dropped at line 73 before the merge, so they never reach the table.
- `Dashboard.RunAsWritten`: every record carries every field the script reads (`league_entry`, `total` and the win/loss/draw counts; `id`, `entry_name`, `joined_time` and the player names), and `Total.Missing` stands for a JSON null. A non-empty list in which no record has one of those fields would also stop the script as written with a missing column (lines 45-46, 73, 85, or the charts from line 93 on); that case is not modelled.
- The column dtypes pandas chooses (int64 or float64 after coercion, object for keys) are not modelled. Totals are unbounded integers.
