/**
 * The two record kinds the league API returns and the rows the script builds
 * from them. Records are generic in the key type `K` so that the same record
 * can be described before key normalisation (`RawId`) and after (`string`),
 * and standings are generic in the type `P` of their `total` column so that
 * the same row can be described before and after numeric coercion.
 */
module Records {
  import opened Options

  /** One team in the league. `joinedTime` is carried as opaque text. */
  datatype Entry<K> = Entry(
    id: K,
    entryName: string,
    joinedTime: string,
    playerFirstName: string,
    playerLastName: string)

  /** A `total` cell as it arrives: a number, some text, or a JSON null. */
  datatype Total = Num(n: int) | Text(s: string) | Missing

  /** One team's score line; `leagueEntry` refers to an entry's `id`. */
  datatype Standing<K, P> = Standing(
    leagueEntry: K,
    total: P,
    matchesWon: int,
    matchesLost: int,
    matchesDrawn: int)

  /**
   * A row of the merged table: a standing and, when the left join found one,
   * the columns of the matching entry.
   */
  datatype Row<P> = Row(standing: Standing<string, P>, entry: Option<Entry<string>>)

  /** A merged row before the `total` column is coerced. */
  type JoinedRow = Row<Total>

  /** A merged row after coercion: `total` is a number. */
  type ScoredRow = Row<int>

  function Points(row: ScoredRow): int { row.standing.total }
}
