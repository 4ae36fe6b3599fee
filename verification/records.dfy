/**
 * The `CricketMatch` record of the data module and the constant lists it
 * exports. Closed string unions of the source become enumerations; the
 * `0 | 1` flag fields become the subset type `Flag`.
 */
module Records {

  datatype Format = Test | ODI | T20

  datatype TossDecision = Bat | Field

  type Flag = x: int | 0 <= x <= 1

  /** One completed match. `date` is the `YYYY-MM-DD` text the generator writes. */
  datatype MatchRecord = MatchRecord(
    id: int,
    date: string,
    year: int,
    format: Format,
    venue: string,
    team1: string,
    team2: string,
    tossWinner: string,
    tossDecision: TossDecision,
    matchWinner: string,
    tossWinFlag: Flag,
    matchWinFlag: Flag,
    tossAndMatchWin: Flag)

  /**
   * The structural invariants every generated record satisfies and the
   * team table relies on: two different teams, both winners among them, and
   * the flag recording whether the toss winner also won the match.
   */
  predicate WellFormed(m: MatchRecord)
  {
    && m.team1 != m.team2
    && (m.tossWinner == m.team1 || m.tossWinner == m.team2)
    && (m.matchWinner == m.team1 || m.matchWinner == m.team2)
    && (m.tossAndMatchWin == 1 <==> m.matchWinner == m.tossWinner)
  }

  /** The grouping keys of the year and format tables. */
  function YearOf(m: MatchRecord): int
  {
    m.year
  }

  function FormatOf(m: MatchRecord): Format
  {
    m.format
  }

  /** `allFormats`, also the order of the rows of the format comparison. */
  const AllFormats: seq<Format> := [Test, ODI, T20]

  /** `allYears`: ten consecutive years from 2015. */
  const AllYears: seq<int> := seq(10, i => 2015 + i)

  /** Each format occurs once in `AllFormats`, so every format has one position. */
  lemma AllFormatsComplete(f: Format)
    ensures f in AllFormats
    ensures multiset(AllFormats)[f] == 1
  {
  }

  /** `AllYears` is strictly ascending. */
  lemma AllYearsAscending()
    ensures forall i, j :: 0 <= i < j < |AllYears| ==> AllYears[i] < AllYears[j]
  {
  }

  /** `AllYears` holds exactly the integers `2015..2024`. */
  lemma AllYearsRange(y: int)
    ensures y in AllYears <==> 2015 <= y <= 2024
  {
    if 2015 <= y <= 2024 {
      assert AllYears[y - 2015] == y;
    }
  }
}
