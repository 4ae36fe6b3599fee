/**
 * The three tables built from `computeTossStats`: one row per format, one
 * row per year, one row per team.
 */
module Breakdowns {
  import opened Records
  import opened Seqs
  import opened Decimal
  import opened Rounding
  import opened Aggregation

  // ---------------------------------------------------------------------
  // getFormatComparison
  // ---------------------------------------------------------------------

  datatype FormatRow = FormatRow(
    format: Format,
    totalMatches: nat,
    tossWinPct: real,
    batFirstWinPct: real,
    fieldFirstWinPct: real)

  /** The matches of one format, in input order. */
  function FormatSlice(ms: seq<MatchRecord>, f: Format): seq<MatchRecord>
  {
    Filter(ms, KeyIs(FormatOf, f))
  }

  /** The row of format `f`: its match count and its three percentages to one decimal place. */
  function FormatRowOf(ms: seq<MatchRecord>, f: Format): (row: FormatRow)
    ensures row.format == f
    ensures row.totalMatches == multiset(Map(ms, FormatOf))[f]
    ensures 0.0 <= row.tossWinPct <= 100.0
    ensures 0.0 <= row.batFirstWinPct <= 100.0
    ensures 0.0 <= row.fieldFirstWinPct <= 100.0
    ensures row.totalMatches == 0 ==> row.tossWinPct == 0.0 && row.batFirstWinPct == 0.0 && row.fieldFirstWinPct == 0.0
    ensures var exact := ComputeTossStats(FormatSlice(ms, f)).tossWinPercentage;
      exact - 0.05 < row.tossWinPct <= exact + 0.05
    ensures var exact := ComputeTossStats(FormatSlice(ms, f)).batFirstWinPct;
      exact - 0.05 < row.batFirstWinPct <= exact + 0.05
    ensures var exact := ComputeTossStats(FormatSlice(ms, f)).fieldFirstWinPct;
      exact - 0.05 < row.fieldFirstWinPct <= exact + 0.05
    ensures OnGrid(row.tossWinPct, 10) && OnGrid(row.batFirstWinPct, 10) && OnGrid(row.fieldFirstWinPct, 10)
  {
    var stats := ComputeTossStats(FormatSlice(ms, f));
    FilterKeyMultiset(ms, FormatOf, f);
    OneDecimal(stats.tossWinPercentage);
    OneDecimal(stats.batFirstWinPct);
    OneDecimal(stats.fieldFirstWinPct);
    FormatRow(
      f,
      stats.totalMatches,
      RoundTo(stats.tossWinPercentage, 10),
      RoundTo(stats.batFirstWinPct, 10),
      RoundTo(stats.fieldFirstWinPct, 10))
  }

  /**
   * A percentage rounded to one decimal place stays a percentage, is a whole
   * number of tenths within half a tenth of `p`, and 0 stays 0. By
   * `RoundToUnique`, the last two facts leave no other value.
   */
  lemma OneDecimal(p: real)
    requires 0.0 <= p <= 100.0
    ensures 0.0 <= RoundTo(p, 10) <= 100.0
    ensures p - 0.05 < RoundTo(p, 10) <= p + 0.05
    ensures OnGrid(RoundTo(p, 10), 10)
    ensures p == 0.0 ==> RoundTo(p, 10) == 0.0
  {
    RoundToClose(p, 10);
    RoundToOnGrid(p, 10);
    RoundToWithin(p, 10, 0, 100);
    if p == 0.0 {
      RoundToWithin(p, 10, 0, 0);
    }
  }

  function FormatRows(ms: seq<MatchRecord>, fs: seq<Format>): (rows: seq<FormatRow>)
    ensures |rows| == |fs|
    ensures forall i :: 0 <= i < |fs| ==> rows[i] == FormatRowOf(ms, fs[i])
    decreases |fs|
  {
    if |fs| == 0 then [] else [FormatRowOf(ms, fs[0])] + FormatRows(ms, fs[1..])
  }

  /** `getFormatComparison`: one row per format, in the order Test, ODI, T20. */
  function FormatComparison(ms: seq<MatchRecord>): (rows: seq<FormatRow>)
    ensures |rows| == |AllFormats|
    ensures forall i :: 0 <= i < |rows| ==> rows[i].format == AllFormats[i]
    ensures forall i :: 0 <= i < |rows| ==> rows[i] == FormatRowOf(ms, rows[i].format)
  {
    FormatRows(ms, AllFormats)
  }

  /** The three format rows account for every match exactly once. */
  lemma FormatComparisonTotal(ms: seq<MatchRecord>)
    ensures var rows := FormatComparison(ms);
      rows[0].totalMatches + rows[1].totalMatches + rows[2].totalMatches == |ms|
  {
    forall i | 0 <= i < |ms|
      ensures FormatOf(ms[i]) in AllFormats
    {
      AllFormatsComplete(FormatOf(ms[i]));
    }
    CountsOverCover(ms, FormatOf, AllFormats);
    assert AllFormats[1..] == [ODI, T20] && [ODI, T20][1..] == [T20] && [T20][1..] == [];
    assert CountsOver(ms, FormatOf, [T20]) == |Filter(ms, KeyIs(FormatOf, T20))|;
    FilterKeyMultiset(ms, FormatOf, Test);
    FilterKeyMultiset(ms, FormatOf, ODI);
    FilterKeyMultiset(ms, FormatOf, T20);
  }

  // ---------------------------------------------------------------------
  // getYearlyTrend
  // ---------------------------------------------------------------------

  datatype YearRow = YearRow(year: int, tossWinPct: real, matches: nat)

  /** The default order of `Array.prototype.sort`: by `String(year)`, character by character. */
  predicate YearBefore(a: int, b: int)
  {
    LexLess(NumberToString(a), NumberToString(b))
  }

  lemma YearBeforeIsStrict()
    ensures StrictOrder(YearBefore)
  {
    forall a, b | YearBefore(a, b)
      ensures !YearBefore(b, a)
    {
      LexLessAsymmetric(NumberToString(a), NumberToString(b));
    }
    forall a, b, c | YearBefore(a, b) && YearBefore(b, c)
      ensures YearBefore(a, c)
    {
      LexLessTransitive(NumberToString(a), NumberToString(b), NumberToString(c));
    }
  }

  /** `[...new Set(years)].sort()`: the distinct years, in string order. */
  function SortedYears(ms: seq<MatchRecord>): (ys: seq<int>)
    ensures Distinct(ys)
    ensures SortedBy(ys, YearBefore)
    ensures forall i :: 0 <= i < |ys| ==> exists j :: 0 <= j < |ms| && ms[j].year == ys[i]
    ensures forall j :: 0 <= j < |ms| ==> ms[j].year in ys
  {
    var years := Map(ms, YearOf);
    var d := Dedup(years);
    var ys := SortBy(d, YearBefore);
    SortByDistinct(d, YearBefore);
    YearBeforeIsStrict();
    SortBySorted(d, YearBefore);
    SortByMembers(d, YearBefore);
    DedupMembers(years);
    SameMembers(years, d, ys);
    YearsOccur(ms, years, ys);
    ys
  }

  /** A list holding exactly the years of the matches lists every match's year, and nothing else. */
  lemma YearsOccur(ms: seq<MatchRecord>, years: seq<int>, ys: seq<int>)
    requires years == Map(ms, YearOf)
    requires forall i :: 0 <= i < |ys| ==> ys[i] in years
    requires forall j :: 0 <= j < |years| ==> years[j] in ys
    ensures forall i :: 0 <= i < |ys| ==> exists j :: 0 <= j < |ms| && ms[j].year == ys[i]
    ensures forall j :: 0 <= j < |ms| ==> ms[j].year in ys
  {
    forall i | 0 <= i < |ys|
      ensures exists j :: 0 <= j < |ms| && ms[j].year == ys[i]
    {
      assert ys[i] in years;
      var j :| 0 <= j < |years| && years[j] == ys[i];
      assert 0 <= j < |ms| && ms[j].year == ys[i];
    }
    assert forall i :: 0 <= i < |ys| ==> exists j :: 0 <= j < |ms| && ms[j].year == ys[i];
    forall j | 0 <= j < |ms|
      ensures ms[j].year in ys
    {
      assert years[j] == ms[j].year;
    }
  }

  /** The row of year `y`: its match count and its toss-win percentage to one decimal place. */
  function YearRowOf(ms: seq<MatchRecord>, y: int): (row: YearRow)
    ensures row.year == y
    ensures row.matches == multiset(Map(ms, YearOf))[y]
    ensures 0.0 <= row.tossWinPct <= 100.0
    ensures var exact := ComputeTossStats(Filter(ms, KeyIs(YearOf, y))).tossWinPercentage;
      exact - 0.05 < row.tossWinPct <= exact + 0.05
    ensures OnGrid(row.tossWinPct, 10)
  {
    var stats := ComputeTossStats(Filter(ms, KeyIs(YearOf, y)));
    FilterKeyMultiset(ms, YearOf, y);
    OneDecimal(stats.tossWinPercentage);
    YearRow(y, RoundTo(stats.tossWinPercentage, 10), stats.totalMatches)
  }

  function YearRows(ms: seq<MatchRecord>, ys: seq<int>): (rows: seq<YearRow>)
    ensures |rows| == |ys|
    ensures forall i :: 0 <= i < |ys| ==> rows[i].year == ys[i]
    ensures forall i :: 0 <= i < |ys| ==> rows[i] == YearRowOf(ms, ys[i])
    decreases |ys|
  {
    if |ys| == 0 then [] else [YearRowOf(ms, ys[0])] + YearRows(ms, ys[1..])
  }

  function YearMatches(row: YearRow): int
  {
    row.matches
  }

  /** `getYearlyTrend`: one row per year that occurs, earlier rows having the smaller `String(year)`. */
  function YearlyTrend(ms: seq<MatchRecord>): (rows: seq<YearRow>)
    ensures |rows| == |set j | 0 <= j < |ms| :: ms[j].year|
    ensures forall i :: 0 <= i < |rows| ==> rows[i] == YearRowOf(ms, rows[i].year)
    ensures forall i :: 0 <= i < |rows| ==> rows[i].matches >= 1
    ensures (set i | 0 <= i < |rows| :: rows[i].year) == (set j | 0 <= j < |ms| :: ms[j].year)
    ensures forall i, j :: 0 <= i < j < |rows| ==>
      LexLess(NumberToString(rows[i].year), NumberToString(rows[j].year))
  {
    var ys := SortedYears(ms);
    YearCount(ms, ys);
    YearRowsOccur(ms, ys);
    YearRowsYears(ms, ys, YearRows(ms, ys));
    YearRowsAscending(ms, ys);
    YearRows(ms, ys)
  }

  /** Every listed year is the year of some match, so its row counts at least one match. */
  lemma YearRowsOccur(ms: seq<MatchRecord>, ys: seq<int>)
    requires forall i :: 0 <= i < |ys| ==> exists j :: 0 <= j < |ms| && ms[j].year == ys[i]
    ensures forall i :: 0 <= i < |ys| ==> YearRows(ms, ys)[i].matches >= 1
  {
    var rows := YearRows(ms, ys);
    forall i | 0 <= i < |ys|
      ensures rows[i].matches >= 1
    {
      assert rows[i] == YearRowOf(ms, ys[i]);
      YearOccurs(ms, ys[i]);
    }
  }

  /** A year some match has occurs among the years of the matches. */
  lemma YearOccurs(ms: seq<MatchRecord>, y: int)
    requires exists j :: 0 <= j < |ms| && ms[j].year == y
    ensures multiset(Map(ms, YearOf))[y] >= 1
  {
    var j :| 0 <= j < |ms| && ms[j].year == y;
    var years := Map(ms, YearOf);
    assert years[j] == y;
    assert y in multiset(years);
  }

  /** The rows carry exactly the years of the matches. */
  lemma YearRowsYears(ms: seq<MatchRecord>, ys: seq<int>, rows: seq<YearRow>)
    requires forall i :: 0 <= i < |ys| ==> exists j :: 0 <= j < |ms| && ms[j].year == ys[i]
    requires forall j :: 0 <= j < |ms| ==> ms[j].year in ys
    requires |rows| == |ys| && forall i :: 0 <= i < |ys| ==> rows[i].year == ys[i]
    ensures (set i | 0 <= i < |rows| :: rows[i].year) == (set j | 0 <= j < |ms| :: ms[j].year)
  {
    var found := set i | 0 <= i < |ys| :: rows[i].year;
    var years := set j | 0 <= j < |ms| :: ms[j].year;
    forall y | y in found
      ensures y in years
    {
      var i :| 0 <= i < |ys| && rows[i].year == y;
      assert exists j :: 0 <= j < |ms| && ms[j].year == ys[i];
      var j :| 0 <= j < |ms| && ms[j].year == ys[i];
    }
    forall y | y in years
      ensures y in found
    {
      var j :| 0 <= j < |ms| && ms[j].year == y;
      assert y in ys;
      var i :| 0 <= i < |ys| && ys[i] == y;
      assert rows[i].year == y;
    }
  }

  /** Sorted without inversions and free of duplicates, the years strictly ascend in string order. */
  lemma YearRowsAscending(ms: seq<MatchRecord>, ys: seq<int>)
    requires Distinct(ys) && SortedBy(ys, YearBefore)
    ensures forall i, j :: 0 <= i < j < |ys| ==>
      LexLess(NumberToString(YearRows(ms, ys)[i].year), NumberToString(YearRows(ms, ys)[j].year))
  {
    var rows := YearRows(ms, ys);
    YearsAscending(ys);
    forall i, j | 0 <= i < j < |ys|
      ensures LexLess(NumberToString(rows[i].year), NumberToString(rows[j].year))
    {
      assert rows[i].year == ys[i] && rows[j].year == ys[j];
      assert YearBefore(ys[i], ys[j]);
    }
  }

  /** Distinct years with no inversion are strictly ascending. */
  lemma YearsAscending(ys: seq<int>)
    requires Distinct(ys) && SortedBy(ys, YearBefore)
    ensures forall i, j :: 0 <= i < j < |ys| ==> YearBefore(ys[i], ys[j])
  {
    forall i, j | 0 <= i < j < |ys|
      ensures YearBefore(ys[i], ys[j])
    {
      assert !YearBefore(ys[j], ys[i]);
      NumberToStringInjective(ys[i], ys[j]);
      LexLessTotal(NumberToString(ys[i]), NumberToString(ys[j]));
    }
  }

  /** The distinct years found are exactly the set of years of the matches. */
  lemma YearCount(ms: seq<MatchRecord>, ys: seq<int>)
    requires Distinct(ys)
    requires forall i :: 0 <= i < |ys| ==> exists j :: 0 <= j < |ms| && ms[j].year == ys[i]
    requires forall j :: 0 <= j < |ms| ==> ms[j].year in ys
    ensures |ys| == |set j | 0 <= j < |ms| :: ms[j].year|
  {
    DistinctCard(ys);
    var years := set j | 0 <= j < |ms| :: ms[j].year;
    forall y | y in years
      ensures y in ys
    {
      var j :| 0 <= j < |ms| && ms[j].year == y;
    }
    forall y | y in ys
      ensures y in years
    {
      var i :| 0 <= i < |ys| && ys[i] == y;
      var j :| 0 <= j < |ms| && ms[j].year == ys[i];
    }
    assert (set y | y in ys) == years;
  }

  /** Different integers print differently. */
  lemma NumberToStringInjective(a: int, b: int)
    ensures NumberToString(a) == NumberToString(b) ==> a == b
  {
    SignShows(a);
    SignShows(b);
  }

  /** `String(n)` starts with `-` exactly for negative `n`, and the rest reads back as `|n|`. */
  lemma SignShows(n: int)
    ensures NumberToString(n)[0] == '-' <==> n < 0
    ensures var s := NumberToString(n);
      var digits := if n < 0 then s[1..] else s;
      AllDigits(digits) && Value(digits) == (if n < 0 then -n else n)
  {
    var m := if n < 0 then -n else n;
    ValueOfNatToString(m);
    assert IsDigit(NatToString(m)[0]);
    if n < 0 {
      assert NumberToString(n)[1..] == NatToString(m);
    }
  }

  /** With four-digit years, string order is chronological: the rows run from the earliest year to the latest. */
  lemma YearlyTrendChronological(ms: seq<MatchRecord>)
    requires forall j :: 0 <= j < |ms| ==> 1000 <= ms[j].year <= 9999
    ensures var rows := YearlyTrend(ms);
      forall i, j :: 0 <= i < j < |rows| ==> rows[i].year < rows[j].year
  {
    var rows := YearlyTrend(ms);
    forall i | 0 <= i < |rows|
      ensures 1000 <= rows[i].year <= 9999
    {
      assert rows[i] == YearRowOf(ms, rows[i].year);
      FoundYearInRange(ms, rows[i].year);
    }
    ChronologicalRows(rows);
  }

  /** Rows in string order of their four-digit years are in numeric order. */
  lemma ChronologicalRows(rows: seq<YearRow>)
    requires forall i :: 0 <= i < |rows| ==> 1000 <= rows[i].year <= 9999
    requires forall i, j :: 0 <= i < j < |rows| ==>
      LexLess(NumberToString(rows[i].year), NumberToString(rows[j].year))
    ensures forall i, j :: 0 <= i < j < |rows| ==> rows[i].year < rows[j].year
  {
    assert Pow10(3) == 1000 && Pow10(4) == 10000;
    forall i, j | 0 <= i < j < |rows|
      ensures rows[i].year < rows[j].year
    {
      NatToStringOrder(rows[i].year, rows[j].year, 4);
    }
  }

  /** A year that has a row is the year of some match. */
  lemma FoundYearInRange(ms: seq<MatchRecord>, y: int)
    requires forall j :: 0 <= j < |ms| ==> 1000 <= ms[j].year <= 9999
    requires multiset(Map(ms, YearOf))[y] >= 1
    ensures 1000 <= y <= 9999
  {
    var years := Map(ms, YearOf);
    assert y in years;
    var j :| 0 <= j < |years| && years[j] == y;
  }

  /** The year rows account for every match exactly once. */
  lemma YearlyTrendTotal(ms: seq<MatchRecord>)
    ensures SumBy(YearlyTrend(ms), YearMatches) == |ms|
  {
    var ys := SortedYears(ms);
    CountsOverCover(ms, YearOf, ys);
    YearRowsSum(ms, ys);
  }

  lemma {:induction false} YearRowsSum(ms: seq<MatchRecord>, ys: seq<int>)
    ensures SumBy(YearRows(ms, ys), YearMatches) == CountsOver(ms, YearOf, ys)
    decreases |ys|
  {
    if |ys| != 0 {
      YearRowsSum(ms, ys[1..]);
      FilterKeyMultiset(ms, YearOf, ys[0]);
      assert YearRows(ms, ys)[1..] == YearRows(ms, ys[1..]);
    }
  }

  // ---------------------------------------------------------------------
  // getTeamStats
  // ---------------------------------------------------------------------

  datatype TeamRow = TeamRow(
    team: string,
    matches: nat,
    tossWins: nat,
    tossWinMatchWin: nat,
    tossWinPct: real)

  /** `m.team1 === team || m.team2 === team`. */
  function Involves(team: string): MatchRecord -> bool
  {
    (m: MatchRecord) => m.team1 == team || m.team2 == team
  }

  /** `m.tossWinner === team`. */
  function WonTossBy(team: string): MatchRecord -> bool
  {
    (m: MatchRecord) => m.tossWinner == team
  }

  /** `m.matchWinner === team`. */
  function WonMatchBy(team: string): MatchRecord -> bool
  {
    (m: MatchRecord) => m.matchWinner == team
  }

  /** `Math.round((wins / tosses) * 1000) / 10`, or 0 with no tosses won. */
  function TeamPct(wins: nat, tosses: nat): (r: real)
    requires wins <= tosses
    ensures tosses == 0 ==> r == 0.0
    ensures 0.0 <= r <= 100.0
    ensures tosses > 0 ==> Percentage(wins, tosses) - 0.05 < r <= Percentage(wins, tosses) + 0.05
    ensures OnGrid(r, 10)
    ensures r == RoundTo(Percentage(wins, tosses), 10)
  {
    if tosses == 0 then 0.0
    else
      var y := (wins as real / tosses as real) * 1000.0;
      TeamPctBounds(wins, tosses, y);
      TeamPctRounding(wins, tosses, y);
      RoundHalfUp(y) as real / 10.0
  }

  lemma TeamPctBounds(wins: nat, tosses: nat, y: real)
    requires 0 < tosses && wins <= tosses
    requires y == (wins as real / tosses as real) * 1000.0
    ensures 0.0 <= RoundHalfUp(y) as real / 10.0 <= 100.0
    ensures Percentage(wins, tosses) - 0.05 < RoundHalfUp(y) as real / 10.0 <= Percentage(wins, tosses) + 0.05
  {
    var q := wins as real / tosses as real;
    assert q * tosses as real == wins as real;
    assert 0.0 <= q <= 1.0;
    RoundHalfUpWithin(y, 0, 1000);
    assert Percentage(wins, tosses) == q * 100.0;
  }

  /** Scaling by 1000 and dividing by 10 is the one-decimal rounding of the percentage. */
  lemma TeamPctRounding(wins: nat, tosses: nat, y: real)
    requires 0 < tosses && wins <= tosses
    requires y == (wins as real / tosses as real) * 1000.0
    ensures Percentage(wins, tosses) * 10.0 == y
    ensures RoundHalfUp(y) as real / 10.0 == RoundTo(Percentage(wins, tosses), 10)
  {
    var q := wins as real / tosses as real;
    assert Percentage(wins, tosses) == q * 100.0;
    RoundToUnfold(Percentage(wins, tosses), 10, 10.0);
  }

  /** The row of `team`: the matches it played, the tosses it won in them, and how many of those it went on to win. */
  function TeamRowOf(ms: seq<MatchRecord>, team: string): (row: TeamRow)
    ensures row.team == team
    ensures row.matches == |Filter(ms, Involves(team))|
    ensures row.tossWins == |Filter(ms, WonTossIn(team))|
    ensures row.tossWinMatchWin == |Filter(ms, WonBothIn(team))|
    ensures row.tossWinMatchWin <= row.tossWins <= row.matches
    ensures row.tossWins == 0 ==> row.tossWinPct == 0.0
    ensures 0.0 <= row.tossWinPct <= 100.0
    ensures row.tossWins > 0 ==>
      Percentage(row.tossWinMatchWin, row.tossWins) - 0.05 < row.tossWinPct
      <= Percentage(row.tossWinMatchWin, row.tossWins) + 0.05
    ensures OnGrid(row.tossWinPct, 10)
  {
    var teamMatches := Filter(ms, Involves(team));
    var tossWins := Filter(teamMatches, WonTossBy(team));
    var tossWinMatchWin := |Filter(tossWins, WonMatchBy(team))|;
    FilterFilter(ms, Involves(team), WonTossBy(team), WonTossIn(team));
    FilterFilter(ms, WonTossIn(team), WonMatchBy(team), WonBothIn(team));
    TeamRow(team, |teamMatches|, |tossWins|, tossWinMatchWin, TeamPct(tossWinMatchWin, |tossWins|))
  }

  function TeamRows(ms: seq<MatchRecord>, teams: seq<string>): (rows: seq<TeamRow>)
    ensures |rows| == |teams|
    ensures forall i :: 0 <= i < |teams| ==> rows[i].team == teams[i]
    ensures forall i :: 0 <= i < |teams| ==> rows[i] == TeamRowOf(ms, teams[i])
    decreases |teams|
  {
    if |teams| == 0 then [] else [TeamRowOf(ms, teams[0])] + TeamRows(ms, teams[1..])
  }

  /** Both team names of every match, in match order, `team1` before `team2`. */
  function TeamNames(ms: seq<MatchRecord>): (names: seq<string>)
    ensures |names| == 2 * |ms|
    ensures forall j :: 0 <= j < |ms| ==> names[2 * j] == ms[j].team1 && names[2 * j + 1] == ms[j].team2
    decreases |ms|
  {
    if |ms| == 0 then [] else [ms[0].team1, ms[0].team2] + TeamNames(ms[1..])
  }

  /** The teams of `teamSet`, in the order the `forEach` first adds them. */
  function DiscoveredTeams(ms: seq<MatchRecord>): seq<string>
  {
    Dedup(TeamNames(ms))
  }

  /** Every team that plays in some match. */
  function TeamSet(ms: seq<MatchRecord>): set<string>
  {
    (set j | 0 <= j < |ms| :: ms[j].team1) + (set j | 0 <= j < |ms| :: ms[j].team2)
  }

  /** `(a, b) => b.matches - a.matches`: rows with more matches come first. */
  predicate MoreMatches(a: TeamRow, b: TeamRow)
  {
    a.matches > b.matches
  }

  function RowMatches(row: TeamRow): int
  {
    row.matches
  }

  /** `getTeamStats`: one row per team, most matches first. */
  function TeamStats(ms: seq<MatchRecord>): (rows: seq<TeamRow>)
    ensures |rows| == |TeamSet(ms)|
    ensures (set i | 0 <= i < |rows| :: rows[i].team) == TeamSet(ms)
    ensures forall i, j :: 0 <= i < j < |rows| ==> rows[i].team != rows[j].team
    ensures forall i :: 0 <= i < |rows| ==> rows[i] == TeamRowOf(ms, rows[i].team)
    ensures forall i, j :: 0 <= i < j < |rows| ==> rows[i].matches >= rows[j].matches
  {
    var teams := DiscoveredTeams(ms);
    var unsorted := TeamRows(ms, teams);
    var rows := SortBy(unsorted, MoreMatches);
    DiscoveredTeamSet(ms);
    RankOrderIsStrict(MoreMatches, RowMatches);
    SortBySorted(unsorted, MoreMatches);
    SortedRowsFacts(ms, teams, unsorted, rows);
    rows
  }

  /** The discovered teams are the team set, each once. */
  lemma DiscoveredTeamSet(ms: seq<MatchRecord>)
    ensures Distinct(DiscoveredTeams(ms))
    ensures (set t | t in DiscoveredTeams(ms)) == TeamSet(ms)
    ensures |DiscoveredTeams(ms)| == |TeamSet(ms)|
  {
    var names := TeamNames(ms);
    var teams := DiscoveredTeams(ms);
    forall t | t in teams
      ensures t in TeamSet(ms)
    {
      var k :| 0 <= k < |names| && names[k] == t;
      var j := k / 2;
      assert 0 <= j < |ms| && (k == 2 * j || k == 2 * j + 1);
      if k == 2 * j {
        assert t == ms[j].team1;
        assert t in (set j | 0 <= j < |ms| :: ms[j].team1);
      } else {
        assert t == ms[j].team2;
        assert t in (set j | 0 <= j < |ms| :: ms[j].team2);
      }
    }
    forall t | t in TeamSet(ms)
      ensures t in teams
    {
      var j :| 0 <= j < |ms| && (ms[j].team1 == t || ms[j].team2 == t);
      if ms[j].team1 == t {
        assert names[2 * j] == t;
      } else {
        assert names[2 * j + 1] == t;
      }
    }
    DistinctCard(teams);
  }

  /** What sorting keeps: the multiset of rows, so the row of every team; and what it adds: the order. */
  lemma SortedRowsFacts(ms: seq<MatchRecord>, teams: seq<string>, unsorted: seq<TeamRow>, rows: seq<TeamRow>)
    requires Distinct(teams) && (set t | t in teams) == TeamSet(ms) && |teams| == |TeamSet(ms)|
    requires |unsorted| == |teams|
    requires forall i :: 0 <= i < |teams| ==> unsorted[i].team == teams[i]
    requires forall i :: 0 <= i < |teams| ==> unsorted[i] == TeamRowOf(ms, teams[i])
    requires multiset(rows) == multiset(unsorted)
    requires SortedBy(rows, MoreMatches)
    ensures |rows| == |TeamSet(ms)|
    ensures (set i | 0 <= i < |rows| :: rows[i].team) == TeamSet(ms)
    ensures forall i, j :: 0 <= i < j < |rows| ==> rows[i].team != rows[j].team
    ensures forall i :: 0 <= i < |rows| ==> rows[i] == TeamRowOf(ms, rows[i].team)
    ensures forall i, j :: 0 <= i < j < |rows| ==> rows[i].matches >= rows[j].matches
  {
    assert |rows| == |multiset(rows)| == |multiset(unsorted)| == |unsorted|;
    forall i | 0 <= i < |rows|
      ensures rows[i] in unsorted
    {
      assert rows[i] in multiset(unsorted);
    }
    forall k | 0 <= k < |unsorted|
      ensures unsorted[k] in rows
    {
      assert unsorted[k] in multiset(rows);
    }
    RowsOfTeams(ms, teams, unsorted, rows);
    RowTeamsDistinct(teams, unsorted, rows);
    forall i, j | 0 <= i < j < |rows|
      ensures rows[i].matches >= rows[j].matches
    {
      assert !MoreMatches(rows[j], rows[i]);
    }
  }

  /** Rows drawn from the rows of `teams` carry the row of their own team, and together name every team. */
  lemma RowsOfTeams(ms: seq<MatchRecord>, teams: seq<string>, unsorted: seq<TeamRow>, rows: seq<TeamRow>)
    requires (set t | t in teams) == TeamSet(ms)
    requires |unsorted| == |teams|
    requires forall i :: 0 <= i < |teams| ==> unsorted[i].team == teams[i]
    requires forall i :: 0 <= i < |teams| ==> unsorted[i] == TeamRowOf(ms, teams[i])
    requires forall i :: 0 <= i < |rows| ==> rows[i] in unsorted
    requires forall k :: 0 <= k < |unsorted| ==> unsorted[k] in rows
    ensures (set i | 0 <= i < |rows| :: rows[i].team) == TeamSet(ms)
    ensures forall i :: 0 <= i < |rows| ==> rows[i] == TeamRowOf(ms, rows[i].team)
  {
    RowsAreTeamRows(ms, teams, unsorted, rows);
    TeamsHaveRows(ms, teams, unsorted, rows);
  }

  /** Every sorted row is the row of one of the teams. */
  lemma RowsAreTeamRows(ms: seq<MatchRecord>, teams: seq<string>, unsorted: seq<TeamRow>, rows: seq<TeamRow>)
    requires (set t | t in teams) == TeamSet(ms)
    requires |unsorted| == |teams|
    requires forall i :: 0 <= i < |teams| ==> unsorted[i] == TeamRowOf(ms, teams[i])
    requires forall i :: 0 <= i < |rows| ==> rows[i] in unsorted
    ensures forall i :: 0 <= i < |rows| ==> rows[i] == TeamRowOf(ms, rows[i].team) && rows[i].team in TeamSet(ms)
  {
    forall i | 0 <= i < |rows|
      ensures rows[i] == TeamRowOf(ms, rows[i].team) && rows[i].team in TeamSet(ms)
    {
      var a :| 0 <= a < |unsorted| && unsorted[a] == rows[i];
      assert teams[a] in (set t | t in teams);
    }
  }

  /** Every team has its row among the sorted rows. */
  lemma TeamsHaveRows(ms: seq<MatchRecord>, teams: seq<string>, unsorted: seq<TeamRow>, rows: seq<TeamRow>)
    requires (set t | t in teams) == TeamSet(ms)
    requires |unsorted| == |teams|
    requires forall i :: 0 <= i < |teams| ==> unsorted[i].team == teams[i]
    requires forall k :: 0 <= k < |unsorted| ==> unsorted[k] in rows
    ensures forall t :: t in TeamSet(ms) ==> t in (set i | 0 <= i < |rows| :: rows[i].team)
  {
    forall t | t in TeamSet(ms)
      ensures t in (set i | 0 <= i < |rows| :: rows[i].team)
    {
      assert t in (set t | t in teams);
      var a :| 0 <= a < |teams| && teams[a] == t;
      var i :| 0 <= i < |rows| && rows[i] == unsorted[a];
      assert rows[i].team == t;
    }
  }

  /** Rows drawn one-for-one from the rows of distinct teams name each team once. */
  lemma RowTeamsDistinct(teams: seq<string>, unsorted: seq<TeamRow>, rows: seq<TeamRow>)
    requires Distinct(teams)
    requires |unsorted| == |teams|
    requires forall i :: 0 <= i < |teams| ==> unsorted[i].team == teams[i]
    requires multiset(rows) == multiset(unsorted)
    ensures forall i, j :: 0 <= i < j < |rows| ==> rows[i].team != rows[j].team
  {
    forall i, j | 0 <= i < j < |rows|
      ensures rows[i].team != rows[j].team
    {
      assert rows[i] in multiset(unsorted) && rows[j] in multiset(unsorted);
      var a :| 0 <= a < |unsorted| && unsorted[a] == rows[i];
      var b :| 0 <= b < |unsorted| && unsorted[b] == rows[j];
      DistinctRows(teams, unsorted);
      DistinctMultiplicity(unsorted, rows[i]);
      MultiplicityTwo(rows, i, j);
    }
  }

  lemma DistinctRows(teams: seq<string>, unsorted: seq<TeamRow>)
    requires Distinct(teams)
    requires |unsorted| == |teams|
    requires forall i :: 0 <= i < |teams| ==> unsorted[i].team == teams[i]
    ensures Distinct(unsorted)
  {
  }

  /** Two equal entries at two positions make a multiplicity of at least two. */
  lemma MultiplicityTwo<T>(s: seq<T>, i: int, j: int)
    requires 0 <= i < j < |s|
    ensures s[i] == s[j] ==> multiset(s)[s[i]] >= 2
  {
    assert s == s[..i] + [s[i]] + s[i + 1..j] + [s[j]] + s[j + 1..];
  }

  /** Rows of equally many matches keep the order in which their teams were discovered. */
  lemma TeamStatsStable(ms: seq<MatchRecord>, v: int)
    ensures Filter(TeamStats(ms), KeyIs(RowMatches, v))
         == Filter(TeamRows(ms, DiscoveredTeams(ms)), KeyIs(RowMatches, v))
  {
    forall a, b
      ensures MoreMatches(a, b) <==> RowMatches(a) > RowMatches(b)
    {
    }
    SortByStable(TeamRows(ms, DiscoveredTeams(ms)), MoreMatches, RowMatches, v);
  }

  // ---------------------------------------------------------------------
  // Team totals: every match is counted once for each of its two teams
  // ---------------------------------------------------------------------

  function RowTossWins(row: TeamRow): int
  {
    row.tossWins
  }

  function RowTossWinMatchWin(row: TeamRow): int
  {
    row.tossWinMatchWin
  }

  /** A match in which `team` played and won the toss. */
  function WonTossIn(team: string): MatchRecord -> bool
  {
    (m: MatchRecord) => Involves(team)(m) && WonTossBy(team)(m)
  }

  /** A match in which `team` played, won the toss and won the match. */
  function WonBothIn(team: string): MatchRecord -> bool
  {
    (m: MatchRecord) => WonTossIn(team)(m) && WonMatchBy(team)(m)
  }

  /**
   * Over well-formed matches the team table balances: each match is played
   * by two teams, its toss is won by one of them, and it adds to one team's
   * toss-and-match wins exactly when the overall table counts it.
   */
  lemma TeamTotals(ms: seq<MatchRecord>)
    requires forall j :: 0 <= j < |ms| ==> WellFormed(ms[j])
    ensures SumBy(TeamStats(ms), RowMatches) == 2 * |ms|
    ensures SumBy(TeamStats(ms), RowTossWins) == |ms|
    ensures SumBy(TeamStats(ms), RowTossWinMatchWin) == ComputeTossStats(ms).tossWinMatchWin
  {
    var teams := DiscoveredTeams(ms);
    var unsorted := TeamRows(ms, teams);
    assert TeamStats(ms) == SortBy(unsorted, MoreMatches);
    SumBySort(unsorted, MoreMatches, RowMatches);
    SumBySort(unsorted, MoreMatches, RowTossWins);
    SumBySort(unsorted, MoreMatches, RowTossWinMatchWin);
    TeamRowsTally(ms, teams);
    DiscoveredTeamsCover(ms);
    MatchTally(ms, teams);
  }

  /** Both teams of every match are among the discovered teams, which are free of duplicates. */
  lemma DiscoveredTeamsCover(ms: seq<MatchRecord>)
    ensures Distinct(DiscoveredTeams(ms))
    ensures forall j :: 0 <= j < |ms| ==> ms[j].team1 in DiscoveredTeams(ms) && ms[j].team2 in DiscoveredTeams(ms)
  {
    var names := TeamNames(ms);
    forall j | 0 <= j < |ms|
      ensures ms[j].team1 in Dedup(names) && ms[j].team2 in Dedup(names)
    {
      assert names[2 * j] == ms[j].team1 && names[2 * j + 1] == ms[j].team2;
    }
  }

  /** The column sums of the rows of `teams` are tallies over the matches. */
  lemma {:induction false} TeamRowsTally(ms: seq<MatchRecord>, teams: seq<string>)
    ensures SumBy(TeamRows(ms, teams), RowMatches) == TallyOver(ms, Involves, teams)
    ensures SumBy(TeamRows(ms, teams), RowTossWins) == TallyOver(ms, WonTossIn, teams)
    ensures SumBy(TeamRows(ms, teams), RowTossWinMatchWin) == TallyOver(ms, WonBothIn, teams)
    decreases |teams|
  {
    if |teams| != 0 {
      var t := teams[0];
      TeamRowsTally(ms, teams[1..]);
      assert TeamRows(ms, teams)[1..] == TeamRows(ms, teams[1..]);
      var played := Filter(ms, Involves(t));
      FilterFilter(ms, Involves(t), WonTossBy(t), WonTossIn(t));
      FilterFilter(ms, WonTossIn(t), WonMatchBy(t), WonBothIn(t));
    }
  }

  /** Per match: two teams play it, one wins its toss, and one or none wins both. */
  lemma {:induction false} MatchTally(ms: seq<MatchRecord>, teams: seq<string>)
    requires Distinct(teams)
    requires forall j :: 0 <= j < |ms| ==> WellFormed(ms[j])
    requires forall j :: 0 <= j < |ms| ==> ms[j].team1 in teams && ms[j].team2 in teams
    ensures TallyOver(ms, Involves, teams) == 2 * |ms|
    ensures TallyOver(ms, WonTossIn, teams) == |ms|
    ensures TallyOver(ms, WonBothIn, teams) == |Filter(ms, TossWinnerWon)|
    decreases |ms|
  {
    if |ms| == 0 {
      TallyOverEmpty(Involves, teams);
      TallyOverEmpty(WonTossIn, teams);
      TallyOverEmpty(WonBothIn, teams);
    } else {
      var x, rest := ms[0], ms[1..];
      assert ms == [x] + rest;
      MatchTally(rest, teams);
      TallyOverCons(x, rest, Involves, teams);
      TallyOverCons(x, rest, WonTossIn, teams);
      TallyOverCons(x, rest, WonBothIn, teams);
      HitsOfMatch(x, teams);
    }
  }

  lemma HitsOfMatch(x: MatchRecord, teams: seq<string>)
    requires Distinct(teams) && WellFormed(x)
    requires x.team1 in teams && x.team2 in teams
    ensures |Filter(teams, Hits(Involves, x))| == 2
    ensures |Filter(teams, Hits(WonTossIn, x))| == 1
    ensures |Filter(teams, Hits(WonBothIn, x))| == x.tossAndMatchWin
  {
    InvolvedTeams(x, teams);
    TossWinningTeams(x, teams);
    DoubleWinningTeams(x, teams);
  }

  /** The teams that play `x` are its two teams. */
  lemma InvolvedTeams(x: MatchRecord, teams: seq<string>)
    requires Distinct(teams) && WellFormed(x)
    requires x.team1 in teams && x.team2 in teams
    ensures |Filter(teams, Hits(Involves, x))| == 2
  {
    var hit := Hits(Involves, x);
    forall t
      ensures t in {x.team1, x.team2} <==> t in teams && hit(t)
    {
      assert hit(t) == Involves(t)(x);
    }
    FilterDistinctCard(teams, hit, {x.team1, x.team2});
  }

  /** The team that won the toss of `x` is the only one. */
  lemma TossWinningTeams(x: MatchRecord, teams: seq<string>)
    requires Distinct(teams) && WellFormed(x)
    requires x.team1 in teams && x.team2 in teams
    ensures |Filter(teams, Hits(WonTossIn, x))| == 1
  {
    var hit := Hits(WonTossIn, x);
    forall t
      ensures t in {x.tossWinner} <==> t in teams && hit(t)
    {
      assert hit(t) == WonTossIn(t)(x);
      assert WonTossIn(t)(x) == (Involves(t)(x) && WonTossBy(t)(x));
    }
    FilterDistinctCard(teams, hit, {x.tossWinner});
  }

  /** The toss winner of `x` also won both exactly when the flag says so; nobody else did. */
  lemma DoubleWinningTeams(x: MatchRecord, teams: seq<string>)
    requires Distinct(teams) && WellFormed(x)
    requires x.team1 in teams && x.team2 in teams
    ensures |Filter(teams, Hits(WonBothIn, x))| == x.tossAndMatchWin
  {
    var hit := Hits(WonBothIn, x);
    var expected := if x.tossAndMatchWin == 1 then {x.tossWinner} else {};
    forall t
      ensures t in expected <==> t in teams && hit(t)
    {
      assert hit(t) == WonBothIn(t)(x);
      assert WonBothIn(t)(x) == (WonTossIn(t)(x) && WonMatchBy(t)(x));
      assert WonTossIn(t)(x) == (Involves(t)(x) && WonTossBy(t)(x));
    }
    FilterDistinctCard(teams, hit, expected);
  }
}
