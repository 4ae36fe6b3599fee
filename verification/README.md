# Toss-advantage statistics: a Dafny model

The system takes a list of cricket matches, each recording who won the toss and
whether the toss winner also won the match. It asks whether winning the toss
helps. The data module generates a fixed list of 120 matches from a seeded
Park–Miller stream (`generateMatches`). The statistics module computes four
things from any list of matches:

- the overall toss tallies (`computeTossStats`);
- one row per format (`getFormatComparison`);
- one row per year (`getYearlyTrend`);
- one row per team (`getTeamStats`);

and it runs a one-degree-of-freedom chi-square test of "the toss winner won"
against an even split (`chiSquareTest`).

The model has eight modules:

- `Records`: the `CricketMatch` record (`MatchRecord`), its structural
  invariant `WellFormed`, and the exported `allFormats` / `allYears`.
- `Generator`: the seed step, exactly, with JavaScript's truncating `%`. The
  values `rand()` returns are a parameter: one `MatchDraws` per match, holding
  the values of that match's `rand()` calls. The generation loops, the
  rejection loop for the second team, the date text, and the layout of the
  generated list are modelled.
- `Seqs`: `filter`, `map`, duplicate removal in first-seen order (the
  iteration order of a JavaScript `Set`), and a stable insertion sort standing
  in for `Array.prototype.sort`.
- `Decimal`: `String(n)`, `padStart` and the JavaScript `<` on strings, which
  is the order `.sort()` uses without a comparator.
- `Rounding`: `Math.round(x * k) / k` over exact rationals.
- `Aggregation`: `computeTossStats`.
- `Breakdowns`: the format, year and team tables.
- `HypothesisTest`: `chiSquareTest`, and the shell of `chiSquarePValue`.

Numbers are exact reals. `Math.round` is `floor(x + 1/2)`. The model
represents a JavaScript `NaN` in exactly one place: the result of the
chi-square test on an empty list, through the `Number` datatype. The
floating-point series inside the p-value can also produce `NaN` for very
large statistics; that case is outside the model (see "Left out").

Two behaviours of the code are easy to misread, and the model follows the
code in both.

- `getYearlyTrend` sorts the years with the default `.sort()`. That compares
  `String(year)` character by character, not numerically. The model sorts the
  same way. `YearlyTrendChronological` shows this is numeric order whenever
  every year has four digits.
- `chiSquareTest` does not guard the empty list. See "Findings".

## Model

| member | source | states |
|---|---|---|
| `Records.AllFormatsComplete` | src/data/cricketData.ts:91 | every format occurs in `allFormats`, exactly once |
| `Records.AllYearsRange` | src/data/cricketData.ts:93 | `allYears` holds exactly the years 2015 to 2024 |
| `Records.AllYearsAscending` | src/data/cricketData.ts:93 | `allYears` is strictly ascending |
| `Generator.JsRem` | src/data/cricketData.ts:40 | JavaScript `%` keeps the sign of the dividend: in `[0, m)` for a non-negative dividend, in `(-m, 0]` for a negative one; and the dividend is the truncated quotient times `m` plus the remainder |
| `Generator.NextSeed` | src/data/cricketData.ts:40 | from a non-negative seed, one step lands in `[0, 2147483646]` |
| `Generator.MultiplierCancels` | src/data/cricketData.ts:40 | 16807 is invertible modulo 2147483647: `16807 * seed` is a multiple of the modulus only if `seed` is |
| `Generator.NextSeedInRange` | src/data/cricketData.ts:40 | a seed strictly between 0 and the modulus stays strictly between them, so the stream never reaches 0 |
| `Generator.SeedAfterInRange` | src/data/cricketData.ts:38-41 | every seed reached from 42 lies strictly between 0 and 2147483647 |
| `Generator.RandInUnit` | src/data/cricketData.ts:39-42 | every value `rand()` returns lies in `[0, 1)` |
| `Generator.Index` | src/data/cricketData.ts:48 | `Math.floor(r * n)` of a value in `[0, 1)` is a valid index below `n` |
| `Generator.FirstRedraw` | src/data/cricketData.ts:49-50 | the position of the first redraw naming a team other than `team1`'s: every redraw before it named `team1`'s team, and the one there does not |
| `Generator.RedrawTeam2` | src/data/cricketData.ts:49-50 | the rejection loop stops at the first draw naming a team other than `team1`, every earlier draw named `team1`, and the stop is `FirstRedraw` |
| `Generator.IsoDateReadsBack` | src/data/cricketData.ts:64-69 | the date text is `YYYY-MM-DD`, with month 1-12 and day 1-28, and reading its fields back gives the year, month and day drawn |
| `Generator.MatchFromPlausible` | src/data/cricketData.ts:52-81 | whatever the draws, two different team indices give a record with two different teams, both winners among them, both flags 1, the home venue of one of its teams, a valid date, and `tossAndMatchWin` set exactly when the toss winner won |
| `Generator.DrawMatch` | src/data/cricketData.ts:48-81 | one loop body: the record has the given id, year and format and every generator invariant; `team1` is the first draw's team; `team2` is the team of the first redraw differing from it; the toss winner, decision, venue and date are the ones their draws select; `tossAndMatchWin` is 1 exactly when the outcome draw is below 0.52 |
| `Generator.SlotFormat` | src/data/cricketData.ts:44-47 | position `j` of a year's block falls inside the block of the format it returns |
| `Generator.GenerateMatches` | src/data/cricketData.ts:32-87 | 120 records; the record at position `i` has id `i + 1`, year `2015 + i / 12`, the format of slot `i % 12`, every per-record invariant, and the fields its own draws `draw(i)` select; the loop invariants carry this through the three nested loops |
| `Generator.AppendFormatBlock` | src/data/cricketData.ts:46-82 | one format of one year appends `MatchCount(format)` records after the ones so far, leaves those unchanged, and each new record sits at its layout position with the fields its draws select |
| `Generator.GeneratedYearFormatCount` | src/data/cricketData.ts:44-47 | in the generated list every year has exactly 3 Test, 4 ODI and 5 T20 matches |
| `Generator.GeneratedYearCount` | src/data/cricketData.ts:44-47 | in the generated list every year of `allYears` has exactly 12 matches |
| `Generator.GeneratedYearsInRange` | src/data/cricketData.ts:44 | every generated record carries a year of `allYears` |
| `Decimal.ValueOfNatToString` | src/data/cricketData.ts:69 | `String(n)` reads back as `n` |
| `Decimal.PadStart2Value` | src/data/cricketData.ts:69 | `String(n).padStart(2, "0")` of a number below 100 is two digits that read back as `n` |
| `Decimal.LexLessTotal` | src/lib/statistics.ts:133 | the default sort order compares any two different strings one way or the other |
| `Decimal.LexLessTransitive` | src/lib/statistics.ts:133 | the default sort order is transitive |
| `Decimal.LexLessAsymmetric` | src/lib/statistics.ts:133 | the default sort order never puts two strings each before the other |
| `Decimal.NatToStringOrder` | src/lib/statistics.ts:133 | for numbers of the same digit count, string order of `String(n)` is numeric order, in both directions |
| `Rounding.RoundHalfUp` | src/lib/statistics.ts:119 | `Math.round(x)` is the integer within half of `x`, halves rounding up |
| `Rounding.RoundHalfUpUnique` | src/lib/statistics.ts:119 | only one integer satisfies that bound, so it determines `Math.round` |
| `Rounding.RoundToOnGrid` | src/lib/statistics.ts:119-121 | `Math.round(x * k) / k` is a whole number of steps `1 / k` |
| `Rounding.RoundToUnique` | src/lib/statistics.ts:119-121 | a whole number of steps within half a step of `x` can only be `Math.round(x * k) / k`, so grid and band together pin the rounding |
| `Rounding.RoundToClose` | src/lib/statistics.ts:119-121 | `Math.round(x * k) / k` is within half a step `1 / k` of `x` |
| `Rounding.RoundToWithin` | src/lib/statistics.ts:119-121 | rounding never leaves an interval with whole-number ends, such as `[0, 100]` |
| `Rounding.RoundToMonotone` | src/lib/statistics.ts:67 | rounding preserves order |
| `Rounding.RoundToExact` | src/lib/statistics.ts:67 | a value already on the grid, such as 0.05 at four decimals, rounds to itself |
| `Aggregation.Percentage` | src/lib/statistics.ts:31 | with no denominator the percentage is 0; otherwise it times the denominator is 100 times the count; a count within its denominator gives a value in `[0, 100]` |
| `Aggregation.ComputeTossStats` | src/lib/statistics.ts:16-39 | the total is the list length; wins and losses add up to it; bat-first and field-first split both the matches and the wins; each percentage is its guarded `count / denominator * 100`, lies in `[0, 100]`, and is 0 on an empty slice |
| `Aggregation.DecisionSplit` | src/lib/statistics.ts:21-25 | the bat and field slices partition the matches, and their wins partition the toss winners' wins |
| `Aggregation.TossStatsConcat` | src/lib/statistics.ts:16-39 | the tallies of a concatenation are the sums of the tallies of its parts |
| `Aggregation.TossStatsSingle` | src/lib/statistics.ts:18-25 | the tallies of one match are its own flag and its own toss decision |
| `Aggregation.TossStatsPermutation` | src/lib/statistics.ts:16-39 | the statistics do not depend on the order of the matches |
| `Breakdowns.FormatRowOf` | src/lib/statistics.ts:114-122 | a format's row counts that format's matches; each of its three percentages lies in `[0, 100]`, is 0 for an absent format, and is a whole number of tenths within half a tenth of the exact percentage, which by `Rounding.RoundToUnique` makes it the one-decimal rounding |
| `Breakdowns.OneDecimal` | src/lib/statistics.ts:119-121 | a percentage rounded to one decimal stays in `[0, 100]`, is a whole number of tenths, moves at most 0.05, and 0 stays 0 |
| `Breakdowns.FormatComparison` | src/lib/statistics.ts:111-124 | exactly three rows, for Test, ODI and T20 in that order, each that format's row |
| `Breakdowns.FormatComparisonTotal` | src/lib/statistics.ts:111-124 | the three rows' match counts add up to the number of matches |
| `Breakdowns.SortedYears` | src/lib/statistics.ts:133 | the years are distinct, in `.sort()` order, each the year of some match, and every match's year is among them |
| `Breakdowns.YearRowOf` | src/lib/statistics.ts:135-141 | a year's row counts that year's matches, and its percentage lies in `[0, 100]` and is a whole number of tenths within half a tenth of the exact one, so it is the one-decimal rounding |
| `Breakdowns.YearlyTrend` | src/lib/statistics.ts:132-143 | one row per distinct year and no other years; each row is that year's row and counts at least one match; rows ascend strictly in string order of `String(year)` |
| `Breakdowns.YearlyTrendChronological` | src/lib/statistics.ts:133 | when every year has four digits, the rows run from the earliest year to the latest |
| `Breakdowns.YearlyTrendTotal` | src/lib/statistics.ts:132-143 | the rows' match counts add up to the number of matches |
| `Breakdowns.TeamPct` | src/lib/statistics.ts:167 | 0 with no tosses won; otherwise in `[0, 100]`, a whole number of tenths within 0.05 of the exact win percentage, and equal to that percentage rounded to one decimal, so `Math.round(q * 1000) / 10` is the same rounding as the other tables |
| `Breakdowns.TeamPctRounding` | src/lib/statistics.ts:167 | `Math.round((w / t) * 1000) / 10` is the percentage `100 w / t` rounded to one decimal |
| `Breakdowns.TeamRowOf` | src/lib/statistics.ts:158-168 | a team's row counts the matches it plays, the tosses it wins in them, and the matches in which it won both toss and match; the last is at most the second, which is at most the first; its percentage is guarded, a whole number of tenths, and within 0.05 of exact |
| `Breakdowns.TeamNames` | src/lib/statistics.ts:155 | both team names of every match, `team1` then `team2`, in match order |
| `Breakdowns.DiscoveredTeamSet` | src/lib/statistics.ts:154-155 | the teams found are exactly the teams that play some match, each once |
| `Seqs.DedupFirstSeen` | src/lib/statistics.ts:154-157 | duplicate removal lists the names in order of first appearance, which is the `Set` iteration order |
| `Breakdowns.TeamStats` | src/lib/statistics.ts:153-170 | one row per team that plays, no team twice and no other team; each row is that team's row; rows with more matches come first |
| `Breakdowns.TeamStatsStable` | src/lib/statistics.ts:169 | rows with equal match counts keep the order in which their teams were discovered |
| `Breakdowns.TeamTotals` | src/lib/statistics.ts:153-170 | over well-formed matches the match column sums to twice the number of matches, the toss-win column to the number of matches, and the toss-and-match-win column to the overall toss-winner wins |
| `Seqs.SortBySorted` | src/lib/statistics.ts:169 | the sort leaves no pair out of order under a strict order |
| `Seqs.SortByStable` | src/lib/statistics.ts:169 | sorting by decreasing rank keeps the elements of each rank in input order |
| `Seqs.SumBySort` | src/lib/statistics.ts:169 | sorting does not change a column sum |
| `Seqs.FilterPermutation` | src/lib/statistics.ts:18 | filtering two orderings of the same matches gives the same number of matches |
| `HypothesisTest.Clamp01` | src/lib/statistics.ts:93 | `Math.max(0, Math.min(1, v))` lies in `[0, 1]` and is `v` when `v` already does |
| `HypothesisTest.PValue` | src/lib/statistics.ts:77-94 | the p-value lies in `[0, 1]`, is 1 for a statistic that is not positive, and is one minus the lower gamma ratio whenever that ratio is a probability |
| `HypothesisTest.ChiSquareStatistic` | src/lib/statistics.ts:50-60 | the two-term statistic equals `(a - b)^2 / total`; it is non-negative, zero exactly at an even split, and at most the number of matches |
| `HypothesisTest.ChiSquareTest` | src/lib/statistics.ts:49-74 | one degree of freedom; on an empty list both numbers are `NaN` and the result is not significant; otherwise the statistic is within 0.0005 of `(a - b)^2 / n` and in `[0, n]`, and the p-value is in `[0, 1]`; "significant" puts the reported p-value at or below 0.05 and "not significant" at or above it; the interpretation follows the flag; an even split gives statistic 0 and p-value 1; on a non-empty list the reported statistic and p-value are the statistic and `PValue` of it rounded to three and four decimals, and "significant" is the unrounded p-value below 0.05 |
| `HypothesisTest.GuardedChiSquareTest` | src/lib/statistics.ts:49-74 | the empty list gives statistic 0, p-value 1, not significant; every other list gives the same result as `ChiSquareTest` |
| `HypothesisTest.RoundedStatistic` | src/lib/statistics.ts:66 | rounding the statistic to three decimals keeps it in `[0, n]`, within 0.0005, and keeps 0 at 0 |
| `HypothesisTest.RoundedPValue` | src/lib/statistics.ts:67-69 | rounding the p-value to four decimals never carries it across 0.05 and keeps 1 at 1 |
| `HypothesisTest.ChiSquareSymmetric` | src/lib/statistics.ts:60 | swapping wins and losses leaves the statistic unchanged |
| `HypothesisTest.ChiSquareMonotone` | src/lib/statistics.ts:60 | the statistic grows as the wins move away from an even split |

## Left out

- The series inside `chiSquarePValue` (src/lib/statistics.ts:79-92) and `gammaFunction` (src/lib/statistics.ts:96-101) are floating-point numerics. The regularised lower incomplete gamma ratio is the parameter `lowerRatio`. Only the shell around it is modelled: the `x <= 0` answer and the final clamp.
- `HypothesisTest.ChiSquareTest`: the ratio `lowerRatio` is a real and cannot be `NaN` or `Infinity`. For very large statistics the series at src/lib/statistics.ts:85-90 can overflow to `Infinity` while `Math.exp(-halfX)` underflows to 0, so their product is `NaN`, which the clamp at src/lib/statistics.ts:93 passes through. That `NaN` p-value is not represented: the model's p-value on a non-empty list is always finite.
- `HypothesisTest.PValue`: states the clamp and the `x <= 0` case only. Nothing is proved about the series' accuracy, because the series is a parameter.
- Floating point: all arithmetic is over exact reals. Binary rounding error is not modelled. That error can make `Math.round` of a value that should sit exactly on a half round the other way.
- The values `rand()` returns are not computed. `Generator.GenerateMatches` takes them as `draw(k)` for the match with id `k + 1`. The claim that these are the consecutive outputs of the seeded stream is not stated; `RandInUnit` only shows that the stream's values lie in `[0, 1)`.
- `Generator.GenerateMatches`: states the position layout, every per-record invariant and which draw selects each field, but not the concrete teams, winners and dates of the 120 records, because the stream's values are not computed.
- `Generator.ValidDraws`: requires that some redraw of the second team differs from the first team, which is what it takes for the loop at src/data/cricketData.ts:50 to stop. The real stream's termination there is not proved.
- The exports `cricketMatches` (src/data/cricketData.ts:89) and `allTeams` (src/data/cricketData.ts:92) are not modelled as constants. They would need the concrete draws.
- The interpretation sentences (src/lib/statistics.ts:70-72) are the two values of `Interpretation`. Their wording is not modelled, including the mis-encoded "≥" in the second one.
- The venue fallback `|| "Neutral Venue"` (src/data/cricketData.ts:62) is modelled but never taken: every team has a venue.
- `Math.round` on negative halves is not reached: every rounded value here is non-negative.
- The pages and charts that display these tables are not part of this model.

## Findings

| source | as written | input that shows it | evidently intended | confidence | as-written member | corrected member |
|---|---|---|---|---|---|---|
| src/lib/statistics.ts:57-69 | With no matches, both expected counts are 0. Both terms of the statistic are `0 / 0`, so `chiSquare` and `pValue` come out `NaN`, and `significant` is false only because `NaN < 0.05` is false. | `chiSquareTest([])` | Statistic 0, p-value 1, not significant, the same guard every percentage in the module has against an empty denominator. | medium; not executed | `HypothesisTest.ChiSquareTest` | `HypothesisTest.GuardedChiSquareTest` |
