/**
 * `computeTossStats`: exact tallies over a list of matches, with each
 * percentage guarded against an empty denominator.
 */
module Aggregation {
  import opened Records
  import opened Seqs

  /** `m.tossAndMatchWin === 1`. */
  predicate TossWinnerWon(m: MatchRecord)
  {
    m.tossAndMatchWin == 1
  }

  /** `m.tossDecision === "bat"`. */
  predicate BatFirst(m: MatchRecord)
  {
    m.tossDecision == Bat
  }

  /** `m.tossDecision === "field"`. */
  predicate FieldFirst(m: MatchRecord)
  {
    m.tossDecision == Field
  }

  /** `matches.filter((m) => m.tossAndMatchWin === 1).length`: the matches the toss winner went on to win. */
  function TossWinnerWins(ms: seq<MatchRecord>): nat
  {
    |Filter(ms, TossWinnerWon)|
  }

  datatype TossStats = TossStats(
    totalMatches: nat,
    tossWinMatchWin: nat,
    tossWinMatchLoss: int,
    tossWinPercentage: real,
    batFirstWins: nat,
    batFirstTotal: nat,
    fieldFirstWins: nat,
    fieldFirstTotal: nat,
    batFirstWinPct: real,
    fieldFirstWinPct: real)

  /** `denominator ? (count / denominator) * 100 : 0`. */
  function Percentage(count: nat, denominator: nat): (r: real)
    ensures denominator == 0 ==> r == 0.0
    ensures denominator > 0 ==> r * denominator as real == 100.0 * count as real
    ensures count <= denominator ==> 0.0 <= r <= 100.0
  {
    if denominator == 0 then 0.0
    else
      var q := count as real / denominator as real;
      assert q * denominator as real == count as real;
      q * 100.0
  }

  function ComputeTossStats(ms: seq<MatchRecord>): (r: TossStats)
    ensures r.totalMatches == |ms|
    ensures r.tossWinMatchWin <= r.totalMatches
    ensures r.tossWinMatchWin + r.tossWinMatchLoss == r.totalMatches
    ensures r.batFirstTotal + r.fieldFirstTotal == r.totalMatches
    ensures r.batFirstWins + r.fieldFirstWins == r.tossWinMatchWin
    ensures r.batFirstWins <= r.batFirstTotal && r.fieldFirstWins <= r.fieldFirstTotal
    ensures r.totalMatches == 0 ==> r.tossWinPercentage == 0.0
    ensures r.batFirstTotal == 0 ==> r.batFirstWinPct == 0.0
    ensures r.fieldFirstTotal == 0 ==> r.fieldFirstWinPct == 0.0
    ensures r.tossWinPercentage == Percentage(r.tossWinMatchWin, r.totalMatches)
    ensures r.batFirstWinPct == Percentage(r.batFirstWins, r.batFirstTotal)
    ensures r.fieldFirstWinPct == Percentage(r.fieldFirstWins, r.fieldFirstTotal)
    ensures 0.0 <= r.tossWinPercentage <= 100.0
    ensures 0.0 <= r.batFirstWinPct <= 100.0
    ensures 0.0 <= r.fieldFirstWinPct <= 100.0
  {
    var totalMatches := |ms|;
    var tossWinMatchWin := TossWinnerWins(ms);
    var batFirst := Filter(ms, BatFirst);
    var fieldFirst := Filter(ms, FieldFirst);
    var batFirstWins := |Filter(batFirst, TossWinnerWon)|;
    var fieldFirstWins := |Filter(fieldFirst, TossWinnerWon)|;
    DecisionSplit(ms);
    Assemble(totalMatches, tossWinMatchWin, batFirstWins, |batFirst|, fieldFirstWins, |fieldFirst|)
  }

  /** The record of `computeTossStats` from its six counts: the loss count and the three guarded percentages. */
  function Assemble(total: nat, wins: nat, batWins: nat, batTotal: nat, fieldWins: nat, fieldTotal: nat): (r: TossStats)
    requires wins <= total && batWins <= batTotal && fieldWins <= fieldTotal
    ensures r.totalMatches == total && r.tossWinMatchWin == wins
    ensures r.tossWinMatchWin + r.tossWinMatchLoss == r.totalMatches
    ensures r.batFirstWins == batWins && r.batFirstTotal == batTotal
    ensures r.fieldFirstWins == fieldWins && r.fieldFirstTotal == fieldTotal
    ensures r.totalMatches == 0 ==> r.tossWinPercentage == 0.0
    ensures r.batFirstTotal == 0 ==> r.batFirstWinPct == 0.0
    ensures r.fieldFirstTotal == 0 ==> r.fieldFirstWinPct == 0.0
    ensures r.tossWinPercentage * r.totalMatches as real == 100.0 * r.tossWinMatchWin as real
    ensures r.batFirstWinPct * r.batFirstTotal as real == 100.0 * r.batFirstWins as real
    ensures r.fieldFirstWinPct * r.fieldFirstTotal as real == 100.0 * r.fieldFirstWins as real
    ensures 0.0 <= r.tossWinPercentage <= 100.0
    ensures 0.0 <= r.batFirstWinPct <= 100.0
    ensures 0.0 <= r.fieldFirstWinPct <= 100.0
  {
    TossStats(
      total,
      wins,
      total - wins,
      Percentage(wins, total),
      batWins,
      batTotal,
      fieldWins,
      fieldTotal,
      Percentage(batWins, batTotal),
      Percentage(fieldWins, fieldTotal))
  }

  /** Every match was decided "bat" or "field": the two slices split the matches and their wins. */
  lemma DecisionSplit(ms: seq<MatchRecord>)
    ensures |Filter(ms, BatFirst)| + |Filter(ms, FieldFirst)| == |ms|
    ensures |Filter(Filter(ms, BatFirst), TossWinnerWon)| + |Filter(Filter(ms, FieldFirst), TossWinnerWon)|
         == |Filter(ms, TossWinnerWon)|
  {
    var won := Filter(ms, TossWinnerWon);
    FilterPartition(ms, BatFirst, FieldFirst);
    FilterPartition(won, BatFirst, FieldFirst);
    FilterFilter(ms, BatFirst, TossWinnerWon, BatFirstWin);
    FilterFilter(ms, TossWinnerWon, BatFirst, BatFirstWin);
    FilterFilter(ms, FieldFirst, TossWinnerWon, FieldFirstWin);
    FilterFilter(ms, TossWinnerWon, FieldFirst, FieldFirstWin);
  }

  /** The tallies of a concatenation are the sums of the tallies of its parts. */
  lemma TossStatsConcat(a: seq<MatchRecord>, b: seq<MatchRecord>)
    ensures ComputeTossStats(a + b).tossWinMatchWin
         == ComputeTossStats(a).tossWinMatchWin + ComputeTossStats(b).tossWinMatchWin
    ensures ComputeTossStats(a + b).batFirstTotal
         == ComputeTossStats(a).batFirstTotal + ComputeTossStats(b).batFirstTotal
    ensures ComputeTossStats(a + b).batFirstWins
         == ComputeTossStats(a).batFirstWins + ComputeTossStats(b).batFirstWins
    ensures ComputeTossStats(a + b).fieldFirstWins
         == ComputeTossStats(a).fieldFirstWins + ComputeTossStats(b).fieldFirstWins
  {
    FilterConcat(a, b, TossWinnerWon);
    FilterConcat(a, b, BatFirst);
    FilterConcat(a, b, FieldFirst);
    FilterConcat(Filter(a, BatFirst), Filter(b, BatFirst), TossWinnerWon);
    FilterConcat(Filter(a, FieldFirst), Filter(b, FieldFirst), TossWinnerWon);
  }

  /** The tallies of one match: its own flag and its own toss decision. */
  lemma TossStatsSingle(m: MatchRecord)
    ensures ComputeTossStats([m]).tossWinMatchWin == m.tossAndMatchWin
    ensures ComputeTossStats([m]).batFirstTotal == (if m.tossDecision == Bat then 1 else 0)
    ensures ComputeTossStats([m]).batFirstWins == (if m.tossDecision == Bat then m.tossAndMatchWin else 0)
  {
    assert [m][1..] == [];
  }

  /** The statistics do not depend on the order of the matches. */
  lemma TossStatsPermutation(a: seq<MatchRecord>, b: seq<MatchRecord>)
    requires multiset(a) == multiset(b)
    ensures ComputeTossStats(a) == ComputeTossStats(b)
  {
    FilterPermutation(a, b, TossWinnerWon);
    FilterPermutation(a, b, BatFirst);
    FilterPermutation(a, b, FieldFirst);
    FilterFilter(a, BatFirst, TossWinnerWon, BatFirstWin);
    FilterFilter(b, BatFirst, TossWinnerWon, BatFirstWin);
    FilterFilter(a, FieldFirst, TossWinnerWon, FieldFirstWin);
    FilterFilter(b, FieldFirst, TossWinnerWon, FieldFirstWin);
    FilterPermutation(a, b, BatFirstWin);
    FilterPermutation(a, b, FieldFirstWin);
  }

  predicate BatFirstWin(m: MatchRecord)
  {
    BatFirst(m) && TossWinnerWon(m)
  }

  predicate FieldFirstWin(m: MatchRecord)
  {
    FieldFirst(m) && TossWinnerWon(m)
  }
}
