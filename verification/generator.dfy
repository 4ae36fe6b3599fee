/**
 * `generateMatches` of the data module: ten years, three formats per year,
 * a fixed number of matches per format, each match drawn from a seeded
 * pseudo-random stream.
 *
 * The seed step is modelled exactly. The values `rand()` returns are not
 * computed; each match instead receives a `MatchDraws`, the values its
 * `rand()` calls returned, and everything proved here holds whatever those
 * values are, as long as they lie in `[0, 1)` (which `RandInUnit` shows the
 * real stream does).
 */
module Generator {
  import opened Records
  import opened Decimal
  import opened Seqs

  const Teams: seq<string> :=
    ["India", "Australia", "England", "South Africa", "New Zealand",
     "Pakistan", "Sri Lanka", "West Indies", "Bangladesh", "Afghanistan"]

  const Venues: map<string, string> := map[
    "India" := "Wankhede Stadium, Mumbai",
    "Australia" := "MCG, Melbourne",
    "England" := "Lord's, London",
    "South Africa" := "Wanderers, Johannesburg",
    "New Zealand" := "Eden Park, Auckland",
    "Pakistan" := "Gaddafi Stadium, Lahore",
    "Sri Lanka" := "R. Premadasa Stadium, Colombo",
    "West Indies" := "Kensington Oval, Barbados",
    "Bangladesh" := "Sher-e-Bangla, Dhaka",
    "Afghanistan" := "Kabul Cricket Stadium, Kabul"]

  const NeutralVenue: string := "Neutral Venue"

  const FirstYear: int := 2015
  const LastYear: int := 2024

  // ---------------------------------------------------------------------
  // The seeded stream
  // ---------------------------------------------------------------------

  const Modulus: int := 2147483647
  const Multiplier: int := 16807
  const InitialSeed: int := 42

  /** JavaScript `a % m` for `m > 0`: truncating, so the remainder has the sign of `a`. */
  function JsRem(a: int, m: int): (r: int)
    requires m > 0
    ensures a >= 0 ==> 0 <= r < m
    ensures a < 0 ==> -m < r <= 0
    ensures a == (if a >= 0 then a / m else -((-a) / m)) * m + r
  {
    if a >= 0 then a % m
    else
      assert -a == ((-a) / m) * m + (-a) % m;
      -((-a) % m)
  }

  /** `seed = (seed * 16807 + 0) % 2147483647`: one Park-Miller step. */
  function NextSeed(seed: int): (r: int)
    ensures seed >= 0 ==> 0 <= r <= Modulus - 1
  {
    JsRem(seed * Multiplier + 0, Modulus)
  }

  /** The seed after `n` calls of `rand()`. */
  function SeedAfter(n: nat): int
  {
    if n == 0 then InitialSeed else NextSeed(SeedAfter(n - 1))
  }

  /** The value the `n`-th call of `rand()` returns (`n >= 1`). */
  function Rand(n: nat): real
    requires n >= 1
  {
    (SeedAfter(n) - 1) as real / (Modulus - 1) as real
  }

  /** 16807 has an inverse modulo 2147483647, so it never multiplies a non-multiple into a multiple. */
  lemma MultiplierCancels(seed: int)
    ensures (seed * Multiplier) % Modulus == 0 ==> seed % Modulus == 0
  {
    var x := seed * Multiplier;
    if x % Modulus == 0 {
      var q := x / Modulus;
      assert x == q * Modulus;
      InverseOfMultiplier(seed, q);
      MultipleOfModulus(1407677000 * q - 11017 * seed);
    }
  }

  /** `1407677000` is the inverse of 16807 modulo 2147483647, so `seed` is a multiple of the modulus when `16807 * seed` is. */
  lemma InverseOfMultiplier(seed: int, q: int)
    requires seed * Multiplier == q * Modulus
    ensures seed == Modulus * (1407677000 * q - 11017 * seed)
  {
    assert 1407677000 * Multiplier == 11017 * Modulus + 1;
    calc {
      Modulus * (1407677000 * q - 11017 * seed);
      1407677000 * (q * Modulus) - 11017 * Modulus * seed;
      1407677000 * (seed * Multiplier) - 11017 * Modulus * seed;
      (1407677000 * Multiplier) * seed - 11017 * Modulus * seed;
      (11017 * Modulus + 1) * seed - 11017 * Modulus * seed;
      seed;
    }
  }

  lemma MultipleOfModulus(k: int)
    ensures (Modulus * k) % Modulus == 0
  {
  }

  /** A seed strictly between 0 and the modulus stays there. */
  lemma NextSeedInRange(seed: int)
    requires 0 < seed < Modulus
    ensures 0 < NextSeed(seed) < Modulus
  {
    MultiplierCancels(seed);
  }

  lemma {:induction false} SeedAfterInRange(n: nat)
    ensures 0 < SeedAfter(n) < Modulus
    decreases n
  {
    if n > 0 {
      SeedAfterInRange(n - 1);
      NextSeedInRange(SeedAfter(n - 1));
    }
  }

  /** Every value of the seeded stream lies in `[0, 1)`. */
  lemma RandInUnit(n: nat)
    requires n >= 1
    ensures 0.0 <= Rand(n) < 1.0
  {
    SeedAfterInRange(n);
  }

  // ---------------------------------------------------------------------
  // Draws
  // ---------------------------------------------------------------------

  predicate InUnit(r: real)
  {
    0.0 <= r < 1.0
  }

  /** `Math.floor(r * n)`. */
  function Index(r: real, n: nat): (i: int)
    ensures InUnit(r) && n > 0 ==> 0 <= i < n
  {
    ScaleUnit(r, n);
    (r * n as real).Floor
  }

  /** A value of `[0, 1)` scaled by `n` lies in `[0, n)`. */
  lemma ScaleUnit(r: real, n: nat)
    ensures InUnit(r) && n > 0 ==> 0.0 <= r * n as real < n as real
  {
    if InUnit(r) && n > 0 {
      var k := n as real;
      assert 0.0 * k <= r * k;
      assert r * k < 1.0 * k;
    }
  }

  /**
   * The values the `rand()` calls for one match returned, in source order.
   * `team2` holds the first draw for the second team followed by every
   * redraw the rejection loop in src/data/cricketData.ts makes.
   */
  datatype MatchDraws = MatchDraws(
    team1: real,
    team2: seq<real>,
    toss: real,
    decision: real,
    outcome: real,
    venue: real,
    month: real,
    day: real)

  /** The index of the team `d.team2[k]` names. */
  function Team2Index(d: MatchDraws, k: int): int
    requires 0 <= k < |d.team2|
  {
    Index(d.team2[k], |Teams|)
  }

  /**
   * The position, from `from` on, of the first redraw naming a team other
   * than `team1`'s, or `|d.team2|` when there is none.
   */
  function FirstRedraw(d: MatchDraws, from: nat): (k: nat)
    ensures from <= |d.team2| ==> from <= k
    ensures k <= |d.team2|
    ensures forall i :: from <= i < k ==> Team2Index(d, i) == Index(d.team1, |Teams|)
    ensures k < |d.team2| ==> Team2Index(d, k) != Index(d.team1, |Teams|)
    decreases |d.team2| - from
  {
    if from >= |d.team2| then |d.team2|
    else if Team2Index(d, from) != Index(d.team1, |Teams|) then from
    else FirstRedraw(d, from + 1)
  }

  /**
   * Values `rand()` can return, with the redraws ending at a different team
   * (the rejection loop terminates).
   */
  predicate ValidDraws(d: MatchDraws)
  {
    && InUnit(d.team1)
    && (forall k :: 0 <= k < |d.team2| ==> InUnit(d.team2[k]))
    && InUnit(d.toss) && InUnit(d.decision) && InUnit(d.outcome)
    && InUnit(d.venue) && InUnit(d.month) && InUnit(d.day)
    && (exists k :: 0 <= k < |d.team2| && Team2Index(d, k) != Index(d.team1, |Teams|))
  }

  // ---------------------------------------------------------------------
  // Dates
  // ---------------------------------------------------------------------

  /** `${year}-${String(month).padStart(2, "0")}-${String(day).padStart(2, "0")}`. */
  function IsoDate(year: int, month: int, day: int): string
  {
    NumberToString(year) + "-" + PadStart(NumberToString(month), 2, '0')
      + "-" + PadStart(NumberToString(day), 2, '0')
  }

  /** `date` reads as `YYYY-MM-DD` for the given year, a month in 1..12 and a day in 1..28. */
  predicate IsDateIn(date: string, year: int)
  {
    && |date| == 10
    && date[4] == '-' && date[7] == '-'
    && AllDigits(date[..4]) && AllDigits(date[5..7]) && AllDigits(date[8..])
    && Value(date[..4]) == year
    && 1 <= Value(date[5..7]) <= 12
    && 1 <= Value(date[8..]) <= 28
  }

  /** Reading the generated date back gives its year, month and day. */
  lemma IsoDateReadsBack(year: int, month: int, day: int)
    requires 1000 <= year <= 9999 && 1 <= month <= 12 && 1 <= day <= 28
    ensures IsDateIn(IsoDate(year, month, day), year)
    ensures Value(IsoDate(year, month, day)[5..7]) == month
    ensures Value(IsoDate(year, month, day)[8..]) == day
  {
    var y := NatToString(year);
    var mm := PadStart(NatToString(month), 2, '0');
    var dd := PadStart(NatToString(day), 2, '0');
    assert |y| == 4 && Value(y) == year by {
      assert Pow10(3) == 1000 && Pow10(4) == 10000;
      NatToStringLength(year, 4);
      ValueOfNatToString(year);
    }
    PadStart2Value(month);
    PadStart2Value(day);
    assert IsoDate(year, month, day) == y + "-" + mm + "-" + dd;
    DateLayout(y, mm, dd);
  }

  /** Where the three fields of a `YYYY-MM-DD` text sit. */
  lemma DateLayout(y: string, mm: string, dd: string)
    requires |y| == 4 && |mm| == 2 && |dd| == 2
    ensures var date := y + "-" + mm + "-" + dd;
      && |date| == 10
      && date[4] == '-' && date[7] == '-'
      && date[..4] == y && date[5..7] == mm && date[8..] == dd
  {
  }

  // ---------------------------------------------------------------------
  // Layout of the generated list
  // ---------------------------------------------------------------------

  /** `matchCount`: how many matches of format `f` each year gets. */
  function MatchCount(f: Format): nat
  {
    match f
    case Test => 3
    case ODI => 4
    case T20 => 5
  }

  /** Offset, within one year's block, of the first match of format `f`. */
  function FormatStart(f: Format): nat
  {
    match f
    case Test => 0
    case ODI => MatchCount(Test)
    case T20 => MatchCount(Test) + MatchCount(ODI)
  }

  const MatchesPerYear: nat := MatchCount(Test) + MatchCount(ODI) + MatchCount(T20)

  /** The format of the match at offset `j` of a year's block. */
  function SlotFormat(j: int): (f: Format)
    requires 0 <= j < MatchesPerYear
    ensures FormatStart(f) <= j < FormatStart(f) + MatchCount(f)
  {
    if j < FormatStart(ODI) then Test else if j < FormatStart(T20) then ODI else T20
  }

  /** Everything about a generated record that does not depend on its position. */
  predicate Plausible(m: MatchRecord)
  {
    && WellFormed(m)
    && m.team1 in Teams && m.team2 in Teams
    && m.tossWinFlag == 1 && m.matchWinFlag == 1
    && m.team1 in Venues && m.team2 in Venues
    && (m.venue == Venues[m.team1] || m.venue == Venues[m.team2])
    && IsDateIn(m.date, m.year)
  }

  /** What one record needs of its two teams: both are teams with a home venue, and different indices name different teams. */
  lemma TeamFacts(i: int, j: int)
    requires 0 <= i < |Teams| && 0 <= j < |Teams|
    ensures Teams[i] in Teams && Teams[j] in Teams
    ensures Teams[i] in Venues && Teams[j] in Venues
    ensures i != j ==> Teams[i] != Teams[j]
  {
    TeamsDistinct();
    if i < j {
      assert Teams[i] != Teams[j];
    } else if j < i {
      assert Teams[j] != Teams[i];
    }
  }

  lemma TeamsDistinct()
    ensures forall i, j :: 0 <= i < j < |Teams| ==> Teams[i] != Teams[j]
    ensures forall i :: 0 <= i < |Teams| ==> Teams[i] in Venues
  {
  }

  /**
   * The rejection loop for the second team (src/data/cricketData.ts:48-50):
   * the draws for `team2` are taken until one names a team other than
   * `team1`; the result is the position of that draw.
   */
  method RedrawTeam2(d: MatchDraws) returns (k: int)
    requires ValidDraws(d)
    ensures 0 <= k < |d.team2|
    ensures Team2Index(d, k) != Index(d.team1, |Teams|)
    ensures forall i :: 0 <= i < k ==> Team2Index(d, i) == Index(d.team1, |Teams|)
    ensures k == FirstRedraw(d, 0)
  {
    var t1Idx := Index(d.team1, |Teams|);
    k := 0;
    var t2Idx := Team2Index(d, 0);
    while t2Idx == t1Idx
      invariant 0 <= k < |d.team2|
      invariant t2Idx == Team2Index(d, k)
      invariant forall i :: 0 <= i < k ==> Team2Index(d, i) == t1Idx
      invariant exists j :: k <= j < |d.team2| && Team2Index(d, j) != t1Idx
      invariant FirstRedraw(d, k) == FirstRedraw(d, 0)
      decreases |d.team2| - k
    {
      k := k + 1;
      t2Idx := Team2Index(d, k);
    }
  }

  /**
   * The record one iteration builds once both teams are chosen
   * (src/data/cricketData.ts:52-81): toss winner and decision, match winner,
   * home venue, date, and the derived `tossAndMatchWin` flag.
   */
  function MatchFrom(id: int, year: int, format: Format, d: MatchDraws, t1Idx: int, t2Idx: int): MatchRecord
    requires 0 <= t1Idx < |Teams| && 0 <= t2Idx < |Teams|
  {
    var team1 := Teams[t1Idx];
    var team2 := Teams[t2Idx];
    var tossWinner := if d.toss > 0.5 then team1 else team2;
    var tossDecision := if d.decision > 0.48 then Field else Bat;
    var tossWinnerWinsMatch := d.outcome < 0.52;
    var matchWinner := if tossWinnerWinsMatch then tossWinner
                       else if tossWinner == team1 then team2 else team1;
    var venueTeam := if d.venue > 0.5 then team1 else team2;
    var venue := if venueTeam in Venues then Venues[venueTeam] else NeutralVenue;
    var month := Index(d.month, 12) + 1;
    var day := Index(d.day, 28) + 1;
    MatchRecord(
      id, IsoDate(year, month, day), year, format, venue, team1, team2,
      tossWinner, tossDecision, matchWinner, 1, 1,
      if tossWinnerWinsMatch then 1 else 0)
  }

  /** Whatever the draws, two different indices give a record with every generator invariant. */
  lemma MatchFromPlausible(id: int, year: int, format: Format, d: MatchDraws, t1Idx: int, t2Idx: int)
    requires ValidDraws(d)
    requires FirstYear <= year <= LastYear
    requires 0 <= t1Idx < |Teams| && 0 <= t2Idx < |Teams| && t1Idx != t2Idx
    ensures Plausible(MatchFrom(id, year, format, d, t1Idx, t2Idx))
  {
    var m := MatchFrom(id, year, format, d, t1Idx, t2Idx);
    TeamFacts(t1Idx, t2Idx);
    assert m.team1 == Teams[t1Idx] && m.team2 == Teams[t2Idx];
    assert WellFormed(m);
    var month := Index(d.month, 12) + 1;
    var day := Index(d.day, 28) + 1;
    assert IsDateIn(m.date, m.year) by {
      assert m.date == IsoDate(year, month, day) && m.year == year;
      IsoDateReadsBack(year, month, day);
    }
  }

  /** One iteration of the innermost loop of `generateMatches` (src/data/cricketData.ts:48-81). */
  method DrawMatch(id: int, year: int, format: Format, d: MatchDraws) returns (m: MatchRecord)
    requires ValidDraws(d)
    requires FirstYear <= year <= LastYear
    ensures m.id == id && m.year == year && m.format == format
    ensures Plausible(m)
    ensures DrawnFrom(m, d)
  {
    var t1Idx := Index(d.team1, |Teams|);
    var k := RedrawTeam2(d);
    var t2Idx := Team2Index(d, k);
    MatchFromPlausible(id, year, format, d, t1Idx, t2Idx);
    MatchFromDrawn(id, year, format, d, k);
    m := MatchFrom(id, year, format, d, t1Idx, t2Idx);
  }

  /** The record built from the first redraw that names another team is the one its draws select. */
  lemma MatchFromDrawn(id: int, year: int, format: Format, d: MatchDraws, k: int)
    requires ValidDraws(d)
    requires k == FirstRedraw(d, 0) < |d.team2|
    ensures DrawnFrom(MatchFrom(id, year, format, d, Index(d.team1, |Teams|), Team2Index(d, k)), d)
  {
    var m := MatchFrom(id, year, format, d, Index(d.team1, |Teams|), Team2Index(d, k));
    TeamFacts(Index(d.team1, |Teams|), Team2Index(d, k));
  }

  /**
   * `m` is the record the draws `d` select: `team1` by the first draw, `team2`
   * by the first redraw naming another team, and the toss winner, decision,
   * outcome, venue and date each by its own draw, as src/data/cricketData.ts:52-69
   * derives them.
   * With `WellFormed`, the outcome fixes the match winner.
   */
  predicate DrawnFrom(m: MatchRecord, d: MatchDraws)
  {
    && 0 <= Index(d.team1, |Teams|) < |Teams|
    && m.team1 == Teams[Index(d.team1, |Teams|)]
    && FirstRedraw(d, 0) < |d.team2|
    && 0 <= Team2Index(d, FirstRedraw(d, 0)) < |Teams|
    && m.team2 == Teams[Team2Index(d, FirstRedraw(d, 0))]
    && m.tossWinner == (if d.toss > 0.5 then m.team1 else m.team2)
    && m.tossDecision == (if d.decision > 0.48 then Field else Bat)
    && (m.tossAndMatchWin == 1 <==> d.outcome < 0.52)
    && m.team1 in Venues && m.team2 in Venues
    && m.venue == (if d.venue > 0.5 then Venues[m.team1] else Venues[m.team2])
    && m.date == IsoDate(m.year, Index(d.month, 12) + 1, Index(d.day, 28) + 1)
  }

  /** The record at position `i` of the generated list: id, year and format by position. */
  predicate GeneratedAt(m: MatchRecord, i: int)
  {
    && 0 <= i
    && m.id == i + 1
    && m.year == FirstYear + i / MatchesPerYear
    && m.format == SlotFormat(i % MatchesPerYear)
    && Plausible(m)
  }

  /** The slot arithmetic: the `j`-th match of format `f` in year `year` sits at the position the layout gives it. */
  lemma SlotOf(m: MatchRecord, i: int, year: int, f: Format, j: int)
    requires FirstYear <= year
    requires 0 <= j < MatchCount(f)
    requires i == (year - FirstYear) * MatchesPerYear + FormatStart(f) + j
    requires m.id == i + 1 && m.year == year && m.format == f && Plausible(m)
    ensures GeneratedAt(m, i)
  {
    var off := FormatStart(f) + j;
    assert 0 <= off < MatchesPerYear;
    DivModBlock(year - FirstYear, off, i);
    assert SlotFormat(off) == f;
  }

  lemma DivModBlock(q: int, r: int, i: int)
    requires 0 <= q && 0 <= r < MatchesPerYear
    requires i == q * MatchesPerYear + r
    ensures i / MatchesPerYear == q && i % MatchesPerYear == r
  {
  }

  /**
   * `generateMatches`: for each year and each format in order, `MatchCount`
   * matches with consecutive ids from 1. The match with id `k + 1` uses
   * `draw(k)`.
   */
  method GenerateMatches(draw: nat -> MatchDraws) returns (matches: seq<MatchRecord>)
    requires forall k: nat :: ValidDraws(draw(k))
    ensures |matches| == |AllYears| * MatchesPerYear
    ensures forall i :: 0 <= i < |matches| ==> GeneratedAt(matches[i], i)
    ensures forall i :: 0 <= i < |matches| ==> DrawnFrom(matches[i], draw(i))
  {
    matches := [];
    var year := FirstYear;
    while year <= LastYear
      invariant FirstYear <= year <= LastYear + 1
      invariant |matches| == (year - FirstYear) * MatchesPerYear
      invariant AllIndexed(matches, Generated(draw))
    {
      var fi := 0;
      while fi < |AllFormats|
        invariant 0 <= fi <= |AllFormats|
        invariant |matches| == (year - FirstYear) * MatchesPerYear + BlockOffset(fi)
        invariant AllIndexed(matches, Generated(draw))
      {
        BlockOffsetStep(fi);
        matches := AppendFormatBlock(matches, year, AllFormats[fi], draw);
        fi := fi + 1;
      }
      year := year + 1;
    }
  }

  /** Offset, within one year's block, of the first match after the formats before `fi`. */
  function BlockOffset(fi: int): nat
    requires 0 <= fi <= |AllFormats|
  {
    if fi < |AllFormats| then FormatStart(AllFormats[fi]) else MatchesPerYear
  }

  lemma BlockOffsetStep(fi: int)
    requires 0 <= fi < |AllFormats|
    ensures BlockOffset(fi) == FormatStart(AllFormats[fi])
    ensures BlockOffset(fi + 1) == BlockOffset(fi) + MatchCount(AllFormats[fi])
  {
  }

  /**
   * The body of the format loop of `generateMatches` (src/data/cricketData.ts:46-82):
   * `MatchCount(format)` matches of one
   * format in one year, the next id being one past the matches so far.
   */
  method AppendFormatBlock(matches: seq<MatchRecord>, year: int, format: Format, draw: nat -> MatchDraws)
    returns (out: seq<MatchRecord>)
    requires forall k: nat :: ValidDraws(draw(k))
    requires FirstYear <= year <= LastYear
    requires |matches| == (year - FirstYear) * MatchesPerYear + FormatStart(format)
    requires AllIndexed(matches, Generated(draw))
    ensures |out| == |matches| + MatchCount(format)
    ensures out[..|matches|] == matches
    ensures AllIndexed(out, Generated(draw))
  {
    out := matches;
    var id := |matches| + 1;
    var m := 0;
    while m < MatchCount(format)
      invariant 0 <= m <= MatchCount(format)
      invariant |out| == |matches| + m
      invariant out[..|matches|] == matches
      invariant id == |out| + 1
      invariant AllIndexed(out, Generated(draw))
    {
      var record := DrawMatch(id, year, format, draw(|out|));
      SlotOf(record, |out|, year, format, m);
      GeneratedOf(record, |out|, draw);
      AllIndexedAppend(out, record, Generated(draw));
      out := out + [record];
      id := id + 1;
      m := m + 1;
    }
  }

  /** A record that sits where the layout puts position `i` and carries the draws of that position. */
  function Generated(draw: nat -> MatchDraws): (MatchRecord, int) -> bool
  {
    (m: MatchRecord, i: int) => i >= 0 && GeneratedAt(m, i) && DrawnFrom(m, draw(i))
  }

  lemma GeneratedOf(m: MatchRecord, i: nat, draw: nat -> MatchDraws)
    requires GeneratedAt(m, i) && DrawnFrom(m, draw(i))
    ensures Generated(draw)(m, i)
  {
  }

  /** A record's year and format together. */
  function YearFormatOf(m: MatchRecord): (int, Format)
  {
    (m.year, m.format)
  }

  lemma SlotFormatExact(j: int, f: Format)
    requires 0 <= j < MatchesPerYear
    ensures SlotFormat(j) == f <==> FormatStart(f) <= j < FormatStart(f) + MatchCount(f)
  {
  }

  /** Year `y` of `AllYears` holds exactly `MatchCount(f)` matches of format `f`. */
  lemma GeneratedYearFormatCount(ms: seq<MatchRecord>, y: int, f: Format)
    requires |ms| == |AllYears| * MatchesPerYear
    requires forall i :: 0 <= i < |ms| ==> GeneratedAt(ms[i], i)
    requires y in AllYears
    ensures |Filter(ms, KeyIs(YearFormatOf, (y, f)))| == MatchCount(f)
  {
    AllYearsRange(y);
    var lo := (y - FirstYear) * MatchesPerYear + FormatStart(f);
    var hi := lo + MatchCount(f);
    forall i | 0 <= i < |ms|
      ensures KeyIs(YearFormatOf, (y, f))(ms[i]) <==> lo <= i < hi
    {
      assert GeneratedAt(ms[i], i);
      YearFormatAt(ms[i], i, y, f);
    }
    FilterInterval(ms, KeyIs(YearFormatOf, (y, f)), lo, hi);
  }

  /** The record at position `i` has year `y` and format `f` exactly when `i` falls in that year's block of `f`. */
  lemma YearFormatAt(m: MatchRecord, i: int, y: int, f: Format)
    requires 0 <= i && m.year == FirstYear + i / MatchesPerYear
    requires m.format == SlotFormat(i % MatchesPerYear)
    requires FirstYear <= y
    ensures var lo := (y - FirstYear) * MatchesPerYear + FormatStart(f);
      KeyIs(YearFormatOf, (y, f))(m) <==> lo <= i < lo + MatchCount(f)
  {
    var q, r := i / MatchesPerYear, i % MatchesPerYear;
    DivModBlock(q, r, i);
    SlotFormatExact(r, f);
    assert KeyIs(YearFormatOf, (y, f))(m) <==> YearFormatOf(m) == (y, f);
    assert m.year == y <==> q == y - FirstYear;
  }

  /** Year `y` of `AllYears` holds exactly `MatchesPerYear` matches. */
  lemma GeneratedYearCount(ms: seq<MatchRecord>, y: int)
    requires |ms| == |AllYears| * MatchesPerYear
    requires forall i :: 0 <= i < |ms| ==> GeneratedAt(ms[i], i)
    requires y in AllYears
    ensures |Filter(ms, KeyIs(YearOf, y))| == MatchesPerYear
  {
    AllYearsRange(y);
    var lo := (y - FirstYear) * MatchesPerYear;
    forall i | 0 <= i < |ms|
      ensures KeyIs(YearOf, y)(ms[i]) <==> lo <= i < lo + MatchesPerYear
    {
      assert GeneratedAt(ms[i], i);
      YearAt(ms[i], i, y);
    }
    FilterInterval(ms, KeyIs(YearOf, y), lo, lo + MatchesPerYear);
  }

  /** The record at position `i` has year `y` exactly when `i` falls in that year's block. */
  lemma YearAt(m: MatchRecord, i: int, y: int)
    requires 0 <= i && m.year == FirstYear + i / MatchesPerYear
    requires FirstYear <= y
    ensures var lo := (y - FirstYear) * MatchesPerYear;
      KeyIs(YearOf, y)(m) <==> lo <= i < lo + MatchesPerYear
  {
    var q, r := i / MatchesPerYear, i % MatchesPerYear;
    DivModBlock(q, r, i);
    assert KeyIs(YearOf, y)(m) <==> YearOf(m) == y;
    assert m.year == y <==> q == y - FirstYear;
  }

  /** Every generated record carries a year of `AllYears`. */
  lemma GeneratedYearsInRange(ms: seq<MatchRecord>)
    requires |ms| == |AllYears| * MatchesPerYear
    requires forall i :: 0 <= i < |ms| ==> GeneratedAt(ms[i], i)
    ensures forall i :: 0 <= i < |ms| ==> ms[i].year in AllYears
  {
    forall i | 0 <= i < |ms|
      ensures ms[i].year in AllYears
    {
      assert GeneratedAt(ms[i], i);
      DivModBlock(i / MatchesPerYear, i % MatchesPerYear, i);
      AllYearsRange(ms[i].year);
    }
  }
}
