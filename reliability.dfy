/**
 * Programme reliability: laps per team and day (the heat-map grid), total laps
 * per team, the stint summary per team and the laps per driver. Every lap row
 * counts here, whatever its lap time.
 */
module Reliability {
  import opened Collections
  import opened Sorting
  import opened Strings
  import opened LapTable
  import opened Stats

  function DayOf(l: Lap): int { l.day }

  predicate IntLe(a: int, b: int) { a <= b }

  predicate NatLe(a: nat, b: nat) { a <= b }

  lemma NatOrder()
    ensures TotalPreorder(NatLe)
  {
  }

  /** Sorting distinct days gives the same days in strictly increasing order. */
  lemma SortDistinctDays(s: seq<int>, r: seq<int>)
    requires NoDup(s) && r == SortBy(s, IntLe)
    ensures forall x :: x in r <==> x in s
    ensures forall i, j :: 0 <= i < j < |r| ==> r[i] < r[j]
  {
    forall x ensures x in r <==> x in s {
      assert x in r <==> x in multiset(r);
      assert x in s <==> x in multiset(s);
    }
    SortBySorted(s, IntLe);
    NoDupPermutation(s, r);
    SortedDistinctStrict(r, IntLe, (a: int, b: int) => a < b);
  }

  /** The grid's row labels: every team once, in string order. */
  function SortedTeams(laps: seq<Lap>): (teams: seq<string>)
    ensures forall t :: t in teams <==> t in Project(laps, TeamOf)
    ensures forall i, j :: 0 <= i < j < |teams| ==> StrLt(teams[i], teams[j])
  {
    var d := Distinct(Project(laps, TeamOf));
    var teams := SortBy(d, StrLe);
    SortDistinctStrings(d, teams);
    teams
  }

  /** The grid's column labels: every day once, ascending. */
  function SortedDays(laps: seq<Lap>): (days: seq<int>)
    ensures forall d :: d in days <==> d in Project(laps, DayOf)
    ensures forall i, j :: 0 <= i < j < |days| ==> days[i] < days[j]
  {
    var d := Distinct(Project(laps, DayOf));
    var days := SortBy(d, IntLe);
    SortDistinctDays(d, days);
    days
  }

  // ---------------------------------------------------------------------------
  // compute_laps_per_team_day

  /** The pivot table: one row per team, one column per day, a lap count in each cell. */
  datatype LapGrid = LapGrid(teams: seq<string>, days: seq<int>, cells: seq<seq<nat>>)

  /** The (team, day) keys of one grid row. */
  function TeamDays(team: string, days: seq<int>): (ks: seq<(string, int)>)
    ensures |ks| == |days|
    ensures forall j :: 0 <= j < |days| ==> ks[j] == (team, days[j])
  {
    seq(|days|, j requires 0 <= j < |days| => (team, days[j]))
  }

  /** `compute_laps_per_team_day`: the lap count of each (team, day), 0 where a team did not run that day. */
  function LapsPerTeamDay(laps: seq<Lap>): (g: LapGrid)
    ensures g.teams == SortedTeams(laps) && g.days == SortedDays(laps)
    ensures |g.cells| == |g.teams|
    ensures forall i :: 0 <= i < |g.teams| ==> |g.cells[i]| == |g.days|
    ensures forall i, j :: 0 <= i < |g.teams| && 0 <= j < |g.days| ==>
      g.cells[i][j] == CountIn(laps, TeamDayOf, {(g.teams[i], g.days[j])})
  {
    var teams, days := SortedTeams(laps), SortedDays(laps);
    LapGrid(teams, days, seq(|teams|, i requires 0 <= i < |teams| => Counts(laps, TeamDayOf, TeamDays(teams[i], days))))
  }

  /** A cell is the size of its (team, day) group: positive exactly when the team ran that day. */
  lemma GridCellMeaning(laps: seq<Lap>, i: int, j: int)
    requires var g := LapsPerTeamDay(laps); 0 <= i < |g.teams| && 0 <= j < |g.days|
    ensures var g := LapsPerTeamDay(laps);
      && g.cells[i][j] == |Select(laps, TeamDayOf, (g.teams[i], g.days[j]))|
      && (g.cells[i][j] > 0 <==> exists l :: l in laps && l.team == g.teams[i] && l.day == g.days[j])
  {
    var g := LapsPerTeamDay(laps);
    var k := (g.teams[i], g.days[j]);
    SelectSize(laps, TeamDayOf, k);
    if g.cells[i][j] > 0 {
      var l := Select(laps, TeamDayOf, k)[0];
      assert l in Select(laps, TeamDayOf, k);
    }
    if l :| l in laps && l.team == g.teams[i] && l.day == g.days[j] {
      assert l in Select(laps, TeamDayOf, k);
    }
  }

  /** The days of a row are distinct (team, day) keys. */
  lemma TeamDaysNoDup(team: string, days: seq<int>)
    requires NoDup(days)
    ensures NoDup(TeamDays(team, days))
  {
  }

  /** A grid row adds up to the team's laps (the heat map's `Total` column). */
  lemma GridRowTotal(laps: seq<Lap>, i: int)
    requires 0 <= i < |LapsPerTeamDay(laps).teams|
    ensures var g := LapsPerTeamDay(laps);
      SumNat(g.cells[i]) == CountIn(laps, TeamOf, {g.teams[i]})
  {
    var g := LapsPerTeamDay(laps);
    var t := g.teams[i];
    var ks := TeamDays(t, g.days);
    assert g.cells[i] == Counts(laps, TeamDayOf, ks);
    TeamDaysNoDup(t, g.days);
    CountsSum(laps, TeamDayOf, ks);
    forall l | l in laps ensures TeamDayOf(l) in (set k | k in ks) <==> TeamOf(l) in {t} {
      InProject(laps, DayOf, l);
      var j :| 0 <= j < |g.days| && g.days[j] == l.day;
      if l.team == t {
        assert ks[j] == TeamDayOf(l);
      }
    }
    CountInAgree(laps, TeamDayOf, (set k | k in ks), TeamOf, {t});
  }

  // ---------------------------------------------------------------------------
  // compute_total_laps

  datatype TeamTotal = TeamTotal(team: string, totalLaps: nat)

  function TotalTeam(r: TeamTotal): string { r.team }
  function TotalLapsOf(r: TeamTotal): nat { r.totalLaps }

  predicate MoreLaps(a: TeamTotal, b: TeamTotal) { a.totalLaps >= b.totalLaps }

  lemma MoreLapsOrder()
    ensures TotalPreorder(MoreLaps)
  {
  }

  /** The unsorted totals: one row per team, in order of first appearance. */
  function TotalsTable(laps: seq<Lap>): (table: seq<TeamTotal>)
    ensures KeysDistinct(table, TotalTeam)
    ensures forall t :: t in Project(table, TotalTeam) <==> t in Project(laps, TeamOf)
    ensures forall r :: r in table ==> r.totalLaps == CountIn(laps, TeamOf, {r.team})
  {
    var teams := Distinct(Project(laps, TeamOf));
    var table := seq(|teams|, i requires 0 <= i < |teams| => TeamTotal(teams[i], CountIn(laps, TeamOf, {teams[i]})));
    assert Project(table, TotalTeam) == teams;
    table
  }

  /** `compute_total_laps`: every team's lap count, most laps first. */
  function ComputeTotalLaps(laps: seq<Lap>): (rows: seq<TeamTotal>)
    ensures Sorted(rows, MoreLaps)
  {
    var table := TotalsTable(laps);
    MoreLapsOrder();
    SortBySorted(table, MoreLaps);
    SortBy(table, MoreLaps)
  }

  /** One row per team of the lap table, holding the size of that team's group. */
  lemma TotalLapsOneRowPerTeam(laps: seq<Lap>)
    ensures var rows := ComputeTotalLaps(laps);
      && KeysDistinct(rows, TotalTeam)
      && (forall t :: t in Project(rows, TotalTeam) <==> t in Project(laps, TeamOf))
      && (forall r :: r in rows ==> r.totalLaps == |Select(laps, TeamOf, r.team)| > 0)
  {
    var table := TotalsTable(laps);
    var rows := ComputeTotalLaps(laps);
    KeysDistinctPermutation(table, rows, TotalTeam);
    PermutationProject(table, rows, TotalTeam);
    forall r | r in rows ensures r.totalLaps == |Select(laps, TeamOf, r.team)| > 0 {
      SelectSize(laps, TeamOf, r.team);
      InProject(rows, TotalTeam, r);
      GroupNonEmpty(laps, TeamOf, r.team);
    }
  }

  /** The totals add up to the number of laps. */
  lemma TotalLapsAddUp(laps: seq<Lap>)
    ensures SumBy(ComputeTotalLaps(laps), TotalLapsOf) == |laps|
  {
    var teams := Distinct(Project(laps, TeamOf));
    var table := TotalsTable(laps);
    SumByPermutation(ComputeTotalLaps(laps), table, TotalLapsOf);
    SumByProject(table, TotalLapsOf);
    assert Project(table, TotalLapsOf) == Counts(laps, TeamOf, teams);
    CountsSum(laps, TeamOf, teams);
    forall l | l in laps ensures TeamOf(l) in (set t | t in teams) {
      InProject(laps, TeamOf, l);
    }
    CountInAll(laps, TeamOf, (set t | t in teams));
  }

  /** A team's total equals its row sum in the grid. */
  lemma TotalMatchesGrid(laps: seq<Lap>, i: int, r: TeamTotal)
    requires 0 <= i < |LapsPerTeamDay(laps).teams|
    requires r in ComputeTotalLaps(laps) && r.team == LapsPerTeamDay(laps).teams[i]
    ensures SumNat(LapsPerTeamDay(laps).cells[i]) == r.totalLaps
  {
    GridRowTotal(laps, i);
    TotalLapsOneRowPerTeam(laps);
    SelectSize(laps, TeamOf, r.team);
  }

  // ---------------------------------------------------------------------------
  // compute_stint_summary

  datatype StintSummary = StintSummary(team: string, totalStints: nat, maxStintLength: nat, meanStintLength: real)

  function SummaryTeam(r: StintSummary): string { r.team }

  predicate MoreStints(a: StintSummary, b: StintSummary) { a.totalStints >= b.totalStints }

  lemma MoreStintsOrder()
    ensures TotalPreorder(MoreStints)
  {
  }

  /** Whether a stint belongs to `team`. */
  function OfTeam(team: string): StintKey -> bool
  {
    (k: StintKey) => k.team == team
  }

  /** The stints of one team, each once: the team's rows of the per-stint table. */
  function TeamStints(laps: seq<Lap>, team: string): (ks: seq<StintKey>)
    ensures NoDup(ks)
    ensures forall k :: k in ks <==> k.team == team && k in Project(laps, KeyOf)
  {
    var all := Distinct(Project(laps, KeyOf));
    FilterNoDup(all, OfTeam(team));
    Filter(all, OfTeam(team))
  }

  /** The lap count of each of the team's stints (`StintLaps`). */
  function StintLengths(laps: seq<Lap>, team: string): (lengths: seq<nat>)
    ensures |lengths| == |TeamStints(laps, team)|
  {
    Counts(laps, KeyOf, TeamStints(laps, team))
  }

  /** The summary row of one team: its stint count, longest stint and mean stint length in laps. */
  function SummaryOf(laps: seq<Lap>, team: string): (r: StintSummary)
    requires team in Project(laps, TeamOf)
    ensures r.team == team && r.totalStints == |TeamStints(laps, team)| > 0
    ensures forall k :: k in TeamStints(laps, team) ==> CountIn(laps, KeyOf, {k}) <= r.maxStintLength
    ensures exists k :: k in TeamStints(laps, team) && CountIn(laps, KeyOf, {k}) == r.maxStintLength
  {
    var ks := TeamStints(laps, team);
    var i :| 0 <= i < |laps| && Project(laps, TeamOf)[i] == team;
    InProject(laps, KeyOf, laps[i]);
    assert KeyOf(laps[i]) in ks;
    var lengths := StintLengths(laps, team);
    NatOrder();
    var longest := Largest(lengths, NatLe);
    forall k | k in ks ensures CountIn(laps, KeyOf, {k}) <= longest {
      var j :| 0 <= j < |ks| && ks[j] == k;
      assert lengths[j] in lengths;
    }
    var j :| 0 <= j < |lengths| && lengths[j] == longest;
    assert ks[j] in ks;
    StintSummary(team, |ks|, longest, (SumNat(lengths) as real) / (|ks| as real))
  }

  /** A team's stint lengths add up to its laps. */
  lemma StintLengthsAddUp(laps: seq<Lap>, team: string)
    ensures SumNat(StintLengths(laps, team)) == CountIn(laps, TeamOf, {team})
  {
    var ks := TeamStints(laps, team);
    CountsSum(laps, KeyOf, ks);
    forall l | l in laps ensures KeyOf(l) in (set k | k in ks) <==> TeamOf(l) in {team} {
      InProject(laps, KeyOf, l);
    }
    CountInAgree(laps, KeyOf, (set k | k in ks), TeamOf, {team});
  }

  /** The mean stint length is the team's total laps spread over its stints. */
  lemma StintMeanIsLapsPerStint(laps: seq<Lap>, team: string)
    requires team in Project(laps, TeamOf)
    ensures var r := SummaryOf(laps, team);
      r.meanStintLength == (CountIn(laps, TeamOf, {team}) as real) / (r.totalStints as real)
  {
    StintLengthsAddUp(laps, team);
  }

  /** Every stint has at least one lap, and the mean stint length lies between 1 and the longest stint. */
  lemma StintMeanBounds(laps: seq<Lap>, team: string)
    requires team in Project(laps, TeamOf)
    ensures var r := SummaryOf(laps, team);
      1.0 <= r.meanStintLength <= r.maxStintLength as real
  {
    var r := SummaryOf(laps, team);
    var ks := TeamStints(laps, team);
    var lengths := StintLengths(laps, team);
    forall x | x in lengths ensures 1 <= x <= r.maxStintLength {
      var j :| 0 <= j < |lengths| && lengths[j] == x;
      assert ks[j] in ks;
      SelectSize(laps, KeyOf, ks[j]);
      GroupNonEmpty(laps, KeyOf, ks[j]);
    }
    SumNatBound(lengths, r.maxStintLength);
    SumNatLowerBound(lengths, 1);
    assert r.meanStintLength == (SumNat(lengths) as real) / (|ks| as real);
    NatQuotientBounds(SumNat(lengths), |ks|, r.maxStintLength);
  }

  /** From `n <= total <= n * hi`: `1 <= total / n <= hi`. */
  lemma NatQuotientBounds(total: nat, n: nat, hi: nat)
    requires 0 < n && n * 1 <= total <= n * hi
    ensures 1.0 <= (total as real) / (n as real) <= hi as real
  {
    assert (n * hi) as real == (n as real) * (hi as real);
    QuotientBetween(1.0, hi as real, total as real, n as real);
  }

  /** The team's stint count is the number of distinct (Driver, Day, Stint) groups it ran. */
  lemma StintCountIsDistinctStints(laps: seq<Lap>, team: string)
    requires team in Project(laps, TeamOf)
    ensures SummaryOf(laps, team).totalStints == |set l | l in laps && l.team == team :: KeyOf(l)|
  {
    var ks := TeamStints(laps, team);
    NoDupCardinality(ks);
    assert (set k | k in ks) == (set l | l in laps && l.team == team :: KeyOf(l)) by {
      forall k | k in ks ensures k in (set l | l in laps && l.team == team :: KeyOf(l)) {
        var i :| 0 <= i < |laps| && Project(laps, KeyOf)[i] == k;
        assert laps[i] in laps;
      }
      forall l | l in laps && l.team == team ensures KeyOf(l) in ks {
        InProject(laps, KeyOf, l);
      }
    }
  }

  /** The unsorted summary: one row per team, in order of first appearance. */
  function SummaryTable(laps: seq<Lap>): (table: seq<StintSummary>)
    ensures KeysDistinct(table, SummaryTeam)
    ensures forall t :: t in Project(table, SummaryTeam) <==> t in Project(laps, TeamOf)
    ensures forall r :: r in table ==> r.team in Project(laps, TeamOf) && r == SummaryOf(laps, r.team)
  {
    var teams := Distinct(Project(laps, TeamOf));
    var table := seq(|teams|, i requires 0 <= i < |teams| =>
      assert teams[i] in teams;
      SummaryOf(laps, teams[i]));
    assert Project(table, SummaryTeam) == teams;
    table
  }

  /** `compute_stint_summary`: the team rows, most stints first. */
  function ComputeStintSummary(laps: seq<Lap>): (rows: seq<StintSummary>)
    ensures Sorted(rows, MoreStints)
  {
    var table := SummaryTable(laps);
    MoreStintsOrder();
    SortBySorted(table, MoreStints);
    SortBy(table, MoreStints)
  }

  /** One row per team of the lap table, each that team's summary. */
  lemma StintSummaryOneRowPerTeam(laps: seq<Lap>)
    ensures var rows := ComputeStintSummary(laps);
      && KeysDistinct(rows, SummaryTeam)
      && (forall t :: t in Project(rows, SummaryTeam) <==> t in Project(laps, TeamOf))
      && (forall r :: r in rows ==> r.team in Project(laps, TeamOf) && r == SummaryOf(laps, r.team))
  {
    var table := SummaryTable(laps);
    var rows := ComputeStintSummary(laps);
    KeysDistinctPermutation(table, rows, SummaryTeam);
    PermutationProject(table, rows, SummaryTeam);
  }

  // ---------------------------------------------------------------------------
  // compute_laps_per_driver

  datatype DriverLaps = DriverLaps(team: string, driver: string, laps: nat)

  function DriverKey(r: DriverLaps): (string, string) { (r.team, r.driver) }

  /** Team ascending, then laps descending. */
  predicate TeamThenMoreLaps(a: DriverLaps, b: DriverLaps)
  {
    StrLt(a.team, b.team) || (a.team == b.team && a.laps >= b.laps)
  }

  lemma TeamThenMoreLapsOrder()
    ensures TotalPreorder(TeamThenMoreLaps)
  {
    forall a, b ensures TeamThenMoreLaps(a, b) || TeamThenMoreLaps(b, a) {
      StrLtTrichotomy(a.team, b.team);
    }
    forall a, b, c | TeamThenMoreLaps(a, b) && TeamThenMoreLaps(b, c) ensures TeamThenMoreLaps(a, c) {
      if StrLt(a.team, b.team) && StrLt(b.team, c.team) {
        StrLtTransitive(a.team, b.team, c.team);
      }
    }
  }

  /** The unsorted table: one row per (team, driver), in order of first appearance. */
  function DriverTable(laps: seq<Lap>): (table: seq<DriverLaps>)
    ensures KeysDistinct(table, DriverKey)
    ensures forall p :: p in Project(table, DriverKey) <==> p in Project(laps, TeamDriverOf)
    ensures forall r :: r in table ==> r.laps == CountIn(laps, TeamDriverOf, {DriverKey(r)})
  {
    var pairs := Distinct(Project(laps, TeamDriverOf));
    var table := seq(|pairs|, i requires 0 <= i < |pairs| =>
      DriverLaps(pairs[i].0, pairs[i].1, CountIn(laps, TeamDriverOf, {pairs[i]})));
    assert Project(table, DriverKey) == pairs;
    table
  }

  /** `compute_laps_per_driver`: the lap count of every driver, by team, busiest driver first. */
  function ComputeLapsPerDriver(laps: seq<Lap>): (rows: seq<DriverLaps>)
    ensures Sorted(rows, TeamThenMoreLaps)
  {
    var table := DriverTable(laps);
    TeamThenMoreLapsOrder();
    SortBySorted(table, TeamThenMoreLaps);
    SortBy(table, TeamThenMoreLaps)
  }

  /** One row per (team, driver) pair of the lap table, holding that pair's lap count. */
  lemma DriverLapsOneRowPerDriver(laps: seq<Lap>)
    ensures var rows := ComputeLapsPerDriver(laps);
      && KeysDistinct(rows, DriverKey)
      && (forall p :: p in Project(rows, DriverKey) <==> p in Project(laps, TeamDriverOf))
      && (forall r :: r in rows ==> r.laps == |Select(laps, TeamDriverOf, DriverKey(r))| > 0)
  {
    var table := DriverTable(laps);
    var rows := ComputeLapsPerDriver(laps);
    KeysDistinctPermutation(table, rows, DriverKey);
    PermutationProject(table, rows, DriverKey);
    forall r | r in rows ensures r.laps == |Select(laps, TeamDriverOf, DriverKey(r))| > 0 {
      SelectSize(laps, TeamDriverOf, DriverKey(r));
      InProject(rows, DriverKey, r);
      GroupNonEmpty(laps, TeamDriverOf, DriverKey(r));
    }
  }

  /** The laps of a row if it belongs to `team`, else 0. */
  function LapsIfTeam(team: string): DriverLaps -> nat
  {
    (r: DriverLaps) => if r.team == team then r.laps else 0
  }

  /** Counting a (team, driver) pair within one team's laps. */
  lemma {:induction false} CountWithinTeam(laps: seq<Lap>, team: string, p: (string, string))
    ensures CountIn(Select(laps, TeamOf, team), TeamDriverOf, {p})
      == if p.0 == team then CountIn(laps, TeamDriverOf, {p}) else 0
  {
    if laps != [] {
      CountWithinTeam(laps[1..], team, p);
      var g := Select(laps, TeamOf, team);
      if laps[0].team == team {
        assert g == [laps[0]] + Select(laps[1..], TeamOf, team);
        assert g[0] == laps[0] && g[1..] == Select(laps[1..], TeamOf, team);
      } else {
        assert g == Select(laps[1..], TeamOf, team);
      }
    }
  }

  /** A team's driver rows add up to the team's total laps. */
  lemma DriverLapsAddUpToTeam(laps: seq<Lap>, team: string)
    ensures SumBy(ComputeLapsPerDriver(laps), LapsIfTeam(team)) == CountIn(laps, TeamOf, {team})
  {
    var pairs := Distinct(Project(laps, TeamDriverOf));
    var table := DriverTable(laps);
    var group := Select(laps, TeamOf, team);
    SumByPermutation(ComputeLapsPerDriver(laps), table, LapsIfTeam(team));
    SumByProject(table, LapsIfTeam(team));
    forall i | 0 <= i < |table| ensures Project(table, LapsIfTeam(team))[i] == Counts(group, TeamDriverOf, pairs)[i] {
      CountWithinTeam(laps, team, pairs[i]);
    }
    assert Project(table, LapsIfTeam(team)) == Counts(group, TeamDriverOf, pairs);
    CountsSum(group, TeamDriverOf, pairs);
    forall l | l in group ensures TeamDriverOf(l) in (set p | p in pairs) {
      InProject(laps, TeamDriverOf, l);
    }
    CountInAll(group, TeamDriverOf, (set p | p in pairs));
    SelectSize(laps, TeamOf, team);
  }
}
