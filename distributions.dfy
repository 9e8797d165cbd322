/**
 * Lap-time distributions: the per-team summary table (min, median, mean,
 * sample standard deviation and count of the recorded lap times, plus the
 * headline gap between a team's median and its fastest lap), ranked by
 * median, and the choice of compound panels for the compound figure.
 */
module Distributions {
  import opened Wrappers
  import opened Collections
  import opened Sorting
  import opened Stats
  import opened LapTable

  /** One row of `compute_team_stats`; a statistic of no values is missing. */
  datatype TeamStats = TeamStats(
    team: string,
    min: Option<real>,
    median: Option<real>,
    mean: Option<real>,
    std: Option<real>,
    count: nat,
    headlineGap: Option<real>)

  function StatsTeam(r: TeamStats): string { r.team }

  predicate HasTime(l: Lap) { l.lapTime.Some? }

  /** The laps of `team` whose time is recorded. */
  function TimedLapOf(team: string): Lap -> bool
  {
    (l: Lap) => l.team == team && l.lapTime.Some?
  }

  /** The recorded lap times of one team, in table order (the group's non-missing values). */
  function TeamTimes(laps: seq<Lap>, team: string): (ts: seq<real>)
    ensures forall x :: x in ts <==> exists l :: l in laps && l.team == team && l.lapTime == Some(x)
  {
    var group := Select(laps, TeamOf, team);
    var col := Project(group, LapTimeOf);
    forall x ensures x in Somes(col) <==> exists l :: l in laps && l.team == team && l.lapTime == Some(x) {
      if x in Somes(col) {
        var i :| 0 <= i < |col| && col[i] == Some(x);
        assert group[i] in group;
      }
      if l :| l in laps && l.team == team && l.lapTime == Some(x) {
        assert l in group;
        var i :| 0 <= i < |group| && group[i] == l;
        assert col[i] == Some(x);
      }
    }
    Somes(col)
  }

  /** The aggregate row of one team. */
  function TeamRow(laps: seq<Lap>, team: string, root: real -> real): (r: TeamStats)
    ensures r.team == team && r.count == |TeamTimes(laps, team)|
    ensures r.min.Some? <==> r.count > 0
    ensures r.median.Some? <==> r.count > 0
    ensures r.mean.Some? <==> r.count > 0
    ensures r.headlineGap.Some? <==> r.count > 0
    ensures r.std.Some? <==> r.count >= 2
    ensures r.count > 0 ==>
      && r.min.value in TeamTimes(laps, team)
      && (forall x :: x in TeamTimes(laps, team) ==> r.min.value <= x)
      && r.min.value <= r.median.value
      && r.min.value <= r.mean.value
      && r.headlineGap.value == r.median.value - r.min.value >= 0.0
    ensures r.count > 0 ==>
      && r.median.value <= Max(TeamTimes(laps, team))
      && r.mean.value <= Max(TeamTimes(laps, team))
      && (r.count % 2 == 1 ==> r.median.value in TeamTimes(laps, team))
    ensures r.count > 0 ==>
      && r.median == Some(Median(TeamTimes(laps, team)))
      && r.mean == Some(Mean(TeamTimes(laps, team)))
    ensures r.std == StdDev(TeamTimes(laps, team), root)
  {
    var ts := TeamTimes(laps, team);
    if ts == [] then TeamStats(team, None, None, None, None, 0, None)
    else
      MeanBounds(ts);
      var lo, mid := Min(ts), Median(ts);
      TeamStats(team, Some(lo), Some(mid), Some(Mean(ts)), StdDev(ts, root), |ts|, Some(mid - lo))
  }

  /** A team's count is the number of its laps with a recorded time. */
  lemma TeamCount(laps: seq<Lap>, team: string, root: real -> real)
    ensures TeamRow(laps, team, root).count == |Filter(laps, TimedLapOf(team))|
  {
    var group := Select(laps, TeamOf, team);
    SomesCount(group, LapTimeOf, HasTime);
    FilterOfSelect(laps, TeamOf, team, HasTime, TimedLapOf(team));
  }

  predicate MedianLe(a: TeamStats, b: TeamStats)
  {
    NanLastLe(a.median, b.median)
  }

  lemma MedianOrder()
    ensures TotalPreorder(MedianLe)
  {
  }

  /** The unsorted table: one row per team, in order of first appearance. */
  function TeamTable(laps: seq<Lap>, root: real -> real): (table: seq<TeamStats>)
    ensures KeysDistinct(table, StatsTeam)
    ensures forall t :: t in Project(table, StatsTeam) <==> t in Project(laps, TeamOf)
    ensures forall r :: r in table ==> r == TeamRow(laps, r.team, root)
  {
    var teams := Distinct(Project(laps, TeamOf));
    var table := seq(|teams|, i requires 0 <= i < |teams| => TeamRow(laps, teams[i], root));
    assert Project(table, StatsTeam) == teams;
    table
  }

  /** `compute_team_stats`: the team rows ascending by median, teams without a median last. */
  function ComputeTeamStats(laps: seq<Lap>, root: real -> real): (rows: seq<TeamStats>)
    ensures Sorted(rows, MedianLe)
  {
    var table := TeamTable(laps, root);
    MedianOrder();
    SortBySorted(table, MedianLe);
    SortBy(table, MedianLe)
  }

  /** Exactly one row per team of the lap table, and each row is that team's aggregate. */
  lemma TeamStatsOneRowPerTeam(laps: seq<Lap>, root: real -> real)
    ensures var rows := ComputeTeamStats(laps, root);
      && KeysDistinct(rows, StatsTeam)
      && (forall t :: t in Project(rows, StatsTeam) <==> t in Project(laps, TeamOf))
      && (forall r :: r in rows ==> r == TeamRow(laps, r.team, root))
  {
    var table := TeamTable(laps, root);
    var rows := ComputeTeamStats(laps, root);
    KeysDistinctPermutation(table, rows, StatsTeam);
    PermutationProject(table, rows, StatsTeam);
  }

  /** The ranking lists the teams with a median first, by increasing median. */
  lemma MissingMediansLast(laps: seq<Lap>, root: real -> real)
    ensures var rows := ComputeTeamStats(laps, root);
      forall i, j :: 0 <= i < j < |rows| ==>
        (rows[i].median.None? ==> rows[j].median.None?) &&
        (rows[j].median.Some? ==> rows[i].median.value <= rows[j].median.value)
  {
    var rows := ComputeTeamStats(laps, root);
    forall i, j | 0 <= i < j < |rows|
      ensures rows[i].median.None? ==> rows[j].median.None?
      ensures rows[j].median.Some? ==> rows[i].median.value <= rows[j].median.value
    {
      assert MedianLe(rows[i], rows[j]);
    }
  }

  // ---------------------------------------------------------------------------
  // Compound panels of plot_compound_distributions

  /** The compounds in the order the figure prefers them. */
  const Canonical: seq<string> := ["SOFT", "MEDIUM", "HARD"]

  /** Whether the Compound column holds `c` (the column's `unique()` values, missing ones included). */
  function PresentIn(laps: seq<Lap>): string -> bool
  {
    (c: string) => Some(c) in Project(laps, CompoundOf)
  }

  /** The panels: the canonical compounds present, else every present compound in order of first appearance; None when there is none. */
  function CompoundPanels(laps: seq<Lap>): (panels: Option<seq<string>>)
    ensures panels.Some? ==> panels.value != [] && NoDup(panels.value)
    ensures panels.Some? ==> forall c :: c in panels.value ==> Some(c) in Project(laps, CompoundOf)
  {
    var col := Project(laps, CompoundOf);
    var preferred := Filter(Canonical, PresentIn(laps));
    assert NoDup(Canonical);
    FilterNoDup(Canonical, PresentIn(laps));
    var compounds := if preferred != [] then preferred else Distinct(Somes(col));
    if compounds == [] then None else Some(compounds)
  }

  /** The position of a compound in the preferred order. */
  function Rank(c: string): nat
  {
    if c == "SOFT" then 0 else if c == "MEDIUM" then 1 else 2
  }

  /** The compound column holds `Some(c)` exactly when some lap ran on `c`. */
  lemma CompoundColumn(laps: seq<Lap>)
    ensures forall o :: o in Project(laps, CompoundOf) <==> exists l :: l in laps && l.compound == o
  {
    var col := Project(laps, CompoundOf);
    forall o ensures o in col <==> exists l :: l in laps && l.compound == o {
      if o in col {
        var i :| 0 <= i < |col| && col[i] == o;
        assert laps[i] in laps;
      }
      if l :| l in laps && l.compound == o {
        InProject(laps, CompoundOf, l);
      }
    }
  }

  /** The panels are distinct compounds of the table; none only when no lap has a compound. */
  lemma CompoundPanelsPresent(laps: seq<Lap>)
    ensures CompoundPanels(laps).None? <==> forall l :: l in laps ==> l.compound.None?
    ensures CompoundPanels(laps).Some? ==>
      && NoDup(CompoundPanels(laps).value)
      && forall c :: c in CompoundPanels(laps).value ==> exists l :: l in laps && l.compound == Some(c)
  {
    var col := Project(laps, CompoundOf);
    CompoundColumn(laps);
    assert NoDup(Canonical);
    FilterNoDup(Canonical, PresentIn(laps));
    if exists l :: l in laps && l.compound.Some? {
      var l :| l in laps && l.compound.Some?;
      assert l.compound in col;
      assert l.compound.value in Somes(col);
    } else {
      assert forall o :: o in col ==> o.None?;
      SomesOfMissing(col);
      assert Filter(Canonical, PresentIn(laps)) == [];
    }
  }

  /** When a canonical compound is present, the panels are exactly the present canonical compounds, softest first. */
  lemma CanonicalPanels(laps: seq<Lap>)
    requires exists c :: c in Canonical && Some(c) in Project(laps, CompoundOf)
    ensures CompoundPanels(laps).Some?
    ensures forall c :: c in CompoundPanels(laps).value <==> c in Canonical && Some(c) in Project(laps, CompoundOf)
    ensures var p := CompoundPanels(laps).value;
      forall i, j :: 0 <= i < j < |p| ==> Rank(p[i]) < Rank(p[j])
  {
    var present := PresentIn(laps);
    var preferred := Filter(Canonical, present);
    assert Canonical[0] == "SOFT" && Canonical[1] == "MEDIUM" && Canonical[2] == "HARD";
    assert Canonical[1..][1..] == ["HARD"];
    assert preferred != [];
  }

  /** When no canonical compound is present, the panels are every present compound, each once. */
  lemma FallbackPanels(laps: seq<Lap>)
    requires forall c :: c in Canonical ==> Some(c) !in Project(laps, CompoundOf)
    requires exists l :: l in laps && l.compound.Some?
    ensures CompoundPanels(laps).Some?
    ensures NoDup(CompoundPanels(laps).value)
    ensures forall c :: c in CompoundPanels(laps).value <==> exists l :: l in laps && l.compound == Some(c)
  {
    var col := Project(laps, CompoundOf);
    assert Filter(Canonical, PresentIn(laps)) == [];
    CompoundPanelsPresent(laps);
    forall c | exists l :: l in laps && l.compound == Some(c) ensures c in Somes(col) {
      var l :| l in laps && l.compound == Some(c);
      var i :| 0 <= i < |laps| && laps[i] == l;
      assert col[i] == Some(c);
    }
  }
}
