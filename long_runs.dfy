/**
 * Long-run detection: the stints of valid laps, the ones long enough to count
 * as race-pace runs, their laps renumbered and centred on the stint mean, and
 * the teams ranked by how consistent their long runs are.
 */
module LongRuns {
  import opened Wrappers
  import opened Collections
  import opened Sorting
  import opened Strings
  import opened Stats
  import opened LapTable

  /** One row of the stint table: the valid laps of one (Team, Driver, Day, Stint) group. */
  datatype StintStats = StintStats(
    key: StintKey,
    stintLaps: nat,
    compound: Option<string>,
    meanTime: real,
    stdTime: Option<real>,
    minTime: real,
    maxTime: real,
    cov: Option<real>,
    range: real)

  /** One row of the long-run lap table. */
  datatype TraceLap = TraceLap(lap: Lap, stintLapNumber: nat, deltaFromMean: real)

  /** One row of the consistency ranking. */
  datatype TeamConsistency = TeamConsistency(
    team: string,
    meanCoV: Option<real>,
    medianCoV: Option<real>,
    numLongRuns: nat,
    meanRange: real)

  function RunKey(r: StintStats): StintKey { r.key }
  function RunTeam(r: StintStats): string { r.key.team }
  function RunCoV(r: StintStats): Option<real> { r.cov }
  function RunRange(r: StintStats): real { r.range }
  function TraceLapOf(t: TraceLap): Lap { t.lap }
  function TraceDelta(t: TraceLap): real { t.deltaFromMean }
  function TraceCompound(t: TraceLap): Option<string> { t.lap.compound }
  function ConsistencyTeam(c: TeamConsistency): string { c.team }

  // ---------------------------------------------------------------------------
  // identify_long_runs

  /** `min_laps or LONG_RUN_MIN_LAPS`: the override when it is truthy, else the configured minimum. */
  function Threshold(minLaps: Option<int>, configured: nat): (t: int)
    ensures minLaps.Some? && minLaps.value != 0 ==> t == minLaps.value
    ensures minLaps.None? || minLaps.value == 0 ==> t == configured
  {
    if minLaps.Some? && minLaps.value != 0 then minLaps.value else configured
  }

  function ValidLaps(laps: seq<Lap>): seq<Lap>
  {
    Filter(laps, IsValid)
  }

  /** The number of valid laps in the stint `k`. */
  function ValidCount(laps: seq<Lap>, k: StintKey): nat
  {
    |Select(ValidLaps(laps), KeyOf, k)|
  }

  /** The valid laps of stint `k`: one group of the group-by. */
  function StintGroup(laps: seq<Lap>, k: StintKey): (g: seq<Lap>)
    ensures forall l :: l in g <==> l in laps && IsValid(l) && KeyOf(l) == k
  {
    Select(ValidLaps(laps), KeyOf, k)
  }

  /** The stints that have at least one valid lap, each once. */
  function StintKeys(laps: seq<Lap>): (keys: seq<StintKey>)
    ensures NoDup(keys)
    ensures forall k :: k in keys <==> ValidCount(laps, k) > 0
  {
    var valid := ValidLaps(laps);
    var keys := Distinct(Project(valid, KeyOf));
    forall k ensures k in keys <==> ValidCount(laps, k) > 0 {
      if k in keys { GroupNonEmpty(valid, KeyOf, k); }
      if ValidCount(laps, k) > 0 { GroupKeyPresent(valid, KeyOf, k); }
    }
    keys
  }

  /** The aggregate row of one stint's valid laps. */
  function Summarise(k: StintKey, group: seq<Lap>, root: real -> real): (r: StintStats)
    requires |group| > 0
    requires forall l :: l in group ==> IsValid(l)
    ensures r.key == k && r.stintLaps == |group| && r.meanTime == Mean(Times(group))
    ensures 0.0 < r.minTime <= r.meanTime <= r.maxTime
    ensures forall l :: l in group ==> r.minTime <= Seconds(l) <= r.maxTime
    ensures exists l :: l in group && Seconds(l) == r.minTime
    ensures exists l :: l in group && Seconds(l) == r.maxTime
    ensures r.range == r.maxTime - r.minTime && r.range >= 0.0
    ensures r.stdTime.None? <==> r.stintLaps < 2
    ensures r.cov.Some? <==> r.stdTime.Some?
    ensures r.stdTime == StdDev(Times(group), root)
    ensures r.cov == if r.stdTime.Some? then Some(r.stdTime.value / r.meanTime) else None
    ensures r.compound == FirstPresent(Project(group, CompoundOf))
  {
    var ts := Times(group);
    TimesBounds(group);
    MeanBounds(ts);
    MeanPositive(ts);
    var mean := Mean(ts);
    var std := StdDev(ts, root);
    StintStats(
      k, |group|, FirstPresent(Project(group, CompoundOf)),
      mean, std, Min(ts), Max(ts),
      if std.Some? then Some(std.value / mean) else None,
      Max(ts) - Min(ts))
  }

  /** Every lap time of a group lies within the group's minimum and maximum. */
  lemma TimesBounds(group: seq<Lap>)
    requires |group| > 0
    requires forall l :: l in group ==> IsValid(l)
    ensures forall x :: x in Times(group) ==> x > 0.0
    ensures forall l :: l in group ==> Min(Times(group)) <= Seconds(l) <= Max(Times(group))
    ensures exists l :: l in group && Seconds(l) == Min(Times(group))
    ensures exists l :: l in group && Seconds(l) == Max(Times(group))
  {
    var ts := Times(group);
    var i :| 0 <= i < |ts| && ts[i] == Min(ts);
    var j :| 0 <= j < |ts| && ts[j] == Max(ts);
    assert group[i] in group && group[j] in group;
    forall x | x in ts ensures x > 0.0 {
      var i :| 0 <= i < |ts| && ts[i] == x;
      assert group[i] in group;
    }
    forall l | l in group ensures Min(ts) <= Seconds(l) <= Max(ts) {
      var i :| 0 <= i < |group| && group[i] == l;
      assert ts[i] in ts;
    }
  }

  /** The `stints` table: one aggregate row per stint with a valid lap. */
  function StintTable(laps: seq<Lap>, root: real -> real): (stints: seq<StintStats>)
    ensures |stints| == |StintKeys(laps)|
    ensures forall i :: 0 <= i < |stints| ==>
      stints[i].key == StintKeys(laps)[i] && stints[i].stintLaps == ValidCount(laps, StintKeys(laps)[i])
  {
    var keys := StintKeys(laps);
    seq(|keys|, i requires 0 <= i < |keys| =>
      assert keys[i] in keys;
      Summarise(keys[i], StintGroup(laps, keys[i]), root))
  }

  /** The filter `StintLaps >= threshold`. */
  function LongEnough(t: int): StintStats -> bool
  {
    (r: StintStats) => r.stintLaps >= t
  }

  /** `identify_long_runs`: the stints with at least `threshold` valid laps. */
  function IdentifyLongRuns(laps: seq<Lap>, minLaps: Option<int>, configured: nat, root: real -> real)
    : (runs: seq<StintStats>)
    ensures forall r :: r in runs ==> r.stintLaps >= Threshold(minLaps, configured)
  {
    var t := Threshold(minLaps, configured);
    Filter(StintTable(laps, root), LongEnough(t))
  }

  /** A row of the stint table is the aggregate of its stint's valid laps. */
  lemma StintRowIsSummary(laps: seq<Lap>, root: real -> real, r: StintStats)
    requires r in StintTable(laps, root)
    ensures |StintGroup(laps, r.key)| > 0
    ensures forall l :: l in StintGroup(laps, r.key) ==> IsValid(l)
    ensures r == Summarise(r.key, StintGroup(laps, r.key), root)
  {
    var stints := StintTable(laps, root);
    var keys := StintKeys(laps);
    var i :| 0 <= i < |stints| && stints[i] == r;
    assert keys[i] in keys;
  }

  /** Each long run's statistics: ordered, its minimum and maximum attained by valid laps of the stint and bounding all of them. */
  lemma LongRunStats(laps: seq<Lap>, minLaps: Option<int>, configured: nat, root: real -> real, r: StintStats)
    requires r in IdentifyLongRuns(laps, minLaps, configured, root)
    ensures 0.0 < r.minTime <= r.meanTime <= r.maxTime
    ensures r.range == r.maxTime - r.minTime >= 0.0
    ensures forall l :: l in laps && KeyOf(l) == r.key && IsValid(l) ==> r.minTime <= Seconds(l) <= r.maxTime
    ensures exists l :: l in laps && KeyOf(l) == r.key && IsValid(l) && Seconds(l) == r.minTime
    ensures exists l :: l in laps && KeyOf(l) == r.key && IsValid(l) && Seconds(l) == r.maxTime
    ensures r.cov.Some? <==> r.stintLaps >= 2
  {
    StintRowIsSummary(laps, root, r);
  }

  /** Only valid laps matter: dropping the others first changes nothing. */
  lemma OnlyValidLapsCount(laps: seq<Lap>, minLaps: Option<int>, configured: nat, root: real -> real)
    ensures IdentifyLongRuns(ValidLaps(laps), minLaps, configured, root) == IdentifyLongRuns(laps, minLaps, configured, root)
  {
    FilterIdempotent(laps, IsValid);
    assert StintKeys(ValidLaps(laps)) == StintKeys(laps);
    forall k ensures StintGroup(ValidLaps(laps), k) == StintGroup(laps, k) {
    }
    assert StintTable(ValidLaps(laps), root) == StintTable(laps, root);
  }

  /** Rows built one per stint key, in key order, carry each key once with its valid-lap count. */
  lemma RowsOfKeys(laps: seq<Lap>, keys: seq<StintKey>, stints: seq<StintStats>)
    requires NoDup(keys)
    requires forall k :: k in keys <==> ValidCount(laps, k) > 0
    requires |stints| == |keys|
    requires forall i :: 0 <= i < |stints| ==> stints[i].key == keys[i] && stints[i].stintLaps == ValidCount(laps, keys[i])
    ensures KeysDistinct(stints, RunKey)
    ensures forall r :: r in stints ==> r.stintLaps == ValidCount(laps, r.key) > 0
    ensures forall k :: ValidCount(laps, k) > 0 ==> k in Project(stints, RunKey)
  {
    forall i, j | 0 <= i < j < |stints| ensures RunKey(stints[i]) != RunKey(stints[j]) {
      assert keys[i] != keys[j];
    }
    forall r | r in stints ensures r.stintLaps == ValidCount(laps, r.key) > 0 {
      var i :| 0 <= i < |stints| && stints[i] == r;
      assert keys[i] in keys;
    }
    forall k | ValidCount(laps, k) > 0 ensures k in Project(stints, RunKey) {
      var i :| 0 <= i < |keys| && keys[i] == k;
      assert Project(stints, RunKey)[i] == k;
    }
  }

  /** Keeping the rows of at least `t` laps keeps exactly the stints with at least `t` valid laps. */
  lemma LongEnoughRows(laps: seq<Lap>, stints: seq<StintStats>, t: int)
    requires KeysDistinct(stints, RunKey)
    requires forall r :: r in stints ==> r.stintLaps == ValidCount(laps, r.key) > 0
    requires forall k :: ValidCount(laps, k) > 0 ==> k in Project(stints, RunKey)
    ensures var runs := Filter(stints, LongEnough(t));
      && (forall r :: r in runs ==> r.stintLaps == ValidCount(laps, r.key))
      && (forall k :: (ValidCount(laps, k) > 0 && ValidCount(laps, k) >= t) <==> k in Project(runs, RunKey))
      && KeysDistinct(runs, RunKey)
  {
    var runs := Filter(stints, LongEnough(t));
    FilterKeysDistinct(stints, LongEnough(t), RunKey);
    forall k ensures (ValidCount(laps, k) > 0 && ValidCount(laps, k) >= t) <==> k in Project(runs, RunKey) {
      if ValidCount(laps, k) > 0 && ValidCount(laps, k) >= t {
        var i :| 0 <= i < |stints| && Project(stints, RunKey)[i] == k;
        assert stints[i] in stints;
        assert stints[i] in runs;
        InProject(runs, RunKey, stints[i]);
      }
      if k in Project(runs, RunKey) {
        var i :| 0 <= i < |runs| && Project(runs, RunKey)[i] == k;
        assert runs[i] in runs;
      }
    }
  }

  /** Soundness, completeness and uniqueness of the long runs. */
  lemma LongRunsExactlyOnce(laps: seq<Lap>, minLaps: Option<int>, configured: nat, root: real -> real)
    ensures var runs := IdentifyLongRuns(laps, minLaps, configured, root);
      && (forall r :: r in runs ==> r.stintLaps == ValidCount(laps, r.key))
      && (forall k :: (ValidCount(laps, k) > 0 && ValidCount(laps, k) >= Threshold(minLaps, configured))
                      <==> k in Project(runs, RunKey))
      && KeysDistinct(runs, RunKey)
  {
    RowsOfKeys(laps, StintKeys(laps), StintTable(laps, root));
    LongEnoughRows(laps, StintTable(laps, root), Threshold(minLaps, configured));
  }

  /** With no override, a positive configured minimum keeps only stints of at least that many laps. */
  lemma DefaultThresholdIsConfigured(laps: seq<Lap>, configured: nat, root: real -> real)
    requires configured > 0
    ensures forall r :: r in IdentifyLongRuns(laps, None, configured, root) ==> r.stintLaps >= configured
    ensures IdentifyLongRuns(laps, None, configured, root) == IdentifyLongRuns(laps, Some(0), configured, root)
  {
  }

  // ---------------------------------------------------------------------------
  // get_long_run_laps

  /** The mask of one long run: its key, and a present, positive lap time. */
  function StintMask(k: StintKey): Lap -> bool
  {
    (l: Lap) => KeyOf(l) == k && IsValid(l)
  }

  predicate LapNumberLe(a: Lap, b: Lap) { a.lapNumber <= b.lapNumber }

  /** The new columns: `StintLapNumber` 1..N in row order, `DeltaFromMean` from the rows' mean time. */
  function Annotate(stintLaps: seq<Lap>): (t: seq<TraceLap>)
    ensures |t| == |stintLaps|
    ensures forall i :: 0 <= i < |t| ==> t[i].lap == stintLaps[i] && t[i].stintLapNumber == i + 1
    ensures forall i :: 0 <= i < |t| ==> t[i].deltaFromMean == Seconds(stintLaps[i]) - Mean(Times(stintLaps))
  {
    if stintLaps == [] then []
    else
      var m := Mean(Times(stintLaps));
      seq(|stintLaps|, i requires 0 <= i < |stintLaps| =>
        TraceLap(stintLaps[i], i + 1, Seconds(stintLaps[i]) - m))
  }

  /** The laps of stint `k` as `get_long_run_laps` lists them. */
  function StintTrace(laps: seq<Lap>, k: StintKey): (t: seq<TraceLap>)
    ensures |t| == |Filter(laps, StintMask(k))|
    ensures forall i :: 0 <= i < |t| ==> KeyOf(t[i].lap) == k && IsValid(t[i].lap) && t[i].stintLapNumber == i + 1
  {
    var stintLaps := Filter(laps, StintMask(k));
    var sorted := SortBy(stintLaps, LapNumberLe);
    ReorderedRows(stintLaps, sorted, k);
    Annotate(sorted)
  }

  /** A reordering of rows of stint `k` that are all valid has the same length and the same kind of rows. */
  lemma ReorderedRows(stintLaps: seq<Lap>, sorted: seq<Lap>, k: StintKey)
    requires forall l :: l in stintLaps ==> KeyOf(l) == k && IsValid(l)
    requires multiset(sorted) == multiset(stintLaps)
    ensures |sorted| == |stintLaps|
    ensures forall i :: 0 <= i < |sorted| ==> KeyOf(sorted[i]) == k && IsValid(sorted[i])
  {
    assert |sorted| == |multiset(sorted)| == |multiset(stintLaps)| == |stintLaps|;
    forall i | 0 <= i < |sorted| ensures KeyOf(sorted[i]) == k && IsValid(sorted[i]) {
      assert sorted[i] in multiset(stintLaps);
    }
  }

  /** The lap table of one run. */
  function TraceOf(laps: seq<Lap>): StintStats -> seq<TraceLap>
  {
    (r: StintStats) => StintTrace(laps, r.key)
  }

  /** The per-run tables that `get_long_run_laps` collects, in the order of the runs. */
  function Traces(laps: seq<Lap>, runs: seq<StintStats>): (traces: seq<seq<TraceLap>>)
    ensures |traces| == |runs|
    ensures forall j :: 0 <= j < |runs| ==> traces[j] == StintTrace(laps, runs[j].key)
  {
    Project(runs, TraceOf(laps))
  }

  /** `get_long_run_laps`: every lap of every long run, run after run. */
  method GetLongRunLaps(laps: seq<Lap>, longRuns: seq<StintStats>) returns (runLaps: seq<TraceLap>)
    ensures runLaps == Concat(Traces(laps, longRuns))
    ensures longRuns == [] ==> runLaps == []
  {
    var result: seq<seq<TraceLap>> := [];
    var i := 0;
    while i < |longRuns|
      invariant 0 <= i <= |longRuns|
      invariant result == Traces(laps, longRuns[..i])
    {
      var run := longRuns[i];
      var stintLaps := Filter(laps, StintMask(run.key));
      stintLaps := SortBy(stintLaps, LapNumberLe);
      var annotated := Annotate(stintLaps);
      ProjectSnoc(longRuns, TraceOf(laps), i);
      result := result + [annotated];
      i := i + 1;
    }
    assert longRuns[..i] == longRuns;
    if result == [] {
      return [];
    }
    runLaps := Concat(result);
  }

  lemma LapNumberOrder()
    ensures TotalPreorder(LapNumberLe)
  {
  }

  /** The masked rows of stint `k` are its valid laps. */
  lemma StintLapsAreValidGroup(laps: seq<Lap>, k: StintKey)
    ensures |Filter(laps, StintMask(k))| == ValidCount(laps, k)
    ensures forall l :: l in Filter(laps, StintMask(k)) ==> KeyOf(l) == k && IsValid(l)
  {
    SelectOfFilter(laps, IsValid, KeyOf, k, StintMask(k));
  }

  /** Within one stint: laps in lap order, numbered 1..N without gaps, N the stint's valid laps. */
  lemma StintTraceNumbering(laps: seq<Lap>, k: StintKey)
    ensures var t := StintTrace(laps, k);
      && |t| == ValidCount(laps, k)
      && (forall i :: 0 <= i < |t| ==> t[i].stintLapNumber == i + 1)
      && (forall i, j :: 0 <= i < j < |t| ==> t[i].lap.lapNumber <= t[j].lap.lapNumber)
      && multiset(Project(t, TraceLapOf)) == multiset(Filter(laps, StintMask(k)))
      && (forall i :: 0 <= i < |t| ==> KeyOf(t[i].lap) == k && IsValid(t[i].lap))
  {
    var stintLaps := Filter(laps, StintMask(k));
    var sorted := SortBy(stintLaps, LapNumberLe);
    var t := StintTrace(laps, k);
    StintLapsAreValidGroup(laps, k);
    LapNumberOrder();
    SortBySorted(stintLaps, LapNumberLe);
    assert Project(t, TraceLapOf) == sorted;
    forall i | 0 <= i < |t| ensures KeyOf(t[i].lap) == k && IsValid(t[i].lap) {
      assert sorted[i] in multiset(stintLaps);
    }
  }

  /** The deltas of annotated rows sum to zero. */
  lemma AnnotatedDeltasSumToZero(stintLaps: seq<Lap>)
    ensures Sum(Project(Annotate(stintLaps), TraceDelta)) == 0.0
  {
    if stintLaps != [] {
      var ts := Times(stintLaps);
      DeviationsFromMeanSumToZero(ts);
      assert Project(Annotate(stintLaps), TraceDelta) == seq(|ts|, i requires 0 <= i < |ts| => ts[i] - Mean(ts));
    }
  }

  /** Within one run every row's delta is its lap time minus the run's `MeanTime`. */
  lemma StintTraceDeltas(laps: seq<Lap>, minLaps: Option<int>, configured: nat, root: real -> real, r: StintStats)
    requires r in IdentifyLongRuns(laps, minLaps, configured, root)
    ensures var t := StintTrace(laps, r.key);
      forall i :: 0 <= i < |t| ==> t[i].deltaFromMean == Seconds(t[i].lap) - r.meanTime
  {
    LongRunMean(laps, minLaps, configured, root, r);
    var stintLaps := Filter(laps, StintMask(r.key));
    SelectOfFilter(laps, IsValid, KeyOf, r.key, StintMask(r.key));
    var sorted := SortBy(stintLaps, LapNumberLe);
    AnnotatedDeltas(stintLaps, sorted, r.meanTime);
    assert StintTrace(laps, r.key) == Annotate(sorted);
  }

  /** A long run's `MeanTime` is the mean time of its stint's valid laps, of which there is at least one. */
  lemma LongRunMean(laps: seq<Lap>, minLaps: Option<int>, configured: nat, root: real -> real, r: StintStats)
    requires r in IdentifyLongRuns(laps, minLaps, configured, root)
    ensures StintGroup(laps, r.key) != [] && r.meanTime == Mean(Times(StintGroup(laps, r.key)))
  {
    StintRowIsSummary(laps, root, r);
  }

  /** Annotating a reordering of rows centres each time on the mean of the rows. */
  lemma AnnotatedDeltas(stintLaps: seq<Lap>, sorted: seq<Lap>, m: real)
    requires multiset(sorted) == multiset(stintLaps) && stintLaps != []
    requires m == Mean(Times(stintLaps))
    ensures var t := Annotate(sorted);
      forall i :: 0 <= i < |t| ==> t[i].deltaFromMean == Seconds(t[i].lap) - m
  {
    MeanOfReordered(sorted, stintLaps);
  }

  /** Reordering a non-empty table does not change the mean of its times. */
  lemma MeanOfReordered(a: seq<Lap>, b: seq<Lap>)
    requires multiset(a) == multiset(b) && b != []
    ensures |a| == |b| && Mean(Times(a)) == Mean(Times(b))
  {
    assert |a| == |multiset(a)| == |multiset(b)| == |b|;
    TimesSumPermutation(a, b);
  }

  /** The time column of a non-empty table sums to its first time plus the rest. */
  lemma TimesSumCons(s: seq<Lap>)
    requires s != []
    ensures Sum(Times(s)) == Seconds(s[0]) + Sum(Times(s[1..]))
  {
    assert Times(s)[1..] == Times(s[1..]);
  }

  /** Taking one row out of a table takes its time out of the column total. */
  lemma {:induction false} TimesSumRemove(s: seq<Lap>, i: int)
    requires 0 <= i < |s|
    ensures Sum(Times(s)) == Seconds(s[i]) + Sum(Times(s[..i] + s[i + 1..]))
  {
    TimesSumCons(s);
    if i > 0 {
      var rest := s[..i] + s[i + 1..];
      TimesSumRemove(s[1..], i - 1);
      assert rest[0] == s[0];
      assert rest[1..] == s[1..][..i - 1] + s[1..][i..];
      TimesSumCons(rest);
    } else {
      assert s[..i] + s[i + 1..] == s[1..];
    }
  }

  /** Reordering the rows does not change the total of their times. */
  lemma {:induction false} TimesSumPermutation(a: seq<Lap>, b: seq<Lap>)
    requires multiset(a) == multiset(b)
    ensures Sum(Times(a)) == Sum(Times(b))
    decreases |a|
  {
    if a == [] {
      assert |b| == |multiset(b)| == 0;
    } else {
      assert a[0] in multiset(b);
      var i :| 0 <= i < |b| && b[i] == a[0];
      var b' := b[..i] + b[i + 1..];
      assert b == b[..i] + [b[i]] + b[i + 1..];
      assert a == [a[0]] + a[1..];
      assert multiset(b') == multiset(b) - multiset{b[i]};
      assert multiset(a[1..]) == multiset(a) - multiset{a[0]};
      TimesSumPermutation(a[1..], b');
      TimesSumRemove(b, i);
      TimesSumCons(a);
    }
  }

  /** Within one stint the deltas from the stint mean sum to zero. */
  lemma StintDeltasSumToZero(laps: seq<Lap>, k: StintKey)
    ensures Sum(Project(StintTrace(laps, k), TraceDelta)) == 0.0
  {
    AnnotatedDeltasSumToZero(SortBy(Filter(laps, StintMask(k)), LapNumberLe));
  }

  function RunLaps(r: StintStats): nat { r.stintLaps }

  /** The total of the `StintLaps` column. */
  function TotalStintLaps(runs: seq<StintStats>): nat
  {
    SumNat(Project(runs, RunLaps))
  }

  /** A stint's lap table has one row per valid lap of the stint. */
  lemma StintTraceLength(laps: seq<Lap>, k: StintKey)
    ensures |StintTrace(laps, k)| == ValidCount(laps, k)
  {
    StintLapsAreValidGroup(laps, k);
  }

  /** The lap table holds exactly the valid laps of the listed runs. */
  lemma LongRunLapsRowCount(laps: seq<Lap>, runs: seq<StintStats>)
    requires forall r :: r in runs ==> r.stintLaps == ValidCount(laps, r.key)
    ensures |Concat(Traces(laps, runs))| == TotalStintLaps(runs)
  {
    var traces := Traces(laps, runs);
    forall i | 0 <= i < |traces| ensures |traces[i]| == Project(runs, RunLaps)[i] {
      assert runs[i] in runs;
      StintTraceLength(laps, runs[i].key);
    }
    ConcatLength(traces, Project(runs, RunLaps));
  }

  /** For the runs `identify_long_runs` finds, the lap table has one row per valid lap of each run. */
  lemma IdentifiedRunsRowCount(laps: seq<Lap>, minLaps: Option<int>, configured: nat, root: real -> real)
    ensures var runs := IdentifyLongRuns(laps, minLaps, configured, root);
      |Concat(Traces(laps, runs))| == TotalStintLaps(runs)
  {
    LongRunsExactlyOnce(laps, minLaps, configured, root);
    LongRunLapsRowCount(laps, IdentifyLongRuns(laps, minLaps, configured, root));
  }

  // ---------------------------------------------------------------------------
  // compute_consistency_by_team

  /** The consistency row of one team's long runs. */
  function TeamConsistencyOf(runs: seq<StintStats>, team: string): (c: TeamConsistency)
    requires team in Project(runs, RunTeam)
    ensures c.team == team
    ensures c.numLongRuns <= |Select(runs, RunTeam, team)|
    ensures c.meanCoV.Some? <==> c.numLongRuns > 0
    ensures c.medianCoV.Some? <==> c.numLongRuns > 0
    ensures c.medianCoV.Some? ==> exists r :: r in runs && r.key.team == team && r.cov.Some?
    ensures var group := Select(runs, RunTeam, team);
      && |group| > 0
      && c.meanRange == Mean(Project(group, RunRange))
      && (c.numLongRuns > 0 ==>
            && |Somes(Project(group, RunCoV))| > 0
            && c.meanCoV == Some(Mean(Somes(Project(group, RunCoV))))
            && c.medianCoV == Some(Median(Somes(Project(group, RunCoV)))))
  {
    var group := Select(runs, RunTeam, team);
    GroupNonEmpty(runs, RunTeam, team);
    var covs := Somes(Project(group, RunCoV));
    if covs != [] then
      assert covs[0] in covs;
      var i :| 0 <= i < |group| && Project(group, RunCoV)[i] == Some(covs[0]);
      assert group[i] in group;
      TeamConsistency(team, Some(Mean(covs)), Some(Median(covs)), |covs|, Mean(Project(group, RunRange)))
    else
      TeamConsistency(team, None, None, 0, Mean(Project(group, RunRange)))
  }

  /** The long runs of `team` whose CoV is present (the rows `count` of the CoV column counts). */
  function CoVRunOf(team: string): StintStats -> bool
  {
    (r: StintStats) => r.key.team == team && r.cov.Some?
  }

  /** `NumLongRuns` counts the team's runs with a CoV, not all of its runs. */
  lemma NumLongRunsCountsCoV(runs: seq<StintStats>, team: string)
    requires team in Project(runs, RunTeam)
    ensures TeamConsistencyOf(runs, team).numLongRuns == |Filter(runs, CoVRunOf(team))|
  {
    var group := Select(runs, RunTeam, team);
    SomesCount(group, RunCoV, (r: StintStats) => r.cov.Some?);
    FilterOfSelect(runs, RunTeam, team, (r: StintStats) => r.cov.Some?, CoVRunOf(team));
  }

  /** The team's mean and median CoV, and its mean range, lie within any bounds its runs respect. */
  lemma ConsistencyWithinBounds(runs: seq<StintStats>, team: string, covLo: real, covHi: real, rangeLo: real, rangeHi: real)
    requires team in Project(runs, RunTeam)
    requires forall r :: r in runs && r.key.team == team && r.cov.Some? ==> covLo <= r.cov.value <= covHi
    requires forall r :: r in runs && r.key.team == team ==> rangeLo <= r.range <= rangeHi
    ensures var c := TeamConsistencyOf(runs, team);
      && rangeLo <= c.meanRange <= rangeHi
      && (c.numLongRuns > 0 ==>
            covLo <= c.meanCoV.value <= covHi && covLo <= c.medianCoV.value <= covHi)
  {
    var group := Select(runs, RunTeam, team);
    GroupNonEmpty(runs, RunTeam, team);
    var ranges := Project(group, RunRange);
    forall x | x in ranges ensures rangeLo <= x <= rangeHi {
      var i :| 0 <= i < |ranges| && ranges[i] == x;
      assert group[i] in group;
    }
    MeanBetween(ranges, rangeLo, rangeHi);
    var col := Project(group, RunCoV);
    var covs := Somes(col);
    forall x | x in covs ensures covLo <= x <= covHi {
      var i :| 0 <= i < |col| && col[i] == Some(x);
      assert group[i] in group;
    }
    if covs != [] {
      MeanBetween(covs, covLo, covHi);
      assert Min(covs) in covs && Max(covs) in covs;
    }
  }

  predicate MedianCoVLe(a: TeamConsistency, b: TeamConsistency)
  {
    NanLastLe(a.medianCoV, b.medianCoV)
  }

  lemma MedianCoVOrder()
    ensures TotalPreorder(MedianCoVLe)
  {
  }

  /** The unsorted ranking: one aggregate row per team, in order of first appearance. */
  function ConsistencyTable(runs: seq<StintStats>): (table: seq<TeamConsistency>)
    ensures KeysDistinct(table, ConsistencyTeam)
    ensures forall t :: t in Project(table, ConsistencyTeam) <==> t in Project(runs, RunTeam)
    ensures forall c :: c in table ==> c.team in Project(runs, RunTeam) && c == TeamConsistencyOf(runs, c.team)
  {
    var teams := Distinct(Project(runs, RunTeam));
    var table := seq(|teams|, i requires 0 <= i < |teams| =>
      assert teams[i] in teams;
      TeamConsistencyOf(runs, teams[i]));
    assert Project(table, ConsistencyTeam) == teams;
    table
  }

  /** `compute_consistency_by_team`: one row per team, ascending by median CoV, missing last. */
  function ComputeConsistencyByTeam(runs: seq<StintStats>): (rows: seq<TeamConsistency>)
    ensures Sorted(rows, MedianCoVLe)
  {
    var table := ConsistencyTable(runs);
    MedianCoVOrder();
    SortBySorted(table, MedianCoVLe);
    SortBy(table, MedianCoVLe)
  }

  /** The ranking has exactly one row per team that has a long run, and each row is that team's aggregate. */
  lemma ConsistencyOneRowPerTeam(runs: seq<StintStats>)
    ensures var rows := ComputeConsistencyByTeam(runs);
      && KeysDistinct(rows, ConsistencyTeam)
      && (forall t :: t in Project(rows, ConsistencyTeam) <==> t in Project(runs, RunTeam))
      && (forall c :: c in rows ==> c.team in Project(runs, RunTeam) && c == TeamConsistencyOf(runs, c.team))
  {
    var table := ConsistencyTable(runs);
    var rows := ComputeConsistencyByTeam(runs);
    KeysDistinctPermutation(table, rows, ConsistencyTeam);
    PermutationProject(table, rows, ConsistencyTeam);
  }

  // ---------------------------------------------------------------------------
  // Compound panels of plot_long_runs_by_compound

  /** The compound panels: the distinct compounds of the long-run laps in sorted order; None when there are none. */
  function LongRunCompoundPanels(runLaps: seq<TraceLap>): (panels: Option<seq<string>>)
    ensures panels.None? <==> forall t :: t in runLaps ==> t.lap.compound.None?
    ensures panels.Some? ==> forall c :: c in panels.value <==> exists t :: t in runLaps && t.lap.compound == Some(c)
    ensures panels.Some? ==> forall i, j :: 0 <= i < j < |panels.value| ==> StrLt(panels.value[i], panels.value[j])
  {
    if runLaps == [] then None
    else
      var present := Distinct(Somes(Project(runLaps, TraceCompound)));
      CompoundsPresent(runLaps);
      var compounds := SortBy(present, StrLe);
      SortDistinctStrings(present, compounds);
      assert forall t :: t in runLaps && t.lap.compound.Some? ==> t.lap.compound.value in compounds;
      if compounds == [] then None
      else
        assert compounds[0] in compounds;
        Some(compounds)
  }

  lemma CompoundsPresent(runLaps: seq<TraceLap>)
    ensures forall c :: c in Somes(Project(runLaps, TraceCompound)) <==> exists t :: t in runLaps && t.lap.compound == Some(c)
  {
    var col := Project(runLaps, TraceCompound);
    forall c ensures c in Somes(col) <==> exists t :: t in runLaps && t.lap.compound == Some(c) {
      if c in Somes(col) {
        var i :| 0 <= i < |col| && col[i] == Some(c);
        assert runLaps[i] in runLaps;
      }
      if t :| t in runLaps && t.lap.compound == Some(c) {
        var i :| 0 <= i < |runLaps| && runLaps[i] == t;
        assert col[i] == Some(c);
      }
    }
  }
}
