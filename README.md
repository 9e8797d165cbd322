# Pre-season testing lap analysis: aggregation core

This project models the table aggregations behind the pre-season testing
report, in Dafny, and proves properties of them. The lap table has one row per
completed lap: team, driver, day, stint, lap number, tyre compound and lap time
in seconds. The time or the compound may be missing (NaN).

What is modelled:

- **Long runs** (`long_runs.dfy`)
  - Stints are grouped by (Team, Driver, Day, Stint) over the laps whose time is present and positive.
  - Each stint is summarised by lap count, first compound, mean, sample standard deviation, minimum and maximum.
  - A stint is a long run when it has at least `min_laps or LONG_RUN_MIN_LAPS` laps. CoV and range are added to each long run.
  - Each long run's laps are re-selected, sorted by lap number, numbered 1..N and centred on the stint mean.
  - Teams are ranked by the median CoV of their long runs.
  - The compound panels of the long-run figure are chosen.
- **Distributions** (`distributions.dfy`)
  - Per-team min, median, mean, standard deviation and count of the lap times, plus the headline gap (median minus minimum), ranked by median.
  - The compound panels of the distribution figure: SOFT, MEDIUM, HARD when present, otherwise every compound present.
- **Reliability** (`reliability.dfy`)
  - The team by day grid of lap counts, with labels sorted and absent combinations shown as 0.
  - Total laps per team, busiest first.
  - The stint summary per team: number of stints, longest stint, mean stint length; most stints first.
  - Laps per driver, by team, then busiest driver first.

Supporting modules:

- `lap_table.dfy`: the lap record and its column accessors.
- `stats.dfy`: sum, min, max, mean, median, and the sample standard deviation with divisor n - 1.
- `sorting.dfy`: `sort_values` as an insertion sort by a total preorder.
- `collections.dfy`: group-by, selection, counting and concatenation over sequences.
- `strings.dfy`: lexicographic string order.
- `wrappers.dfy`: `Option`.

Pandas behaviour is stated explicitly:

- A missing value is `None`.
- A group-by yields one row per key present.
- `min`, `median`, `mean` and `std` of no values are missing; `count` and `size` of no values are 0.
- `std` of fewer than two values is missing.
- `sort_values` places missing keys last.

`compute_team_stats` (distributions.py:10-17) does not drop times that are
not positive. It also keeps a team whose lap times are all missing, as a row with
count 0 and missing statistics. The model does both, unlike the long-run
aggregation, which keeps only present, positive times.

## Model

| member | source | states |
|---|---|---|
| LongRuns.Threshold | long_runs.py:12 | the override is used when it is given and non-zero, otherwise the configured minimum |
| LongRuns.StintGroup | long_runs.py:14-19 | a stint's group is exactly the laps of that key whose time is present and positive |
| LongRuns.StintKeys | long_runs.py:14-19 | the group keys are distinct and are exactly the stints with at least one valid lap |
| LongRuns.Summarise | long_runs.py:19-32 | lap count is the group size; 0 < min <= mean <= max; every lap lies in [min, max]; min and max are lap times of the group; range = max - min >= 0; std is missing iff fewer than 2 laps and is otherwise `StdDev` of the group's times; CoV is std / mean when std is present, else missing; Compound is the first present compound of the group |
| LongRuns.StintTable | long_runs.py:17-28 | one row per stint key, in order of first appearance, each carrying its valid-lap count |
| LongRuns.IdentifyLongRuns | long_runs.py:30 | every returned stint has at least the threshold number of laps |
| LongRuns.StintRowIsSummary | long_runs.py:17-28 | each stint row is the aggregate of exactly its stint's valid laps, a non-empty group |
| LongRuns.LongRunStats | long_runs.py:19-32 | on every long run, min/mean/max are ordered and positive, bound every valid lap of the stint and are attained by one, range is max - min, and CoV is present iff the run has at least 2 laps |
| LongRuns.LongRunsExactlyOnce | long_runs.py:11-34 | a stint is returned iff it has a valid lap and at least threshold valid laps; each at most once; StintLaps is its valid-lap count |
| LongRuns.OnlyValidLapsCount | long_runs.py:14-15 | dropping the invalid laps beforehand leaves the long runs unchanged |
| LongRuns.DefaultThresholdIsConfigured | long_runs.py:12 | with no override, every run has at least the configured number of laps, and `min_laps = 0` behaves as no override |
| LongRuns.Annotate | long_runs.py:50-51 | StintLapNumber runs 1..N over the rows, in row order, each row keeps its lap, and DeltaFromMean is the row's time minus the mean time of the rows |
| LongRuns.Traces | long_runs.py:38-51 | one lap table per long run, in run order, each the laps of that run's stint |
| LongRuns.GetLongRunLaps | long_runs.py:37-56 | the loop collects the runs' lap tables and returns their concatenation; no runs gives an empty table |
| LongRuns.StintTrace | long_runs.py:40-51 | one run's lap table: as many rows as the mask keeps, each a valid lap of the stint, numbered 1..N in row order (ordering by lap number, permutation and deltas in the lemmas below) |
| LongRuns.StintTraceDeltas | long_runs.py:51 | on every long run, each row's DeltaFromMean is its lap time minus the run's MeanTime |
| LongRuns.LongRunMean | long_runs.py:22 | a long run's MeanTime is the mean time of its stint's valid laps, a non-empty group |
| LongRuns.StintLapsAreValidGroup | long_runs.py:40-47 | the mask keeps the stint's valid laps and only those |
| LongRuns.StintTraceNumbering | long_runs.py:40-50 | within a run: one row per valid lap, a permutation of the masked rows, in lap-number order, numbered 1..N without gaps |
| LongRuns.StintTraceLength | long_runs.py:40-48 | a run's lap table has as many rows as the stint has valid laps |
| LongRuns.StintDeltasSumToZero | long_runs.py:51 | within a run the deltas from the stint mean sum to zero |
| LongRuns.LongRunLapsRowCount | long_runs.py:37-56 | the concatenated table has as many rows as the StintLaps column adds up to |
| LongRuns.IdentifiedRunsRowCount | long_runs.py:37-56 | for the runs `identify_long_runs` returns, the row count equals the sum of StintLaps |
| LongRuns.TeamConsistencyOf | long_runs.py:59-67 | MeanRange is the mean of the team's Range values; MeanCoV and MedianCoV are present iff NumLongRuns > 0, and then are the mean and median of the team's present CoV values |
| LongRuns.NumLongRunsCountsCoV | long_runs.py:65 | NumLongRuns counts the team's runs whose CoV is present |
| LongRuns.ConsistencyWithinBounds | long_runs.py:62-66 | MeanCoV, MedianCoV and MeanRange lie within any bounds the team's runs respect |
| LongRuns.ConsistencyTable | long_runs.py:60-68 | one row per team with a long run, keys distinct, each the team's aggregate |
| LongRuns.ComputeConsistencyByTeam | long_runs.py:59-70 | rows ascending by MedianCoV, missing ones last |
| LongRuns.ConsistencyOneRowPerTeam | long_runs.py:59-70 | the sorted ranking has exactly one row per team with a long run, each the team's aggregate |
| LongRuns.LongRunCompoundPanels | long_runs.py:150-156 | no panels iff no long-run lap has a compound; otherwise exactly the compounds present, each once, in strictly increasing string order |
| Distributions.TeamTimes | distributions.py:11-13 | a value is in the team's time column iff some lap of the team has that time |
| Distributions.TeamRow | distributions.py:11-16 | count is the number of times; min/median/mean/gap present iff count > 0; std present iff count >= 2; min is the least time and is attained; min <= median <= max and min <= mean <= max of the times; for an odd count the median is one of the times; median, mean and std are the `Median`, `Mean` and `StdDev` of the team's times; headline gap = median - min >= 0 |
| Distributions.TeamCount | distributions.py:13 | count is the number of the team's laps with a recorded time |
| Distributions.TeamTable | distributions.py:11-15 | one row per team of the lap table, keys distinct, each the team's aggregate |
| Distributions.ComputeTeamStats | distributions.py:10-17 | rows sorted by median, missing ones last |
| Distributions.TeamStatsOneRowPerTeam | distributions.py:10-17 | the sorted table has exactly one row per team, each the team's aggregate |
| Distributions.MissingMediansLast | distributions.py:17 | teams with a median come first, by increasing median; teams without one come after |
| Distributions.CompoundPanels | distributions.py:64-71 | the panels, when there are any, are a non-empty list of distinct compounds each present in the Compound column; the lemmas below give when there are none and which compounds appear |
| Distributions.CompoundPanelsPresent | distributions.py:64-71 | no panels iff no lap has a compound; otherwise distinct compounds that some lap ran on |
| Distributions.CanonicalPanels | distributions.py:64 | with a canonical compound present, the panels are exactly the canonical compounds present, SOFT before MEDIUM before HARD |
| Distributions.FallbackPanels | distributions.py:66-67 | with no canonical compound present, the panels are exactly the compounds present, each once |
| Reliability.SortedTeams | reliability.py:16 | the grid's row labels are every team once, in strictly increasing order |
| Reliability.SortedDays | reliability.py:16 | the grid's column labels are every day once, strictly increasing |
| Reliability.LapsPerTeamDay | reliability.py:11-19 | the grid is teams by days, and each cell counts the laps of that (team, day) |
| Reliability.GridCellMeaning | reliability.py:12-18 | a cell is the size of its (team, day) group and is positive iff the team ran that day; otherwise the fill value 0 |
| Reliability.GridRowTotal | reliability.py:11-19 | a grid row adds up to the team's number of laps |
| Reliability.TotalsTable | reliability.py:23 | one row per team, keys distinct, holding the team's lap count |
| Reliability.ComputeTotalLaps | reliability.py:22-24 | rows sorted by TotalLaps, descending |
| Reliability.TotalLapsOneRowPerTeam | reliability.py:22-24 | exactly one row per team, with its group size, which is positive |
| Reliability.TotalLapsAddUp | reliability.py:23 | the totals add up to the number of laps |
| Reliability.TotalMatchesGrid | reliability.py:11-24 | a team's total equals its row sum in the grid |
| Reliability.TeamStints | reliability.py:28-32 | the team's stints are distinct and are exactly the stint keys of its laps |
| Reliability.SummaryOf | reliability.py:35-41 | TotalStints is the number of the team's stints, and is positive; MaxStintLength bounds every stint's length and is attained |
| Reliability.StintLengthsAddUp | reliability.py:28-41 | the stint lengths add up to the team's number of laps |
| Reliability.StintMeanIsLapsPerStint | reliability.py:39 | MeanStintLength is the team's laps divided by its stints |
| Reliability.StintMeanBounds | reliability.py:38-39 | 1 <= MeanStintLength <= MaxStintLength |
| Reliability.StintCountIsDistinctStints | reliability.py:37 | TotalStints is the number of distinct (team, driver, day, stint) keys among the team's laps |
| Reliability.SummaryTable | reliability.py:35-42 | one row per team, keys distinct, each the team's summary |
| Reliability.ComputeStintSummary | reliability.py:27-44 | rows sorted by TotalStints, descending |
| Reliability.StintSummaryOneRowPerTeam | reliability.py:27-44 | exactly one row per team, each that team's summary |
| Reliability.DriverTable | reliability.py:48-51 | one row per (team, driver) pair, keys distinct, holding its lap count |
| Reliability.ComputeLapsPerDriver | reliability.py:47-53 | rows by team ascending, then by laps descending |
| Reliability.DriverLapsOneRowPerDriver | reliability.py:47-53 | exactly one row per (team, driver) pair of the lap table, with its positive lap count |
| Reliability.DriverLapsAddUpToTeam | reliability.py:47-53 | a team's driver rows add up to the team's lap count |
| Stats.Median | distributions.py:13 | the median lies between min and max, and is a value of the column when the count is odd |
| Stats.StdDev | long_runs.py:23 | missing iff fewer than two values |
| Stats.MeanBounds | long_runs.py:22 | the mean lies between the minimum and the maximum |
| Stats.DeviationsFromMeanSumToZero | long_runs.py:51 | deviations from the mean sum to zero |
| Sorting.SortBy | distributions.py:17 | the sorted table is a permutation of the input |
| Sorting.SortBySorted | distributions.py:17 | sorting by a total preorder yields a sorted sequence |

## Left out

- Plotting and rendering are not modelled. This covers every `plot_*` function, figure layout, colours, watermarks, saving and `generate_all`. Only the panel choices that decide whether a figure is drawn are kept.
- The configuration module is an input. `LONG_RUN_MIN_LAPS` is the parameter `configured`.
- `plotting.py` and `config.py` are not part of this model.
- The square root in `std` is a caller-supplied function `root`, because Dafny reals have no square root. Only the sample variance it is applied to is exact.
- Floating-point rounding is not modelled. Lap times are exact reals.
- Group-by output order is the order of first appearance. Pandas sorts group keys. Only the outputs of `sort_values` are stated to be sorted.
  - The grid labels are the exception: pandas sorts them in the pivot, and the model sorts them explicitly.
- Rows are not given a tie order. `sort_values` keeps the relative order of equal keys only in some sort algorithms. No property here depends on the order of equal keys.
- Group keys are never missing. Team, Driver, Day, Stint and LapNumber are assumed present, so pandas' dropping of rows with a NaN key does not arise.
  - `compute_stint_summary` counts LapNumber values. With LapNumber present this is the group size.
- The empty table with no columns that `get_long_run_laps` returns is modelled as an empty sequence of rows.
- Distributions.CompoundPanels: the fallback panels are proved to be exactly the present compounds, each once. Their order of first appearance is not stated as a property.
- Stats.Median: the median is proved to lie between the minimum and the maximum, and to be a value of the column for an odd count. It is not proved to split the values in half.
- Distributions.TeamRow: the median is only as strong as `Stats.Median` (above). The std is tied to `StdDev`, whose square root is the caller-supplied `root`.
