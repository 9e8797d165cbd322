/**
 * The lap table every aggregation reads: one row per completed lap. A missing
 * cell (NaN in the table) is `None`.
 */
module LapTable {
  import opened Wrappers

  datatype Lap = Lap(
    team: string,
    driver: string,
    day: int,
    stint: int,
    lapNumber: int,
    compound: Option<string>,
    lapTime: Option<real>)

  /** The grouping key (Team, Driver, Day, Stint) that identifies one stint. */
  datatype StintKey = StintKey(team: string, driver: string, day: int, stint: int)

  function KeyOf(l: Lap): StintKey
  {
    StintKey(l.team, l.driver, l.day, l.stint)
  }

  /** A lap whose time may enter a stint statistic: present and strictly positive. */
  predicate IsValid(l: Lap)
  {
    l.lapTime.Some? && l.lapTime.value > 0.0
  }

  function TeamOf(l: Lap): string { l.team }

  function TeamDayOf(l: Lap): (string, int) { (l.team, l.day) }

  function TeamDriverOf(l: Lap): (string, string) { (l.team, l.driver) }

  function CompoundOf(l: Lap): Option<string> { l.compound }

  function LapTimeOf(l: Lap): Option<real> { l.lapTime }

  /** The lap time in seconds of a lap whose time is present (0.0 stands in for a missing one). */
  function Seconds(l: Lap): real
  {
    if l.lapTime.Some? then l.lapTime.value else 0.0
  }

  /** The lap-time column of rows. */
  function Times(g: seq<Lap>): (ts: seq<real>)
    ensures |ts| == |g|
  {
    seq(|g|, i requires 0 <= i < |g| => Seconds(g[i]))
  }
}
