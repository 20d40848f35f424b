/**
 * `trigger_pathfinding` (js/main.js:19-29): three searches on the same grid,
 * differing only in the secondary heuristic, each tagged with a display name.
 */
module Orchestrator {
  import opened Wrappers
  import opened Geometry
  import opened Grids
  import opened Nodes
  import opened Invariants
  import opened Outcomes
  import opened Search

  /** One entry of the result list: a search result and its name. */
  datatype Run = Run(result: SearchResult, name: string)

  /**
   * The keys a caller may pass to `path_find` (js/utils.js:319-323): an absent key
   * keeps its default, and a present `secondary` may be `null` (`Some(None)`).
   */
  datatype Overrides = Overrides(primary: Option<Distance>, secondary: Option<Option<Distance>>)

  /** `{ primary: manhattan_distance, secondary: square_distance, ...overrides }`. */
  function Configure(o: Overrides): (hs: Heuristics)
    ensures o.primary.None? ==> hs.primary == Manhattan
    ensures o.secondary.None? ==> hs.secondary == Some(SquareDistance)
    ensures o.primary.Some? ==> hs.primary == o.primary.value
    ensures o.secondary.Some? ==> hs.secondary == o.secondary.value
  {
    Heuristics(if o.primary.Some? then o.primary.value else Manhattan,
               if o.secondary.Some? then o.secondary.value else Some(SquareDistance))
  }

  const DefaultName: string := "default"
  const ManhattanWaypointsName: string := "primary: default, waypoints: manhattan"
  const NoWaypointsName: string := "primary: default, waypoints: disabled"

  /** The three configurations, in order. */
  const Default: Heuristics := Heuristics(Manhattan, Some(SquareDistance))
  const ManhattanWaypoints: Heuristics := Heuristics(Manhattan, Some(Manhattan))
  const NoWaypoints: Heuristics := Heuristics(Manhattan, None)

  /** The three configurations are the defaults spread with the overrides main.js passes. */
  lemma ConfigurationsSpread()
    ensures Configure(Overrides(None, None)) == Default
    ensures Configure(Overrides(None, Some(Some(Manhattan)))) == ManhattanWaypoints
    ensures Configure(Overrides(None, Some(None))) == NoWaypoints
  {
  }

  /** Manhattan distance never overestimates itself, so every configuration searches optimally. */
  lemma ManhattanAdmissible()
    ensures Admissible(Manhattan)
  {
  }

  /** A run carries its name and what the search promises for its configuration. */
  ghost predicate RunOk(grid: Grid, start: Cell, end: Cell, hs: Heuristics, name: string, run: Run)
  {
    run.name == name && Outcome(grid, start, end, hs, run.result)
  }

  /** The three results, in order, with their names. */
  ghost predicate Runs(grid: Grid, start: Cell, end: Cell, runs: seq<Run>)
  {
    |runs| == 3 &&
    RunOk(grid, start, end, Default, DefaultName, runs[0]) &&
    RunOk(grid, start, end, ManhattanWaypoints, ManhattanWaypointsName, runs[1]) &&
    RunOk(grid, start, end, NoWaypoints, NoWaypointsName, runs[2])
  }

  /** One `path_find` call of `trigger_pathfinding`, tagged with its name. */
  method Solve(grid: Grid, start: Cell, end: Cell, waypoints: seq<Cell>, hs: Heuristics, name: string)
    returns (r: Result<Run>)
    requires grid.Valid()
    ensures r.RangeError? <==> !(0 <= start.x < grid.width)
    ensures r.Ok? ==> RunOk(grid, start, end, hs, name, r.value)
  {
    var res := PathFind(grid, start, end, waypoints, hs);
    if res.RangeError? {
      return RangeError;
    }
    r := Ok(Run(res.value, name));
  }

  /**
   * Runs the default configuration, then Manhattan waypoint scores, then no
   * waypoint scores; a start column out of range raises before any result.
   */
  method TriggerPathfinding(grid: Grid, start: Cell, end: Cell, waypoints: seq<Cell>)
    returns (r: Result<seq<Run>>)
    requires grid.Valid()
    ensures r.RangeError? <==> !(0 <= start.x < grid.width)
    ensures r.Ok? ==> Runs(grid, start, end, r.value)
    ensures r.Ok? ==> forall k :: 0 < k < |r.value[2].result.nodes| ==> r.value[2].result.nodes[k].w == Inf
  {
    var first := Solve(grid, start, end, waypoints, Default, DefaultName);
    if first.RangeError? {
      return RangeError;
    }
    var second := Solve(grid, start, end, waypoints, ManhattanWaypoints, ManhattanWaypointsName);
    var third := Solve(grid, start, end, waypoints, NoWaypoints, NoWaypointsName);
    r := Ok([first.value, second.value, third.value]);
  }

  /** All three configurations return paths of the same length: each is a shortest path. */
  lemma RunsAgreeOnLength(grid: Grid, start: Cell, end: Cell, runs: seq<Run>)
    requires Runs(grid, start, end, runs)
    ensures |runs[0].result.path| == |runs[1].result.path| == |runs[2].result.path|
  {
    ManhattanAdmissible();
    ShortestLengthsAgree(grid, start, end, Default, ManhattanWaypoints, runs[0].result, runs[1].result);
    ShortestLengthsAgree(grid, start, end, ManhattanWaypoints, NoWaypoints, runs[1].result, runs[2].result);
  }
}
