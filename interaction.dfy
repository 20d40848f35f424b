/**
 * The pointer handlers of js/main.js that drive the search: a left press moves
 * the start cell (and with ctrl clears the waypoints), and a ctrl-drag sample
 * moves the end cell, may record a waypoint, and recomputes the three runs.
 */
module Interaction {
  import opened Wrappers
  import opened Geometry
  import opened Grids
  import opened Orchestrator

  /** The waypoint list after a ctrl-drag sample at p (js/main.js:79-83). */
  function Sample(waypoints: seq<Cell>, p: Cell): (r: seq<Cell>)
    ensures r == waypoints || r == waypoints + [p]
    ensures r == waypoints + [p] <==> (|waypoints| == 0 || Manhattan(p, waypoints[|waypoints| - 1]) > 2)
  {
    if |waypoints| == 0 || Manhattan(p, waypoints[|waypoints| - 1]) > 2 then waypoints + [p] else waypoints
  }

  /** Consecutive waypoints are more than two steps apart. */
  ghost predicate Spread(waypoints: seq<Cell>)
  {
    forall k :: 0 < k < |waypoints| ==> Manhattan(waypoints[k - 1], waypoints[k]) > 2
  }

  /** Sampling keeps waypoints spread out, and records the new end cell as the last waypoint. */
  lemma SampleKeepsSpread(waypoints: seq<Cell>, p: Cell)
    requires Spread(waypoints)
    ensures Spread(Sample(waypoints, p))
    ensures |Sample(waypoints, p)| > 0
  {
    var r := Sample(waypoints, p);
    if r != waypoints {
      forall k | 0 < k < |r| ensures Manhattan(r[k - 1], r[k]) > 2 {
        if k == |r| - 1 {
          ManhattanSymmetric(p, waypoints[k - 1]);
        }
      }
    }
  }

  /** `state.path_finding`: the start and end cells, the waypoint list and the last three runs. */
  class PathFinding {
    const grid: Grid
    var start: Cell
    var end: Cell
    var waypoints: seq<Cell>
    var paths: seq<Run>

    ghost predicate Valid()
      reads this
    {
      grid.Valid() && Spread(waypoints)
    }

    /** Page load (js/main.js:110-112): start at the bottom-right cell, end at the bottom-left, search once. */
    constructor (grid: Grid)
      requires grid.Valid() && grid.width > 0 && grid.height > 0
      ensures Valid() && this.grid == grid && waypoints == []
      ensures start == Cell(grid.width - 1, grid.height - 1) && end == Cell(0, grid.height - 1)
      ensures Runs(grid, start, end, paths)
    {
      this.grid := grid;
      start := Cell(grid.width - 1, grid.height - 1);
      end := Cell(0, grid.height - 1);
      waypoints := [];
      new;
      var r := TriggerPathfinding(grid, start, end, waypoints);
      paths := r.value;
    }

    /** A left press at cell p (js/main.js:57-60): p becomes the start; with ctrl the waypoints are cleared. */
    method PointerDown(p: Cell, ctrl: bool)
      requires Valid()
      modifies this
      ensures Valid() && start == p && end == old(end) && paths == old(paths)
      ensures waypoints == if ctrl then [] else old(waypoints)
    {
      start := p;
      if ctrl {
        waypoints := [];
      }
    }

    /**
     * A ctrl-drag sample at cell p (js/main.js:72-86). Nothing happens while the
     * pointer stays on the end cell; otherwise p becomes the end, the waypoint
     * rule runs, and the runs are recomputed. The searches fail when the start
     * column is outside the grid, and then the previous runs stay.
     */
    method CtrlDrag(p: Cell)
      requires Valid()
      modifies this
      ensures Valid() && start == old(start)
      ensures p == old(end) ==> end == old(end) && waypoints == old(waypoints) && paths == old(paths)
      ensures p != old(end) ==> end == p && waypoints == Sample(old(waypoints), p)
      ensures p != old(end) && 0 <= start.x < grid.width ==> Runs(grid, start, end, paths)
      ensures p != old(end) && !(0 <= start.x < grid.width) ==> paths == old(paths)
    {
      if p != end {
        end := p;
        SampleKeepsSpread(waypoints, p);
        waypoints := Sample(waypoints, p);
        var r := TriggerPathfinding(grid, start, p, waypoints);
        if r.Ok? {
          paths := r.value;
        }
      }
    }
  }
}
