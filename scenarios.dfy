/**
 * Consequences of the search contract for particular grids: on a grid without
 * walls the path has exactly Manhattan distance plus one cells.
 */
module Scenarios {
  import opened Geometry
  import opened Grids
  import opened Invariants
  import opened Outcomes

  /** No in-bounds cell is a wall. */
  ghost predicate OpenGrid(grid: Grid)
    requires grid.Valid()
  {
    forall c :: grid.InBounds(c) ==> grid.Free(c)
  }

  /** One unit step from a towards b, closing the column gap first. */
  function StepToward(a: Cell, b: Cell): (r: Cell)
    requires a != b
    ensures Adjacent(a, r) && Manhattan(r, b) == Manhattan(a, b) - 1
    ensures (a.x <= r.x <= b.x || b.x <= r.x <= a.x) && (a.y <= r.y <= b.y || b.y <= r.y <= a.y)
  {
    if a.x < b.x then Cell(a.x + 1, a.y)
    else if a.x > b.x then Cell(a.x - 1, a.y)
    else if a.y < b.y then Cell(a.x, a.y + 1)
    else Cell(a.x, a.y - 1)
  }

  /** The walk that first closes the column gap, then the row gap. */
  function StraightWalk(a: Cell, b: Cell): (r: seq<Cell>)
    ensures |r| == Manhattan(a, b) + 1 && r[0] == a && r[|r| - 1] == b
    decreases Manhattan(a, b)
  {
    if a == b then [a] else [a] + StraightWalk(StepToward(a, b), b)
  }

  /** Between two in-bounds cells of a grid without walls, the straight walk is a walk. */
  lemma {:induction false} StraightWalkIsWalk(grid: Grid, a: Cell, b: Cell)
    requires grid.Valid() && OpenGrid(grid) && grid.InBounds(a) && grid.InBounds(b)
    ensures grid.IsWalk(a, b, StraightWalk(a, b))
    decreases Manhattan(a, b)
  {
    if a != b {
      var next := StepToward(a, b);
      var rest := StraightWalk(next, b);
      StraightWalkIsWalk(grid, next, b);
      var p := StraightWalk(a, b);
      assert p == [a] + rest;
      forall k | 0 <= k < |p| - 1 ensures grid.StepOk(p, k) {
        if k > 0 {
          assert grid.StepOk(rest, k - 1);
        }
      }
    }
  }

  /** On a grid without walls, a search with an admissible primary heuristic returns Manhattan + 1 cells. */
  lemma OpenGridPathLength(grid: Grid, start: Cell, end: Cell, hs: Heuristics, res: SearchResult)
    requires Outcome(grid, start, end, hs, res) && Admissible(hs.primary)
    requires OpenGrid(grid) && grid.InBounds(start) && grid.InBounds(end)
    ensures |res.path| == Manhattan(start, end) + 1
  {
    StraightWalkIsWalk(grid, start, end);
    assert grid.IsWalk(start, end, StraightWalk(start, end));
    ReversedWalkIsWalk(grid, start, end, res.path);
    WalkBoundsManhattan(grid, start, end, ReversedCells(res.path), 0);
  }
}
