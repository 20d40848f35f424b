/**
 * The wall grid the planner reads: `cells[x][y]` is true for a wall
 * (js/utils.js:9-19, 380-383), and walks through its free cells.
 */
module Grids {
  import opened Geometry

  datatype Grid = Grid(width: nat, height: nat, cells: seq<seq<bool>>) {

    /** `cells` is a width-by-height table indexed [x][y]. */
    ghost predicate Valid()
    {
      |cells| == width && forall x :: 0 <= x < width ==> |cells[x]| == height
    }

    predicate InBounds(c: Cell)
    {
      0 <= c.x < width && 0 <= c.y < height
    }

    /** A cell the search may step onto: inside the grid and not a wall. */
    predicate Free(c: Cell)
      requires Valid()
    {
      InBounds(c) && !cells[c.x][c.y]
    }

    /** The cells a search from `start` can ever hold a record for. */
    ghost function Universe(start: Cell): (u: set<Cell>)
      ensures start in u
      ensures forall c :: InBounds(c) ==> c in u
    {
      (set x: int, y: int | 0 <= x < width && 0 <= y < height :: Cell(x, y)) + {start}
    }

    /**
     * A walk from `from` to `to`: unit steps, every cell after the first free.
     * The first cell is exempt, as the search starts from `start` whatever it holds.
     */
    ghost predicate IsWalk(from: Cell, to: Cell, p: seq<Cell>)
      requires Valid()
    {
      |p| > 0 && p[0] == from && p[|p| - 1] == to &&
      forall k :: 0 <= k < |p| - 1 ==> StepOk(p, k)
    }

    /** Step k of `p` is a unit step onto a free cell. */
    ghost predicate StepOk(p: seq<Cell>, k: nat)
      requires Valid() && k < |p| - 1
    {
      Adjacent(p[k], p[k + 1]) && Free(p[k + 1])
    }

    ghost predicate Reachable(from: Cell, to: Cell)
      requires Valid()
    {
      exists p :: IsWalk(from, to, p)
    }
  }

  /** Only the in-bounds cells and the start cell are in the universe. */
  lemma UniverseMembers(grid: Grid, start: Cell, c: Cell)
    requires c in grid.Universe(start)
    ensures c == start || grid.InBounds(c)
  {
  }

  /** Every cell reaches itself by the one-cell walk. */
  lemma ReachableSelf(grid: Grid, c: Cell)
    requires grid.Valid()
    ensures grid.Reachable(c, c)
  {
    assert grid.IsWalk(c, c, [c]);
  }

  /** A walk of n steps covers Manhattan distance at most n from any of its cells to its end. */
  lemma {:induction false} WalkBoundsManhattan(grid: Grid, from: Cell, to: Cell, p: seq<Cell>, i: nat)
    requires grid.Valid() && grid.IsWalk(from, to, p) && i < |p|
    ensures Manhattan(p[i], to) <= |p| - 1 - i
    decreases |p| - i
  {
    if i < |p| - 1 {
      assert grid.StepOk(p, i);
      WalkBoundsManhattan(grid, from, to, p, i + 1);
      ManhattanTriangle(p[i], p[i + 1], to);
    }
  }
}
