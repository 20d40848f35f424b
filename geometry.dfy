/**
 * Cells, the distance functions the planner uses as heuristics, the four
 * axis-aligned neighbours of a cell, and the step-direction lookup table
 * (js/utils.js:147-158, 312-314, 372-377).
 */
module Geometry {
  import opened Wrappers

  /** A grid cell: an integer coordinate pair. */
  datatype Cell = Cell(x: int, y: int)

  /** A heuristic: a non-negative distance estimate between two cells. */
  type Distance = (Cell, Cell) -> nat

  /** The heuristics one search is configured with; `secondary == None` disables waypoint tie-breaking. */
  datatype Heuristics = Heuristics(primary: Distance, secondary: Option<Distance>)

  function Abs(n: int): nat
  {
    if n < 0 then -n else n
  }

  /** `manhattan_distance`: |dx| + |dy|. */
  function Manhattan(a: Cell, b: Cell): (d: nat)
    ensures d == 0 <==> a == b
  {
    Abs(a.x - b.x) + Abs(a.y - b.y)
  }

  /** `square_distance`: dx^2 + dy^2 (the squared Euclidean distance). */
  function SquareDistance(a: Cell, b: Cell): (d: nat)
    ensures d == 0 <==> a == b
  {
    var dx, dy := a.x - b.x, a.y - b.y;
    assert dx * dx >= 0 && dy * dy >= 0;
    assert dx != 0 ==> dx * dx > 0;
    assert dy != 0 ==> dy * dy > 0;
    dx * dx + dy * dy
  }

  lemma ManhattanSymmetric(a: Cell, b: Cell)
    ensures Manhattan(a, b) == Manhattan(b, a)
  {
  }

  lemma SquareDistanceSymmetric(a: Cell, b: Cell)
    ensures SquareDistance(a, b) == SquareDistance(b, a)
  {
    assert (a.x - b.x) * (a.x - b.x) == (b.x - a.x) * (b.x - a.x);
    assert (a.y - b.y) * (a.y - b.y) == (b.y - a.y) * (b.y - a.y);
  }

  /** The triangle inequality, used to bound Manhattan distance by walk length. */
  lemma ManhattanTriangle(a: Cell, b: Cell, c: Cell)
    ensures Manhattan(a, c) <= Manhattan(a, b) + Manhattan(b, c)
  {
  }

  /** Two cells one axis-aligned unit step apart. */
  predicate Adjacent(a: Cell, b: Cell)
  {
    Manhattan(a, b) == 1
  }

  /** The neighbour candidates of a cell, in the order the search visits them: left, right, up, down. */
  function Neighbours(c: Cell): (r: seq<Cell>)
    ensures |r| == 4
    ensures forall k :: 0 <= k < 4 ==> Adjacent(c, r[k])
    ensures forall d :: Adjacent(c, d) ==> d in r
  {
    [Cell(c.x - 1, c.y), Cell(c.x + 1, c.y), Cell(c.x, c.y - 1), Cell(c.x, c.y + 1)]
  }

  lemma NeighboursDistinct(c: Cell)
    ensures forall i, j :: 0 <= i < j < 4 ==> Neighbours(c)[i] != Neighbours(c)[j]
  {
  }

  /**
   * The table `get_direction` indexes by [dy + 1][dx + 1]:
   * 0 = up, 1 = left, 2 = down, 3 = right, None for the centre and the diagonals.
   */
  const Directions: seq<seq<Option<nat>>> :=
    [[None, Some(0), None],
     [Some(1), None, Some(3)],
     [None, Some(2), None]]

  /**
   * `get_direction(a, b)`. The source indexes a 3x3 table, so offsets outside
   * [-1, 1] on either axis are outside its domain (it throws or yields undefined).
   */
  function GetDirection(a: Cell, b: Cell): (r: Option<nat>)
    requires -1 <= b.x - a.x <= 1 && -1 <= b.y - a.y <= 1
    ensures r == Some(0) <==> b == Cell(a.x, a.y - 1)
    ensures r == Some(1) <==> b == Cell(a.x - 1, a.y)
    ensures r == Some(2) <==> b == Cell(a.x, a.y + 1)
    ensures r == Some(3) <==> b == Cell(a.x + 1, a.y)
    ensures r == None <==> !Adjacent(a, b)
  {
    Directions[b.y - a.y + 1][b.x - a.x + 1]
  }

  /** Every unit step lies in the table's domain and has a direction. */
  lemma UnitStepHasDirection(a: Cell, b: Cell)
    requires Adjacent(a, b)
    ensures -1 <= b.x - a.x <= 1 && -1 <= b.y - a.y <= 1
    ensures GetDirection(a, b).Some? && GetDirection(a, b).value < 4
  {
  }
}
