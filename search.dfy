/**
 * `path_find` (js/utils.js:316-424): A* over the wall grid from the start cell
 * to the end cell, four-connected, unit step cost, open list ordered by (f, w).
 */
module Search {
  import opened Wrappers
  import opened Geometry
  import opened Grids
  import opened Nodes
  import opened OpenList
  import opened Waypoints
  import opened Invariants
  import opened Outcomes

  /**
   * One pass of the neighbour loop (js/utils.js:380-419): skip an out-of-bounds
   * cell, a wall, or a cell whose record is no dearer; otherwise score it,
   * consult the waypoints, record it and insert it into the open list.
   */
  method Relax(grid: Grid, end: Cell, hs: Heuristics, s: State, cur: nat, nb: Cell)
    returns (s': State, accepted: bool, pos: nat)
    requires grid.Valid() && cur < |s.nodes| && Sorted(s.nodes, s.open)
    requires forall c :: c in s.table ==> s.table[c] < |s.nodes|
    ensures Relaxed(grid, end, hs, s, cur, nb, s', accepted, pos)
  {
    var g := s.nodes[cur].g + 1;
    if nb.x < 0 || nb.x >= grid.width || nb.y < 0 || nb.y >= grid.height || grid.cells[nb.x][nb.y] ||
       (nb in s.table && g >= s.nodes[s.table[nb]].g) {
      Rejected(grid, end, hs, s, cur, nb);
      s', accepted, pos := s, false, 0;
    } else {
      var h := hs.primary(end, nb);
      var f := g + h;
      var w, waypoints := Score(hs.secondary, s.waypoints, nb);
      s', pos := Install(s, Node(nb, g, f, h, w, Some(cur), true), waypoints);
      Taken(grid, end, hs, s, cur, nb, w, waypoints, pos);
      accepted := true;
    }
  }

  /**
   * Storing a new record (js/utils.js:417-419): it becomes its cell's entry in
   * the node table and goes into the open list at the left bisection point of its key.
   */
  method Install(s: State, n: Node, waypoints: seq<Cell>) returns (s': State, pos: nat)
    requires Sorted(s.nodes, s.open)
    ensures IsLeftBisect(s.nodes + [n], s.open, KeyOf(n), pos)
    ensures s' == State(s.nodes + [n], s.table[n.cell := |s.nodes|], InsertAt(s.open, pos, |s.nodes|), waypoints)
  {
    var i := |s.nodes|;
    var nodes := s.nodes + [n];
    SortedFrame(s.nodes, nodes, s.open);
    pos := Bisect(nodes, s.open, KeyOf(n));
    s' := State(nodes, s.table[n.cell := i], InsertAt(s.open, pos, i), waypoints);
  }

  /** The backtracking loop (js/utils.js:364-367): follow parents from record i to the start record. */
  method Backtrack(nodes: seq<Node>, i: nat) returns (path: seq<Node>)
    requires Rooted(nodes) && i < |nodes|
    ensures path == Select(nodes, Chain(nodes, i))
  {
    ghost var whole := Select(nodes, Chain(nodes, i));
    path := [];
    var current: Option<nat> := Some(i);
    while current.Some?
      invariant current.Some? ==>
        current.value < |nodes| && path + Select(nodes, Chain(nodes, current.value)) == whole
      invariant current.None? ==> path == whole
      decreases if current.Some? then current.value + 1 else 0
    {
      var n := nodes[current.value];
      SelectChainStep(nodes, current.value);
      ghost var tail := Select(nodes, Chain(nodes, current.value));
      if n.parent.Some? {
        ghost var rest := Select(nodes, Chain(nodes, n.parent.value));
        assert tail == [n] + rest;
        assert (path + [n]) + rest == path + tail;
      } else {
        assert tail == [n];
      }
      path := path + [n];
      current := n.parent;
    }
  }

  /**
   * `path_find` with the start cell, end cell and waypoints it reads from the
   * shared state passed in. A start column outside the grid fails in JavaScript
   * when the start record is stored (js/utils.js:331); every other input returns
   * a result whose path is empty exactly when the end cell is unreachable, and
   * otherwise is a walk end first, shortest when the primary heuristic is admissible.
   */
  method PathFind(grid: Grid, start: Cell, end: Cell, waypoints: seq<Cell>, hs: Heuristics)
    returns (r: Result<SearchResult>)
    requires grid.Valid()
    ensures r.RangeError? <==> !(0 <= start.x < grid.width)
    ensures r.Ok? ==> Outcome(grid, start, end, hs, r.value)
  {
    if !(0 <= start.x < grid.width) {
      return RangeError;
    }
    var path: seq<Node> := [];
    var s := Initial(start, waypoints);
    InitialInv(grid, start, end, hs, waypoints);
    ghost var found := false;
    ghost var u := grid.Universe(start);
    while |s.open| > 0
      invariant Inv(grid, start, end, hs, s) && path == [] && !found
      decreases Avail(grid, start, s), |s.open|
    {
      ghost var before := s;
      var cur := s.open[0];
      s := Pop(s);
      if s.nodes[cur].cell == end {
        PopKeepsCore(grid, start, end, hs, before);
        path := Backtrack(s.nodes, cur);
        FoundOutcome(grid, start, end, hs, before, path);
        found := true;
        break;
      }
      PopStartsExpansion(grid, start, end, hs, before);
      ghost var popped := s;
      var neighbours := Neighbours(s.nodes[cur].cell);
      for k := 0 to 4
        invariant Expanding(grid, start, end, hs, s, cur, k)
        invariant s.nodes[cur] == popped.nodes[cur]
        invariant NoWorse(popped, s, |u|)
        invariant s == popped || Avail(grid, start, s) < Avail(grid, start, popped)
      {
        ghost var prev := s;
        var accepted, pos;
        s, accepted, pos := Relax(grid, end, hs, s, cur, neighbours[k]);
        RelaxKeepsExpanding(grid, start, end, hs, prev, cur, k, s, accepted, pos);
        AvailMonotone(grid, start, prev, s);
      }
      FinishExpansion(grid, start, end, hs, s, cur);
      AvailMonotone(grid, start, before, popped);
      AvailMonotone(grid, start, popped, before);
    }
    if !found {
      ExhaustedOutcome(grid, start, end, hs, s);
    }
    r := Ok(SearchResult(path, s.nodes, s.table));
  }
}
