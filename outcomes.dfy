/**
 * What a finished search promises about its result `{ path, grid_state }`
 * (js/utils.js:357-369, 423): the path is the parent chain of the end cell's
 * record, listed end first; it is empty exactly when the end cell cannot be
 * reached; and with a primary heuristic that never overestimates it is shortest.
 */
module Outcomes {
  import opened Wrappers
  import opened Geometry
  import opened Grids
  import opened Nodes
  import opened OpenList
  import opened Invariants

  /** The value `path_find` returns: the path, and the node table with the arena its records live in. */
  datatype SearchResult = SearchResult(path: seq<Node>, nodes: seq<Node>, table: map<Cell, nat>)

  /** Step k of the path goes from path[k + 1] to path[k]: a unit step onto a free cell, one unit of g. */
  ghost predicate PathStep(grid: Grid, path: seq<Node>, k: nat)
    requires grid.Valid() && k + 1 < |path|
  {
    path[k].parent.Some? && Adjacent(path[k + 1].cell, path[k].cell) && grid.Free(path[k].cell) &&
    path[k].g == path[k + 1].g + 1
  }

  /**
   * `path` starts at a record of `to`, ends at the start record, moves by unit
   * steps over free cells, never repeats a cell, and its first record's g is its step count.
   */
  ghost predicate ReversedWalk(grid: Grid, start: Cell, to: Cell, path: seq<Node>)
    requires grid.Valid()
  {
    |path| > 0 && path[0].cell == to && IsStartRecord(start, path[|path| - 1]) &&
    path[0].g == |path| - 1 &&
    (forall k :: 0 <= k < |path| - 1 ==> PathStep(grid, path, k)) &&
    (forall a, b :: 0 <= a < b < |path| ==> path[a].cell != path[b].cell)
  }

  /** The cells of a path in the opposite order. */
  function ReversedCells(path: seq<Node>): (r: seq<Cell>)
    ensures |r| == |path| && forall k :: 0 <= k < |r| ==> r[k] == path[|path| - 1 - k].cell
  {
    seq(|path|, k requires 0 <= k < |path| => path[|path| - 1 - k].cell)
  }

  /** Read start first, a reversed walk is a walk of the grid. */
  lemma ReversedWalkIsWalk(grid: Grid, start: Cell, to: Cell, path: seq<Node>)
    requires grid.Valid() && ReversedWalk(grid, start, to, path)
    ensures grid.IsWalk(start, to, ReversedCells(path))
  {
    var q := ReversedCells(path);
    var n := |path|;
    forall k | 0 <= k < n - 1 ensures grid.StepOk(q, k) {
      assert PathStep(grid, path, n - 2 - k);
    }
  }

  /** Every parent chain of the arena, read as nodes, is a reversed walk from its record's cell. */
  lemma ChainIsReversedWalk(grid: Grid, start: Cell, end: Cell, hs: Heuristics, s: State, i: nat)
    requires Core(grid, start, end, hs, s) && i < |s.nodes|
    ensures ReversedWalk(grid, start, s.nodes[i].cell, Select(s.nodes, Chain(s.nodes, i)))
  {
    var ch := Chain(s.nodes, i);
    ChainShape(s.nodes, i);
    var path := Select(s.nodes, ch);
    forall k | 0 <= k < |path| - 1 ensures PathStep(grid, path, k) {
      assert LinkAt(s.nodes, ch, k);
      var j := ch[k];
      assert s.nodes[j].g > 0;
      assert Accepted(grid, end, hs.primary, s.nodes, j);
    }
    assert DistinctCells(s.nodes, ch);
  }

  /**
   * Following a walk from a cell whose record costs no more than its position on
   * the walk, some later cell of the walk has an open record no dearer than its position.
   */
  lemma {:induction false} WalkMeetsOpen(grid: Grid, start: Cell, end: Cell, hs: Heuristics, s: State,
                                         p: seq<Cell>, i: nat) returns (j: nat)
    requires Inv(grid, start, end, hs, s) && grid.IsWalk(start, end, p) && i < |p|
    requires p[i] in s.table && s.table[p[i]] < |s.nodes| && s.nodes[s.table[p[i]]].g <= i
    ensures i <= j < |p| && p[j] in s.table && s.table[p[j]] < |s.nodes|
    ensures s.table[p[j]] in s.open && s.nodes[s.table[p[j]]].g <= j
    decreases |p| - i
  {
    var r := s.table[p[i]];
    assert i == |p| - 1 ==> r in s.open by {
      if i == |p| - 1 {
        assert s.nodes[r].cell == end;
      }
    }
    if r in s.open {
      j := i;
    } else {
      assert Expanded(grid, s.nodes, s.table, p[i]);
      assert grid.StepOk(p, i);
      var m :| 0 <= m < 4 && Neighbours(p[i])[m] == p[i + 1];
      assert Settled(grid, s.nodes, s.table, s.nodes[r].g, Neighbours(p[i])[m]);
      j := WalkMeetsOpen(grid, start, end, hs, s, p, i + 1);
    }
  }

  /** While the end cell is reachable the open list is not empty. */
  lemma ReachableKeepsOpen(grid: Grid, start: Cell, end: Cell, hs: Heuristics, s: State)
    requires Inv(grid, start, end, hs, s)
    ensures grid.Reachable(start, end) ==> |s.open| > 0
  {
    if grid.Reachable(start, end) {
      var p :| grid.IsWalk(start, end, p);
      StartRecordStays(grid, start, end, hs, s);
      var j := WalkMeetsOpen(grid, start, end, hs, s, p, 0);
      assert s.table[p[j]] in s.open;
    }
  }

  /** A popped record of the end cell is the end cell's entry in the node table. */
  lemma PoppedEndIsRecord(grid: Grid, start: Cell, end: Cell, hs: Heuristics, s: State)
    requires Inv(grid, start, end, hs, s) && |s.open| > 0 && s.nodes[s.open[0]].cell == end
    ensures end in s.table && s.table[end] == s.open[0]
  {
    var cur := s.open[0];
    assert BestRecord(s.nodes, s.table, cur);
    var r := s.table[end];
    assert cur > 0 ==> Accepted(grid, end, hs.primary, s.nodes, cur);
    assert r > 0 ==> Accepted(grid, end, hs.primary, s.nodes, r);
    assert r != cur ==> KeyLess(KeyOf(s.nodes[r]), KeyOf(s.nodes[cur]));
    assert s.nodes[r].open;
    var a :| 0 <= a < |s.open| && s.open[a] == r;
    HeadIsMinimal(s.nodes, s.open, a);
  }

  /** With an admissible primary heuristic, the popped end record is no dearer than any walk. */
  lemma PoppedEndIsShortest(grid: Grid, start: Cell, end: Cell, hs: Heuristics, s: State, p: seq<Cell>)
    requires Inv(grid, start, end, hs, s) && |s.open| > 0 && s.nodes[s.open[0]].cell == end
    requires Admissible(hs.primary) && grid.IsWalk(start, end, p)
    ensures s.nodes[s.open[0]].g + 1 <= |p|
  {
    var cur := s.open[0];
    StartRecordStays(grid, start, end, hs, s);
    var j := WalkMeetsOpen(grid, start, end, hs, s, p, 0);
    var r := s.table[p[j]];
    assert s.nodes[r].f <= |p| - 1 by {
      if r != 0 {
        assert Accepted(grid, end, hs.primary, s.nodes, r);
        assert s.nodes[r].cell == p[j];
        assert hs.primary(end, p[j]) <= Manhattan(end, p[j]);
        ManhattanSymmetric(end, p[j]);
        WalkBoundsManhattan(grid, start, end, p, j);
      }
    }
    var a :| 0 <= a < |s.open| && s.open[a] == r;
    HeadIsMinimal(s.nodes, s.open, a);
    if cur != 0 {
      assert Accepted(grid, end, hs.primary, s.nodes, cur);
      assert hs.primary(end, end) <= Manhattan(end, end);
    }
  }

  // ---------------------------------------------------------------- the result

  /** Records, table and scores of the returned node table. */
  ghost predicate TableFacts(grid: Grid, start: Cell, end: Cell, hs: Heuristics, res: SearchResult)
    requires grid.Valid()
  {
    ArenaOk(grid, start, end, hs.primary, res.nodes) && Rooted(res.nodes) &&
    TableOk(res.nodes, res.table) &&
    (forall i :: 0 <= i < |res.nodes| ==> res.nodes[i].g < |grid.Universe(start)|) &&
    PlainScores(hs.secondary.None?, res.nodes)
  }

  /** A non-empty path is the parent chain of the end cell's record and a reversed walk. */
  ghost predicate PathFacts(grid: Grid, start: Cell, end: Cell, res: SearchResult)
    requires grid.Valid() && Rooted(res.nodes)
  {
    res.path != [] ==>
      end in res.table && res.table[end] < |res.nodes| &&
      res.path == Select(res.nodes, Chain(res.nodes, res.table[end])) &&
      ReversedWalk(grid, start, end, res.path)
  }

  /** Everything `path_find` promises about its result. */
  ghost predicate Outcome(grid: Grid, start: Cell, end: Cell, hs: Heuristics, res: SearchResult)
  {
    grid.Valid() &&
    TableFacts(grid, start, end, hs, res) &&
    PathFacts(grid, start, end, res) &&
    (res.path == [] <==> !grid.Reachable(start, end)) &&
    (Admissible(hs.primary) ==> forall p :: grid.IsWalk(start, end, p) ==> |res.path| <= |p|) &&
    (start == end ==> res.path == [res.nodes[0]])
  }

  lemma CoreTableFacts(grid: Grid, start: Cell, end: Cell, hs: Heuristics, s: State, path: seq<Node>)
    requires Core(grid, start, end, hs, s)
    ensures TableFacts(grid, start, end, hs, SearchResult(path, s.nodes, s.table))
  {
    forall i | 0 <= i < |s.nodes| ensures s.nodes[i].g < |grid.Universe(start)| {
      CostBound(grid, start, end, hs, s, i);
    }
  }

  /** The result when the end cell's record is popped and backtracked (js/utils.js:362-368). */
  lemma FoundOutcome(grid: Grid, start: Cell, end: Cell, hs: Heuristics, s: State, path: seq<Node>)
    requires Inv(grid, start, end, hs, s) && |s.open| > 0 && s.nodes[s.open[0]].cell == end
    requires Rooted(Pop(s).nodes) && path == Select(Pop(s).nodes, Chain(Pop(s).nodes, s.open[0]))
    ensures Outcome(grid, start, end, hs, SearchResult(path, Pop(s).nodes, Pop(s).table))
  {
    var cur := s.open[0];
    var s' := Pop(s);
    var res := SearchResult(path, s'.nodes, s'.table);
    PopKeepsCore(grid, start, end, hs, s);
    CoreTableFacts(grid, start, end, hs, s', path);
    PoppedEndIsRecord(grid, start, end, hs, s);
    ChainIsReversedWalk(grid, start, end, hs, s', cur);
    ReversedWalkIsWalk(grid, start, end, path);
    forall p | Admissible(hs.primary) && grid.IsWalk(start, end, p) ensures |path| <= |p| {
      PoppedEndIsShortest(grid, start, end, hs, s, p);
    }
    if start == end {
      StartRecordStays(grid, start, end, hs, s);
      assert path[|path| - 1].cell == path[0].cell;
      assert |path| == 1;
    }
  }

  /** The result when the open list runs empty (js/utils.js:357, 423). */
  lemma ExhaustedOutcome(grid: Grid, start: Cell, end: Cell, hs: Heuristics, s: State)
    requires Inv(grid, start, end, hs, s) && s.open == []
    ensures Outcome(grid, start, end, hs, SearchResult([], s.nodes, s.table))
  {
    ReachableSelf(grid, start);
    CoreTableFacts(grid, start, end, hs, s, []);
    ReachableKeepsOpen(grid, start, end, hs, s);
  }

  /** Two searches between the same cells with admissible primary heuristics return paths of one length. */
  lemma ShortestLengthsAgree(grid: Grid, start: Cell, end: Cell, hs1: Heuristics, hs2: Heuristics,
                             r1: SearchResult, r2: SearchResult)
    requires Outcome(grid, start, end, hs1, r1) && Outcome(grid, start, end, hs2, r2)
    requires Admissible(hs1.primary) && Admissible(hs2.primary)
    ensures |r1.path| == |r2.path|
  {
    if r1.path != [] && r2.path != [] {
      ReversedWalkIsWalk(grid, start, end, r1.path);
      ReversedWalkIsWalk(grid, start, end, r2.path);
      assert grid.IsWalk(start, end, ReversedCells(r1.path));
      assert grid.IsWalk(start, end, ReversedCells(r2.path));
    }
  }
}
