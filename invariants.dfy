/**
 * The planner's working state and the invariants its main loop keeps
 * (js/utils.js:328-421): every record hangs off an earlier, one-step-cheaper
 * parent; a cell's table entry is its cheapest record; the open list is sorted
 * and holds exactly the open records; and every record that has left the open
 * list has had its neighbours settled.
 */
module Invariants {
  import opened Wrappers
  import opened Geometry
  import opened Grids
  import opened Nodes
  import opened OpenList
  import opened Waypoints

  /** Node arena, node table (`grid_state`), open list, and working waypoint list. */
  datatype State = State(nodes: seq<Node>, table: map<Cell, nat>, open: seq<nat>, waypoints: seq<Cell>)

  /** The start cell's record: g = h = f = w = 0 and no parent (js/utils.js:331-340). */
  predicate IsStartRecord(start: Cell, n: Node)
  {
    n.cell == start && n.g == 0 && n.h == 0 && n.f == 0 && n.w == Fin(0) && n.parent == None
  }

  /** A primary heuristic that never overestimates the number of unit steps. */
  ghost predicate Admissible(primary: Distance)
  {
    forall a, b :: primary(a, b) <= Manhattan(a, b)
  }

  // ---------------------------------------------------------------- arena

  /** Node i was created as an accepted neighbour of its parent (js/utils.js:379-398, 417). */
  ghost predicate Accepted(grid: Grid, end: Cell, primary: Distance, nodes: seq<Node>, i: nat)
    requires grid.Valid() && 0 < i < |nodes|
  {
    nodes[i].parent.Some? && nodes[i].parent.value < i &&
    var p := nodes[nodes[i].parent.value];
    nodes[i].g == p.g + 1 && Adjacent(p.cell, nodes[i].cell) && grid.Free(nodes[i].cell) &&
    nodes[i].h == primary(end, nodes[i].cell) && nodes[i].f == nodes[i].g + nodes[i].h
  }

  /** The first node is the start record and every other one an accepted neighbour. */
  ghost predicate ArenaOk(grid: Grid, start: Cell, end: Cell, primary: Distance, nodes: seq<Node>)
    requires grid.Valid()
  {
    |nodes| > 0 && IsStartRecord(start, nodes[0]) &&
    forall i :: 0 < i < |nodes| ==> Accepted(grid, end, primary, nodes, i)
  }

  lemma ArenaIsRooted(grid: Grid, start: Cell, end: Cell, primary: Distance, nodes: seq<Node>)
    requires grid.Valid() && ArenaOk(grid, start, end, primary, nodes)
    ensures Rooted(nodes)
  {
    forall i | 0 < i < |nodes| ensures HasParent(nodes, i) {
      assert Accepted(grid, end, primary, nodes, i);
    }
  }

  /** Every parent chain visits each cell at most once. */
  ghost predicate SimpleChains(nodes: seq<Node>)
    requires Rooted(nodes)
  {
    forall i :: 0 <= i < |nodes| ==> DistinctCells(nodes, Chain(nodes, i))
  }

  // ---------------------------------------------------------------- table

  /** Node i's cell has a record, no dearer than node i, and strictly cheaper unless it is node i. */
  ghost predicate BestRecord(nodes: seq<Node>, table: map<Cell, nat>, i: nat)
    requires i < |nodes|
  {
    var c := nodes[i].cell;
    c in table && table[c] < |nodes| && nodes[table[c]].g <= nodes[i].g &&
    (table[c] != i ==> nodes[table[c]].g < nodes[i].g)
  }

  /** `grid_state[x][y]` holds a record of cell (x, y), its cheapest one. */
  ghost predicate TableOk(nodes: seq<Node>, table: map<Cell, nat>)
  {
    (forall c :: c in table ==> table[c] < |nodes| && nodes[table[c]].cell == c) &&
    (forall i :: 0 <= i < |nodes| ==> BestRecord(nodes, table, i))
  }

  // ---------------------------------------------------------------- open list

  /** Sorted, without repeats, and holding exactly the nodes whose `open` flag is set. */
  ghost predicate OpenOk(nodes: seq<Node>, open: seq<nat>)
  {
    Sorted(nodes, open) &&
    (forall a, b :: 0 <= a < b < |open| ==> open[a] != open[b]) &&
    (forall i :: 0 <= i < |nodes| ==> (nodes[i].open <==> i in open))
  }

  /** With the secondary heuristic disabled every non-start record has w = Infinity. */
  ghost predicate PlainScores(plain: bool, nodes: seq<Node>)
  {
    plain ==> forall i :: 0 < i < |nodes| ==> nodes[i].w == Inf
  }

  /** No record of the end cell has been taken off the open list yet. */
  ghost predicate EndOpen(end: Cell, nodes: seq<Node>)
  {
    forall i :: 0 <= i < |nodes| && nodes[i].cell == end ==> nodes[i].open
  }

  // ---------------------------------------------------------------- closure

  /** Neighbour d of a record with cost g has a record costing at most g + 1, if d is free. */
  ghost predicate Settled(grid: Grid, nodes: seq<Node>, table: map<Cell, nat>, g: nat, d: Cell)
    requires grid.Valid()
  {
    grid.Free(d) ==> d in table && table[d] < |nodes| && nodes[table[d]].g <= g + 1
  }

  /** The record of c has had all four neighbours settled. */
  ghost predicate Expanded(grid: Grid, nodes: seq<Node>, table: map<Cell, nat>, c: Cell)
    requires grid.Valid()
  {
    c in table && table[c] < |nodes| &&
    forall k :: 0 <= k < 4 ==> Settled(grid, nodes, table, nodes[table[c]].g, Neighbours(c)[k])
  }

  /** Every record is open, expanded, or the one being expanded. */
  ghost predicate Closure(grid: Grid, s: State, except: int)
    requires grid.Valid()
  {
    forall c :: c in s.table ==> s.table[c] == except || s.table[c] in s.open || Expanded(grid, s.nodes, s.table, c)
  }

  // ---------------------------------------------------------------- loop invariants

  /** What holds of the state at every point of the search. */
  ghost predicate Core(grid: Grid, start: Cell, end: Cell, hs: Heuristics, s: State)
  {
    grid.Valid() && ArenaOk(grid, start, end, hs.primary, s.nodes) && Rooted(s.nodes) &&
    SimpleChains(s.nodes) && TableOk(s.nodes, s.table) && OpenOk(s.nodes, s.open) &&
    PlainScores(hs.secondary.None?, s.nodes)
  }

  /** The invariant of the main `while` loop. */
  ghost predicate Inv(grid: Grid, start: Cell, end: Cell, hs: Heuristics, s: State)
  {
    Core(grid, start, end, hs, s) && EndOpen(end, s.nodes) && Closure(grid, s, -1)
  }

  /** The invariant of the neighbour loop while node cur is expanded, k neighbours done. */
  ghost predicate Expanding(grid: Grid, start: Cell, end: Cell, hs: Heuristics, s: State, cur: nat, k: nat)
  {
    Core(grid, start, end, hs, s) && EndOpen(end, s.nodes) &&
    cur < |s.nodes| && cur !in s.open && s.nodes[cur].cell != end &&
    Closure(grid, s, cur) && k <= 4 &&
    forall j :: 0 <= j < k ==> Settled(grid, s.nodes, s.table, s.nodes[cur].g, Neighbours(s.nodes[cur].cell)[j])
  }

  // ---------------------------------------------------------------- termination

  /** A cell's recorded cost, or `bound` when it has no record. */
  ghost function Potential(s: State, bound: nat, c: Cell): nat
  {
    if c in s.table && s.table[c] < |s.nodes| then s.nodes[s.table[c]].g else bound
  }

  /** The (cell, cost) pairs a later record could still take: this shrinks with every accepted neighbour. */
  ghost function Avail(grid: Grid, start: Cell, s: State): set<(Cell, nat)>
  {
    var u := grid.Universe(start);
    set c, k | c in u && 0 <= k < Potential(s, |u|, c) :: (c, k)
  }

  ghost predicate NoWorse(s: State, s': State, bound: nat)
  {
    forall c :: Potential(s', bound, c) <= Potential(s, bound, c)
  }

  lemma AvailMonotone(grid: Grid, start: Cell, s: State, s': State)
    requires NoWorse(s, s', |grid.Universe(start)|)
    ensures Avail(grid, start, s') <= Avail(grid, start, s)
  {
  }

  lemma AvailStrict(grid: Grid, start: Cell, s: State, s': State, c: Cell)
    requires NoWorse(s, s', |grid.Universe(start)|)
    requires c in grid.Universe(start)
    requires Potential(s', |grid.Universe(start)|, c) < Potential(s, |grid.Universe(start)|, c)
    ensures Avail(grid, start, s') < Avail(grid, start, s)
  {
    var u := grid.Universe(start);
    var k := Potential(s', |u|, c);
    assert (c, k) in Avail(grid, start, s);
    assert (c, k) !in Avail(grid, start, s');
  }

  // ---------------------------------------------------------------- basic facts

  lemma NodeInUniverse(grid: Grid, start: Cell, end: Cell, hs: Heuristics, s: State, i: nat)
    requires Core(grid, start, end, hs, s) && i < |s.nodes|
    ensures s.nodes[i].cell in grid.Universe(start)
  {
    if i > 0 { assert Accepted(grid, end, hs.primary, s.nodes, i); }
  }

  /** Every record costs less than the number of cells a search can reach. */
  lemma CostBound(grid: Grid, start: Cell, end: Cell, hs: Heuristics, s: State, i: nat)
    requires Core(grid, start, end, hs, s) && i < |s.nodes|
    ensures s.nodes[i].g < |grid.Universe(start)|
  {
    var ch := Chain(s.nodes, i);
    ChainShape(s.nodes, i);
    forall k | 0 <= k < |ch| ensures ch[k] < |s.nodes| && s.nodes[ch[k]].cell in grid.Universe(start) {
      NodeInUniverse(grid, start, end, hs, s, ch[k]);
    }
    DistinctCellsBound(s.nodes, ch, grid.Universe(start));
  }

  /** The start cell's record is the start node, which is never replaced. */
  lemma StartRecordStays(grid: Grid, start: Cell, end: Cell, hs: Heuristics, s: State)
    requires Core(grid, start, end, hs, s)
    ensures start in s.table && s.table[start] == 0
  {
    assert BestRecord(s.nodes, s.table, 0);
  }

  // ---------------------------------------------------------------- initial state

  /** The state js/utils.js:328-348 sets up: one open start record and a copy of the waypoints. */
  function Initial(start: Cell, waypoints: seq<Cell>): (s: State)
    ensures |s.nodes| == 1 && IsStartRecord(start, s.nodes[0]) && s.nodes[0].open
    ensures s.open == [0] && s.table == map[start := 0] && s.waypoints == waypoints
  {
    State([Node(start, 0, 0, 0, Fin(0), None, true)], map[start := 0], [0], waypoints)
  }

  lemma InitialInv(grid: Grid, start: Cell, end: Cell, hs: Heuristics, waypoints: seq<Cell>)
    requires grid.Valid()
    ensures Inv(grid, start, end, hs, Initial(start, waypoints))
  {
    var s := Initial(start, waypoints);
    assert Chain(s.nodes, 0) == [0];
    assert Sorted(s.nodes, s.open);
    assert BestRecord(s.nodes, s.table, 0);
  }

  // ---------------------------------------------------------------- popping

  /** `open_set.shift()` followed by `current.open = false` (js/utils.js:358-359). */
  function Pop(s: State): (s': State)
    requires |s.open| > 0 && s.open[0] < |s.nodes|
    ensures s'.open == s.open[1..] && s'.table == s.table && s'.waypoints == s.waypoints
    ensures |s'.nodes| == |s.nodes| && !s'.nodes[s.open[0]].open
    ensures forall i :: 0 <= i < |s.nodes| && i != s.open[0] ==> s'.nodes[i] == s.nodes[i]
    ensures Shape(s'.nodes[s.open[0]]) == Shape(s.nodes[s.open[0]])
  {
    var cur := s.open[0];
    s.(open := s.open[1..], nodes := s.nodes[cur := s.nodes[cur].(open := false)])
  }

  lemma PopKeepsCore(grid: Grid, start: Cell, end: Cell, hs: Heuristics, s: State)
    requires Core(grid, start, end, hs, s) && |s.open| > 0
    ensures Core(grid, start, end, hs, Pop(s))
    ensures forall c :: Potential(Pop(s), |grid.Universe(start)|, c) == Potential(s, |grid.Universe(start)|, c)
  {
    var s' := Pop(s);
    var cur := s.open[0];
    assert SameShape(s.nodes, s'.nodes);
    assert ArenaOk(grid, start, end, hs.primary, s'.nodes) by {
      forall i | 0 < i < |s'.nodes| ensures Accepted(grid, end, hs.primary, s'.nodes, i) {
        assert Accepted(grid, end, hs.primary, s.nodes, i);
        assert Shape(s'.nodes[s.nodes[i].parent.value]) == Shape(s.nodes[s.nodes[i].parent.value]);
      }
    }
    ArenaIsRooted(grid, start, end, hs.primary, s'.nodes);
    forall i | 0 <= i < |s'.nodes| ensures DistinctCells(s'.nodes, Chain(s'.nodes, i)) {
      ChainFrame(s.nodes, s'.nodes, i);
      assert DistinctCells(s.nodes, Chain(s.nodes, i));
    }
    forall i | 0 <= i < |s'.nodes| ensures BestRecord(s'.nodes, s'.table, i) {
      assert BestRecord(s.nodes, s.table, i);
    }
    TailSorted(s.nodes, s.open);
    SortedFrame(s.nodes, s'.nodes, s.open[1..]);
    forall i | 0 <= i < |s'.nodes| ensures s'.nodes[i].open <==> i in s'.open {
      if i == cur {
        assert forall b :: 0 < b < |s.open| ==> s.open[b] != cur;
      } else {
        assert i in s.open <==> i in s'.open;
      }
    }
  }

  lemma PopStartsExpansion(grid: Grid, start: Cell, end: Cell, hs: Heuristics, s: State)
    requires Inv(grid, start, end, hs, s) && |s.open| > 0 && s.nodes[s.open[0]].cell != end
    ensures Expanding(grid, start, end, hs, Pop(s), s.open[0], 0)
    ensures forall c :: Potential(Pop(s), |grid.Universe(start)|, c) == Potential(s, |grid.Universe(start)|, c)
  {
    var s' := Pop(s);
    var cur := s.open[0];
    PopKeepsCore(grid, start, end, hs, s);
    assert cur !in s'.open by {
      assert forall b :: 0 < b < |s.open| ==> s.open[b] != cur;
    }
    forall c | c in s'.table
      ensures s'.table[c] == cur || s'.table[c] in s'.open || Expanded(grid, s'.nodes, s'.table, c)
    {
      if s.table[c] != cur && s.table[c] !in s'.open {
        assert s.table[c] !in s.open;
        assert Expanded(grid, s.nodes, s.table, c);
        forall k | 0 <= k < 4
          ensures Settled(grid, s'.nodes, s'.table, s'.nodes[s'.table[c]].g, Neighbours(c)[k])
        {
          assert Settled(grid, s.nodes, s.table, s.nodes[s.table[c]].g, Neighbours(c)[k]);
          var d := Neighbours(c)[k];
          if grid.Free(d) {
            assert Shape(s'.nodes[s.table[d]]) == Shape(s.nodes[s.table[d]]);
          }
        }
      }
    }
  }

  // ---------------------------------------------------------------- relaxing one neighbour

  /** Neighbour nb at cost g is taken: free, and cheaper than its cell's record if any (js/utils.js:380-393). */
  ghost predicate Improves(grid: Grid, s: State, nb: Cell, g: nat)
    requires grid.Valid()
  {
    grid.Free(nb) && (nb !in s.table || (s.table[nb] < |s.nodes| && g < s.nodes[s.table[nb]].g))
  }

  /** The record created for an accepted neighbour (js/utils.js:386-398, 417). */
  ghost predicate NewRecord(primary: Distance, end: Cell, nb: Cell, g: nat, cur: nat, n: Node)
  {
    n.cell == nb && n.g == g && n.h == primary(end, nb) && n.f == g + n.h && n.parent == Some(cur) && n.open
  }

  /**
   * One pass of the neighbour loop body, from s to s' (js/utils.js:380-419):
   * a rejected neighbour changes nothing; an accepted one appends its record,
   * installs it as its cell's entry and no other, scores it against the waypoints,
   * and goes into the open list at the left insertion point pos of its key.
   */
  ghost predicate Relaxed(grid: Grid, end: Cell, hs: Heuristics, s: State, cur: nat, nb: Cell,
                          s': State, accepted: bool, pos: nat)
    requires grid.Valid() && cur < |s.nodes|
  {
    var g := s.nodes[cur].g + 1;
    var i := |s.nodes|;
    (accepted <==> Improves(grid, s, nb, g)) &&
    (!accepted ==> s' == s) &&
    (accepted ==>
      |s'.nodes| == i + 1 && s'.nodes[..i] == s.nodes &&
      NewRecord(hs.primary, end, nb, g, cur, s'.nodes[i]) &&
      WaypointStep(hs.secondary, s.waypoints, nb, s'.nodes[i].w, s'.waypoints) &&
      s'.table == s.table[nb := i] &&
      IsLeftBisect(s'.nodes, s.open, KeyOf(s'.nodes[i]), pos) &&
      s'.open == InsertAt(s.open, pos, i))
  }

  /** A neighbour that does not improve on its cell's record leaves the state alone. */
  lemma Rejected(grid: Grid, end: Cell, hs: Heuristics, s: State, cur: nat, nb: Cell)
    requires grid.Valid() && cur < |s.nodes| && !Improves(grid, s, nb, s.nodes[cur].g + 1)
    ensures Relaxed(grid, end, hs, s, cur, nb, s, false, 0)
  {
  }

  /** A neighbour that improves on its cell's record is appended, installed and inserted. */
  lemma Taken(grid: Grid, end: Cell, hs: Heuristics, s: State, cur: nat, nb: Cell,
                  w: ExtNat, waypoints: seq<Cell>, pos: nat)
    requires grid.Valid() && cur < |s.nodes| && Improves(grid, s, nb, s.nodes[cur].g + 1)
    requires WaypointStep(hs.secondary, s.waypoints, nb, w, waypoints)
    requires var g := s.nodes[cur].g + 1; var h := hs.primary(end, nb);
      IsLeftBisect(s.nodes + [Node(nb, g, g + h, h, w, Some(cur), true)], s.open, Key(g + h, w), pos)
    ensures var g := s.nodes[cur].g + 1; var h := hs.primary(end, nb); var i := |s.nodes|;
      Relaxed(grid, end, hs, s, cur, nb,
              State(s.nodes + [Node(nb, g, g + h, h, w, Some(cur), true)], s.table[nb := i], InsertAt(s.open, pos, i), waypoints),
              true, pos)
  {
    var g := s.nodes[cur].g + 1;
    var h := hs.primary(end, nb);
    var nodes := s.nodes + [Node(nb, g, g + h, h, w, Some(cur), true)];
    assert nodes[..|s.nodes|] == s.nodes;
  }

  /** No cell of cur's chain is a neighbour that improves on its record. */
  lemma OffChain(grid: Grid, start: Cell, end: Cell, hs: Heuristics, s: State, cur: nat, nb: Cell)
    requires Core(grid, start, end, hs, s) && cur < |s.nodes|
    requires Improves(grid, s, nb, s.nodes[cur].g + 1)
    ensures forall k :: 0 <= k < |Chain(s.nodes, cur)| ==> s.nodes[Chain(s.nodes, cur)[k]].cell != nb
  {
    var ch := Chain(s.nodes, cur);
    ChainShape(s.nodes, cur);
    forall k | 0 <= k < |ch| ensures s.nodes[ch[k]].cell != nb {
      assert BestRecord(s.nodes, s.table, ch[k]);
    }
  }

  /** An accepted neighbour costs less than the universe size, so its cell's potential drops. */
  lemma AcceptedBound(grid: Grid, start: Cell, end: Cell, hs: Heuristics, s: State, cur: nat, nb: Cell)
    requires Core(grid, start, end, hs, s) && cur < |s.nodes|
    requires Improves(grid, s, nb, s.nodes[cur].g + 1)
    ensures nb in grid.Universe(start)
    ensures s.nodes[cur].g + 1 < |grid.Universe(start)|
  {
    var u := grid.Universe(start);
    var ch := Chain(s.nodes, cur);
    ChainShape(s.nodes, cur);
    OffChain(grid, start, end, hs, s, cur, nb);
    forall k | 0 <= k < |ch| ensures ch[k] < |s.nodes| && s.nodes[ch[k]].cell in u - {nb} {
      NodeInUniverse(grid, start, end, hs, s, ch[k]);
    }
    assert DistinctCells(s.nodes, ch);
    DistinctCellsBound(s.nodes, ch, u - {nb});
  }

  /** The structural part of an accepted neighbour: one record for nb appended, parented by cur, and installed. */
  ghost predicate Grows(grid: Grid, end: Cell, primary: Distance, s: State, cur: nat, nb: Cell, s': State)
    requires grid.Valid()
  {
    cur < |s.nodes| && |s'.nodes| == |s.nodes| + 1 && s'.nodes[..|s.nodes|] == s.nodes &&
    Adjacent(s.nodes[cur].cell, nb) && Improves(grid, s, nb, s.nodes[cur].g + 1) &&
    NewRecord(primary, end, nb, s.nodes[cur].g + 1, cur, s'.nodes[|s.nodes|]) &&
    s'.table == s.table[nb := |s.nodes|]
  }

  lemma RelaxGrows(grid: Grid, start: Cell, end: Cell, hs: Heuristics, s: State, cur: nat, k: nat,
                   s': State, pos: nat)
    requires Expanding(grid, start, end, hs, s, cur, k) && k < 4
    requires Relaxed(grid, end, hs, s, cur, Neighbours(s.nodes[cur].cell)[k], s', true, pos)
    ensures Grows(grid, end, hs.primary, s, cur, Neighbours(s.nodes[cur].cell)[k], s')
  {
  }

  lemma RelaxArena(grid: Grid, start: Cell, end: Cell, primary: Distance, s: State, cur: nat, nb: Cell, s': State)
    requires grid.Valid() && ArenaOk(grid, start, end, primary, s.nodes)
    requires Grows(grid, end, primary, s, cur, nb, s')
    ensures ArenaOk(grid, start, end, primary, s'.nodes) && Rooted(s'.nodes)
    ensures SameShape(s.nodes, s'.nodes)
  {
    var i := |s.nodes|;
    assert forall j :: 0 <= j < i ==> s'.nodes[j] == s.nodes[j];
    forall j | 0 < j < |s'.nodes| ensures Accepted(grid, end, primary, s'.nodes, j) {
      if j < i { assert Accepted(grid, end, primary, s.nodes, j); }
    }
    ArenaIsRooted(grid, start, end, primary, s'.nodes);
  }

  lemma RelaxChains(grid: Grid, start: Cell, end: Cell, hs: Heuristics, s: State, cur: nat, nb: Cell, s': State)
    requires Core(grid, start, end, hs, s) && Grows(grid, end, hs.primary, s, cur, nb, s')
    requires Rooted(s'.nodes) && SameShape(s.nodes, s'.nodes)
    ensures SimpleChains(s'.nodes)
  {
    var i := |s.nodes|;
    OffChain(grid, start, end, hs, s, cur, nb);
    assert DistinctCells(s.nodes, Chain(s.nodes, cur));
    forall j | 0 <= j < |s'.nodes| ensures DistinctCells(s'.nodes, Chain(s'.nodes, j)) {
      if j < i {
        ChainFrame(s.nodes, s'.nodes, j);
        assert DistinctCells(s.nodes, Chain(s.nodes, j));
        assert forall m :: 0 <= m < i ==> s'.nodes[m] == s.nodes[m];
      } else {
        NewChainDistinct(s.nodes, cur, s'.nodes);
      }
    }
  }

  lemma RelaxTable(grid: Grid, end: Cell, primary: Distance, s: State, cur: nat, nb: Cell, s': State)
    requires grid.Valid() && TableOk(s.nodes, s.table) && Grows(grid, end, primary, s, cur, nb, s')
    ensures TableOk(s'.nodes, s'.table)
  {
    var i := |s.nodes|;
    assert forall j :: 0 <= j < i ==> s'.nodes[j] == s.nodes[j];
    forall j | 0 <= j < |s'.nodes| ensures BestRecord(s'.nodes, s'.table, j) {
      if j < i {
        assert BestRecord(s.nodes, s.table, j);
      }
    }
  }

  /** Appending an open record and splicing it in at its left bisection point keeps the open list well formed. */
  lemma RelaxOpen(nodes: seq<Node>, open: seq<nat>, nodes': seq<Node>, pos: nat)
    requires OpenOk(nodes, open) && |nodes'| == |nodes| + 1 && nodes'[..|nodes|] == nodes && nodes'[|nodes|].open
    requires IsLeftBisect(nodes', open, KeyOf(nodes'[|nodes|]), pos)
    ensures OpenOk(nodes', InsertAt(open, pos, |nodes|))
  {
    var i := |nodes|;
    assert forall j :: 0 <= j < i ==> nodes'[j] == nodes[j];
    SortedFrame(nodes, nodes', open);
    InsertKeepsSorted(nodes', open, i, pos);
    assert i !in open;
    InsertMembers(open, pos, i);
  }

  /** Records only get cheaper, and cells keep their records. */
  ghost predicate RecordsNoDearer(s: State, s': State)
  {
    forall d :: d in s.table && s.table[d] < |s.nodes| ==>
      d in s'.table && s'.table[d] < |s'.nodes| && s'.nodes[s'.table[d]].g <= s.nodes[s.table[d]].g
  }

  lemma SettledStays(grid: Grid, s: State, s': State, g: nat, d: Cell)
    requires grid.Valid() && RecordsNoDearer(s, s') && Settled(grid, s.nodes, s.table, g, d)
    ensures Settled(grid, s'.nodes, s'.table, g, d)
  {
  }

  /** An accepted neighbour keeps every other record open, expanded, or being expanded. */
  lemma ClosureGrows(grid: Grid, end: Cell, primary: Distance, s: State, cur: nat, nb: Cell, s': State, pos: nat)
    requires grid.Valid() && Closure(grid, s, cur) && TableOk(s.nodes, s.table)
    requires Grows(grid, end, primary, s, cur, nb, s')
    requires pos <= |s.open| && s'.open == InsertAt(s.open, pos, |s.nodes|)
    ensures RecordsNoDearer(s, s') && Closure(grid, s', cur)
  {
    var i := |s.nodes|;
    assert forall j :: 0 <= j < i ==> s'.nodes[j] == s.nodes[j];
    assert RecordsNoDearer(s, s');
    InsertMembers(s.open, pos, i);
    forall c | c in s'.table
      ensures s'.table[c] == cur || s'.table[c] in s'.open || Expanded(grid, s'.nodes, s'.table, c)
    {
      if c != nb && s.table[c] != cur && s.table[c] !in s.open {
        assert Expanded(grid, s.nodes, s.table, c);
        forall m | 0 <= m < 4
          ensures Settled(grid, s'.nodes, s'.table, s'.nodes[s'.table[c]].g, Neighbours(c)[m])
        {
          SettledStays(grid, s, s', s.nodes[s.table[c]].g, Neighbours(c)[m]);
        }
      }
    }
  }

  lemma RelaxClosure(grid: Grid, start: Cell, end: Cell, hs: Heuristics, s: State, cur: nat, k: nat,
                     s': State, accepted: bool, pos: nat)
    requires Expanding(grid, start, end, hs, s, cur, k) && k < 4
    requires Relaxed(grid, end, hs, s, cur, Neighbours(s.nodes[cur].cell)[k], s', accepted, pos)
    requires accepted ==> Grows(grid, end, hs.primary, s, cur, Neighbours(s.nodes[cur].cell)[k], s')
    ensures Closure(grid, s', cur)
    ensures forall j :: 0 <= j <= k ==>
      Settled(grid, s'.nodes, s'.table, s'.nodes[cur].g, Neighbours(s'.nodes[cur].cell)[j])
  {
    var nb := Neighbours(s.nodes[cur].cell)[k];
    if accepted {
      ClosureGrows(grid, end, hs.primary, s, cur, nb, s', pos);
      forall j | 0 <= j <= k
        ensures Settled(grid, s'.nodes, s'.table, s'.nodes[cur].g, Neighbours(s'.nodes[cur].cell)[j])
      {
        if j < k {
          SettledStays(grid, s, s', s.nodes[cur].g, Neighbours(s.nodes[cur].cell)[j]);
        }
      }
    } else {
      assert Settled(grid, s.nodes, s.table, s.nodes[cur].g, nb);
    }
  }

  lemma RelaxPotential(grid: Grid, start: Cell, end: Cell, hs: Heuristics, s: State, cur: nat, nb: Cell, s': State)
    requires Core(grid, start, end, hs, s) && Grows(grid, end, hs.primary, s, cur, nb, s')
    ensures NoWorse(s, s', |grid.Universe(start)|)
    ensures Avail(grid, start, s') < Avail(grid, start, s)
  {
    var u := grid.Universe(start);
    var i := |s.nodes|;
    assert forall j :: 0 <= j < i ==> s'.nodes[j] == s.nodes[j];
    AcceptedBound(grid, start, end, hs, s, cur, nb);
    assert NoWorse(s, s', |u|);
    AvailStrict(grid, start, s, s', nb);
  }

  /** The appended record is open, and plain when there is no secondary heuristic; cur stays closed. */
  lemma RelaxFlags(end: Cell, plain: bool, s: State, cur: nat, s': State, pos: nat)
    requires PlainScores(plain, s.nodes) && EndOpen(end, s.nodes) && cur < |s.nodes| && cur !in s.open
    requires |s'.nodes| == |s.nodes| + 1 && s'.nodes[..|s.nodes|] == s.nodes && s'.nodes[|s.nodes|].open
    requires plain ==> s'.nodes[|s.nodes|].w == Inf
    requires pos <= |s.open| && s'.open == InsertAt(s.open, pos, |s.nodes|)
    ensures PlainScores(plain, s'.nodes) && EndOpen(end, s'.nodes)
    ensures cur < |s'.nodes| && cur !in s'.open && s'.nodes[cur] == s.nodes[cur]
  {
    var i := |s.nodes|;
    assert forall j :: 0 <= j < i ==> s'.nodes[j] == s.nodes[j];
    InsertMembers(s.open, pos, i);
  }

  /** One pass of the neighbour loop keeps the expansion invariant and never raises a potential. */
  lemma RelaxKeepsExpanding(grid: Grid, start: Cell, end: Cell, hs: Heuristics, s: State, cur: nat, k: nat,
                            s': State, accepted: bool, pos: nat)
    requires Expanding(grid, start, end, hs, s, cur, k) && k < 4
    requires Relaxed(grid, end, hs, s, cur, Neighbours(s.nodes[cur].cell)[k], s', accepted, pos)
    ensures Expanding(grid, start, end, hs, s', cur, k + 1) && s'.nodes[cur] == s.nodes[cur]
    ensures NoWorse(s, s', |grid.Universe(start)|)
    ensures accepted ==> Avail(grid, start, s') < Avail(grid, start, s)
  {
    var nb := Neighbours(s.nodes[cur].cell)[k];
    if accepted {
      RelaxGrows(grid, start, end, hs, s, cur, k, s', pos);
      RelaxArena(grid, start, end, hs.primary, s, cur, nb, s');
      RelaxChains(grid, start, end, hs, s, cur, nb, s');
      RelaxTable(grid, end, hs.primary, s, cur, nb, s');
      RelaxOpen(s.nodes, s.open, s'.nodes, pos);
      assert hs.secondary.None? ==> s'.nodes[|s.nodes|].w == Inf;
      RelaxFlags(end, hs.secondary.None?, s, cur, s', pos);
      assert Core(grid, start, end, hs, s');
      RelaxPotential(grid, start, end, hs, s, cur, nb, s');
    }
    RelaxClosure(grid, start, end, hs, s, cur, k, s', accepted, pos);
  }

  /** After all four neighbours, the expanded record is settled and the loop invariant is back. */
  lemma FinishExpansion(grid: Grid, start: Cell, end: Cell, hs: Heuristics, s: State, cur: nat)
    requires Expanding(grid, start, end, hs, s, cur, 4)
    ensures Inv(grid, start, end, hs, s)
  {
    forall c | c in s.table ensures s.table[c] in s.open || Expanded(grid, s.nodes, s.table, c) {
      if s.table[c] == cur {
        assert Expanded(grid, s.nodes, s.table, c);
      }
    }
  }
}
