# path-follower: a verified model of the grid A* planner

path-follower is a browser demo. The user drags over an obstacle grid, and the
page recomputes and draws three A* paths from a start cell to an end cell. The
paths differ only in how they break ties between equally good cells. The
secondary "waypoint" heuristic steers a search towards the cells the pointer
passed on the way. This project models, in Dafny:

- `path_find` in `js/utils.js` (module `Search`, with `Invariants` and `Outcomes` for its proof). It is A* over a boolean wall grid with unit, four-way steps. It keeps a node table keyed by cell. A record is replaced only when the new cost is strictly smaller. The open list is sorted by `(f, w)`, and new entries go in at the left bisection point. A single working copy of the waypoint list is pruned from the front for each accepted neighbour. The result path is read back through parent links.
- The heuristics `manhattan_distance` and `square_distance`, the four-neighbour table, and `get_direction` (module `Geometry`).
- `trigger_pathfinding` in `js/main.js`, which runs the three named configurations (module `Orchestrator`).
- The pointer handlers that drive it: a left press moves the start cell, and with ctrl it also clears the waypoints; a ctrl-drag sample moves the end cell, may append a waypoint, and recomputes (module `Interaction`).

How the model is built:

- The node table is an arena. A `seq<Node>` holds every record ever created, and a parent link is an arena index. A `map<Cell, nat>` points each cell at its current record. The open list is a sequence of arena indices, so stale entries for replaced records stay in it, as they do in the source.
- `w = Infinity` is the extended natural `Inf`.
- Heuristics are function values `(Cell, Cell) -> nat`. A disabled secondary heuristic is `None`.
- The global `state` object is replaced by parameters: grid, start, end and waypoints.
- The main loop is a `while` loop over the open list whose invariant is `Invariants.Inv`. The neighbour loop is a `for` loop whose invariant is `Invariants.Expanding`.
- Termination rests on a measure. It is the set of (cell, cost) pairs that a later record could still take. Every accepted neighbour strictly shrinks that set; a rejected one leaves it alone, and the pop shortens the open list.

What the search promises (`Outcomes.Outcome`):

- The returned path is the parent chain of the end cell's record, listed end first and start last.
- It moves by unit steps over free cells, never repeats a cell, and has g + 1 cells.
- It is empty exactly when no walk leads from start to end.
- It is no longer than any walk when the primary heuristic never exceeds Manhattan distance. All three configurations use such a heuristic.
- It is the single start record when start equals end.

Where the code and its description differ, the model follows the code:

- `path_find` returns the path end first (js/utils.js:364-367). It does not reverse it.
- An out-of-range start column raises a JavaScript TypeError when the start record is stored (js/utils.js:331). This is modelled as `RangeError`.
- An out-of-range start row is not an error: JavaScript arrays are sparse, so the start cell simply joins the searchable cells.
- An out-of-range end cell is not an error either. It is unreachable unless it is the start cell itself, whose record the start row's sparse entry holds.

## Model

| member | source | states |
|---|---|---|
| Geometry.Manhattan | js/utils.js:312 | Manhattan distance is a natural number that is zero exactly when the two cells are equal |
| Geometry.SquareDistance | js/utils.js:314 | squared distance is a natural number that is zero exactly when the two cells are equal |
| Geometry.ManhattanSymmetric | js/utils.js:312 | Manhattan distance does not depend on argument order |
| Geometry.SquareDistanceSymmetric | js/utils.js:314 | squared distance does not depend on argument order |
| Geometry.ManhattanTriangle | js/utils.js:312 | Manhattan distance satisfies the triangle inequality (used to bound walks) |
| Geometry.Neighbours | js/utils.js:372-377 | the neighbour list has four entries, each one unit step away, and every unit step away appears in it |
| Geometry.NeighboursDistinct | js/utils.js:372-377 | the four neighbours are pairwise different cells |
| Geometry.GetDirection | js/utils.js:147-158 | the step (0,-1) maps to 0, (-1,0) to 1, (0,1) to 2 and (1,0) to 3, each in both directions; no step and diagonal steps map to null |
| Geometry.UnitStepHasDirection | js/utils.js:147-158 | every unit step lies inside the direction table and gets one of the four directions |
| Grids.UniverseMembers | js/utils.js:330-331 | the searchable cells are the in-bounds cells plus the start cell |
| Grids.ReachableSelf | js/utils.js:362 | every cell reaches itself by the one-cell walk |
| Grids.WalkBoundsManhattan | js/utils.js:372-383 | a walk of unit steps covers at most one unit of Manhattan distance per step |
| Nodes.KeyLessIsStrictTotalOrder | js/utils.js:352-355 | the (f, w) comparator is irreflexive, transitive and total on keys, with Infinity above every finite w |
| Nodes.Chain | js/utils.js:364-367 | the parent chain of a record starts at that record and visits only earlier arena entries |
| Nodes.ChainShape | js/utils.js:364-367 | a record's parent chain has g + 1 entries, loses one unit of g per link, follows parent links, and ends at the start record |
| Nodes.SelectChainStep | js/utils.js:364-367 | the chain read as nodes is the record followed by its parent's chain, or the record alone at the start |
| Nodes.ChainFrame | js/utils.js:359 | clearing open flags or appending records leaves every existing parent chain unchanged |
| Nodes.DistinctCellsBound | js/utils.js:364-367 | a chain without repeated cells, drawn from a finite set of cells, is no longer than that set |
| Nodes.NewChainDistinct | js/utils.js:417 | a record appended under a parent whose chain avoids the new cell has a chain without repeated cells |
| OpenList.Bisect | js/utils.js:418 | the binary search returns the left insertion point: every entry before it has a smaller key, and none after it does |
| OpenList.InsertAt | js/utils.js:419 | the splice puts the new index at the given position and shifts the later entries one place right |
| OpenList.InsertMembers | js/utils.js:419 | after the splice the open list holds exactly the old entries and the new index, and stays free of duplicates when the index was new |
| OpenList.InsertKeepsSorted | js/utils.js:418-419 | inserting at the left bisection point keeps the open list sorted by (f, w) |
| OpenList.TailSorted | js/utils.js:358 | removing the head keeps the open list sorted |
| OpenList.HeadIsMinimal | js/utils.js:358 | the head of a sorted open list has the smallest key, and in particular the smallest f |
| OpenList.SortedFrame | js/utils.js:359 | the order survives changes to records that leave their keys alone |
| Waypoints.Closest | js/utils.js:403-412 | the reduce yields index -1 and Infinity for an empty list; otherwise the first position with the minimum secondary distance and that minimum |
| Waypoints.SpliceFront | js/utils.js:415 | `splice(0, index)` keeps a suffix of the list: all of it for index -1 or 0, and the last length - index entries otherwise |
| Waypoints.ClosestThenSplice | js/utils.js:403-415 | cutting the list before the closest waypoint is one waypoint step: a prefix is removed and the score is the closest distance |
| Waypoints.Score | js/utils.js:399-416 | without a secondary heuristic w is Infinity and the list is kept; with one, w is the least distance to a waypoint and exactly the waypoints before the first closest one are cut |
| Invariants.Initial | js/utils.js:328-348 | the search starts with one open start record (g = h = f = w = 0, no parent) that is the only open-list entry, and a copy of the waypoints |
| Invariants.InitialInv | js/utils.js:328-348 | the initial state satisfies the main-loop invariant |
| Invariants.Pop | js/utils.js:358-359 | the shift removes the head of the open list and clears only that record's open flag |
| Invariants.PopKeepsCore | js/utils.js:358-359 | popping keeps the arena, table and open-list invariants and leaves every recorded cost alone |
| Invariants.PopStartsExpansion | js/utils.js:357-379 | a popped record of a cell other than the end starts an expansion with no neighbour done |
| Invariants.AcceptedBound | js/utils.js:380-393 | an accepted neighbour is a searchable cell, and its cost is below the number of searchable cells |
| Invariants.Rejected | js/utils.js:380-393 | a neighbour that is out of bounds, a wall, or no cheaper than its cell's record leaves the state alone |
| Invariants.Taken | js/utils.js:384-419 | an accepted neighbour's new record, table entry, open-list insertion and waypoint cut make up one accepted relaxation |
| Invariants.OffChain | js/utils.js:384-393 | a neighbour that improves on its record never lies on the current record's own parent chain |
| Invariants.RelaxGrows | js/utils.js:384-419 | an accepted relaxation appends exactly one record, which becomes its cell's table entry |
| Invariants.RelaxArena | js/utils.js:384-417 | the appended record keeps every record a valid one-step extension of its parent, and changes no old record |
| Invariants.RelaxChains | js/utils.js:417 | no parent chain repeats a cell after a record is appended |
| Invariants.RelaxTable | js/utils.js:393 | the table still points every recorded cell at its cheapest record |
| Invariants.RelaxOpen | js/utils.js:418-419 | the open list stays sorted over open records, without duplicates, after the new index goes in at the bisection point |
| Invariants.SettledStays | js/utils.js:393 | a cell settled at some cost stays settled when no record gets dearer |
| Invariants.ClosureGrows | js/utils.js:393-419 | appending a cheaper record keeps the closure around the expanded records |
| Invariants.RelaxClosure | js/utils.js:379-419 | one pass of the neighbour loop keeps the closure and settles the neighbour it handled |
| Invariants.RelaxPotential | js/utils.js:393 | an accepted neighbour makes no record dearer and strictly shrinks the termination measure |
| Invariants.RelaxFlags | js/utils.js:388-417 | the new record is open, has w = Infinity when there is no secondary heuristic, and the expanded record stays closed |
| Invariants.RelaxKeepsExpanding | js/utils.js:379-420 | one pass of the neighbour loop keeps the expansion invariant and settles one more neighbour; it records no cell at a higher cost, and an accepted neighbour strictly shrinks the termination measure |
| Invariants.FinishExpansion | js/utils.js:379-421 | after all four neighbours the main-loop invariant holds again |
| Invariants.CostBound | js/utils.js:384-393 | every record's g is smaller than the number of searchable cells |
| Invariants.StartRecordStays | js/utils.js:331-340 | the start cell's record is always the start record: nothing cheaper than 0 can replace it |
| Invariants.AvailStrict | js/utils.js:393 | lowering one searchable cell's recorded cost strictly shrinks the termination measure |
| Invariants.AvailMonotone | js/utils.js:393 | when no recorded cost rises the termination measure does not grow |
| Invariants.ArenaIsRooted | js/utils.js:328-340 | a well-formed arena begins with the start record and links every other record to an earlier parent |
| Invariants.NodeInUniverse | js/utils.js:380-383 | every record is for a searchable cell |
| Outcomes.ReversedWalkIsWalk | js/utils.js:362-367 | a reversed path, read start first, is a walk of the grid from start to end |
| Outcomes.ChainIsReversedWalk | js/utils.js:364-393 | every parent chain is a walk from its record back to the start: unit steps over free cells, one unit of g each, no repeated cell |
| Outcomes.WalkMeetsOpen | js/utils.js:357-421 | along any walk to the end, some cell has an open record no dearer than its position on the walk |
| Outcomes.ReachableKeepsOpen | js/utils.js:357 | while the end cell is reachable the open list is not empty, so the search never gives up early |
| Outcomes.PoppedEndIsRecord | js/utils.js:362 | a popped record of the end cell is that cell's current record, never a stale one |
| Outcomes.PoppedEndIsShortest | js/utils.js:362-398 | with an admissible primary heuristic, the popped end record costs no more than any walk |
| Outcomes.FoundOutcome | js/utils.js:362-423 | popping the end record and backtracking gives a result meeting the whole search contract |
| Outcomes.ExhaustedOutcome | js/utils.js:357-423 | an empty open list gives the empty path, and the end is then unreachable |
| Outcomes.ShortestLengthsAgree | js/utils.js:396-419 | two searches with admissible primary heuristics return paths of the same length, whatever their tie-breaks |
| Outcomes.CoreTableFacts | js/utils.js:328-417 | the invariant gives the result's arena, table, cost and score facts |
| Search.Relax | js/utils.js:379-419 | a neighbour is taken exactly when it is in bounds, not a wall, and cheaper than its cell's record. It then gets g = current.g + 1, h = primary(end, nb), f = g + h, w from the waypoints, and the current record as parent. It becomes its cell's record, the waypoint prefix is cut, and it goes in at its left bisection point. A skipped neighbour changes nothing |
| Search.Install | js/utils.js:417-419 | the new record is appended, becomes its cell's entry, and its index goes in at the left bisection point of the open list |
| Search.Backtrack | js/utils.js:364-367 | the backtracking loop collects exactly the parent chain of the record it starts from |
| Search.PathFind | js/utils.js:316-424 | fails exactly when the start column is outside the grid. Otherwise it terminates with a path that is the end record's parent chain, a simple walk listed end first, empty exactly when the end is unreachable, shortest for an admissible primary heuristic, and the single start record when start equals end. With the secondary heuristic disabled, every non-start record has w = Infinity |
| Orchestrator.Configure | js/utils.js:319-323 | a missing override keeps its default (Manhattan primary, squared-distance secondary); a given override, including null, wins |
| Orchestrator.ConfigurationsSpread | js/main.js:19-29 | the three configurations are the defaults spread with no override, with Manhattan waypoints, and with waypoints disabled |
| Orchestrator.ManhattanAdmissible | js/utils.js:312 | the Manhattan primary heuristic of all three configurations is admissible (never above Manhattan distance), so each search returns a shortest path |
| Orchestrator.Solve | js/main.js:21-27 | one search fails exactly when the start column is outside the grid, and otherwise carries its name and the search contract |
| Orchestrator.TriggerPathfinding | js/main.js:19-29 | three results in fixed order named "default", "primary: default, waypoints: manhattan" and "primary: default, waypoints: disabled". Each meets the search contract for Manhattan primary with squared-distance, Manhattan or no secondary. The third has w = Infinity on every non-start record |
| Orchestrator.RunsAgreeOnLength | js/main.js:19-29 | the three configurations return paths of the same length, so waypoints never change the path cost |
| Interaction.Sample | js/main.js:79-83 | the end cell is appended as a waypoint exactly when the list is empty or it is more than two Manhattan steps from the last waypoint, and otherwise the list is unchanged |
| Interaction.SampleKeepsSpread | js/main.js:79-83 | sampling keeps consecutive waypoints more than two steps apart and leaves the list non-empty |
| Interaction.PathFinding.constructor | js/main.js:110-112 | on load the start is the bottom-right cell, the end is the bottom-left cell, and the three runs are computed |
| Interaction.PathFinding.PointerDown | js/main.js:57-60 | a left press moves the start to the pressed cell; with ctrl it also empties the waypoint list; the end and the runs stay |
| Interaction.PathFinding.CtrlDrag | js/main.js:72-86 | a sample on the current end cell changes nothing. Otherwise the sampled cell becomes the end, the waypoint rule runs, and the runs are recomputed for the new end. If the start column is outside the grid the searches fail and the old runs stay |
| Scenarios.StraightWalkIsWalk | js/utils.js:372-383 | on a grid without walls, closing the column gap and then the row gap is a walk between any two in-bounds cells |
| Scenarios.StepToward | js/utils.js:372-377 | a step towards the target is a unit step that lowers Manhattan distance by one and stays between the two cells |
| Scenarios.OpenGridPathLength | js/utils.js:316-424 | on a grid without walls, between in-bounds cells, the path has exactly Manhattan distance + 1 cells |

## Left out

- Drawing and display: the canvas drawing functions, the path legend and colours, the camera transforms `world_to_camera`, `camera_to_world` and `camera_to_grid`, zooming and `resize`. These are floating-point rendering over the DOM. Pointer positions enter the model as grid cells.
- `fill_cells`: it depends on a simplex-noise library and on `Math.random`. The grid is a parameter.
- `euclidean_distance`: it uses `Math.sqrt`, which is floating point, and no configuration uses it.
- The d3 library: its left bisector is modelled directly by `OpenList.Bisect`.
- Event registration, `requestAnimationFrame`, the context-menu handler, right-button wall painting and the presentation fields of `state`.
- The wiring of the waypoint list. The handlers write `state.path_finding.waypoints`, but `path_find` reads `state.path_finding.way_points`, which is never filled. In the model the handlers' list is passed to the searches. The list starts empty rather than undefined.
- JavaScript numbers are doubles. Coordinates and costs are unbounded integers here, which is exact for any grid a page can hold.
- Geometry.GetDirection: requires both offsets to be in -1..1. The source indexes its 3×3 table outside that range; it then throws or returns `undefined`, and no caller does that.
- Interaction.PathFinding.constructor: requires a non-empty grid. The source's grid is a fixed 128 by 128.
- Interaction.PathFinding.CtrlDrag: when the start column is outside the grid, the source throws out of the handler. The model instead keeps the end and waypoint updates and leaves the runs as they were, which is the state the source is left in.
- Orchestrator.TriggerPathfinding: the three runs share nothing but the immutable grid, and each is a call of `Search.PathFind`, so each run is by construction a standalone search. The contract states this through each run's own search contract, not as an equality with a separate call, because `Search.PathFind` is a method.
- Search.PathFind: the contract does not pin down which shortest path is chosen among equal-cost ones. That choice depends on the waypoint tie-break and on the order of stale open-list entries. The tie-break itself is stated step by step by `Search.Relax`.
