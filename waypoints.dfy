/**
 * The waypoint tie-break: the score `w` of a neighbour is its least secondary
 * distance to a remaining waypoint, and every waypoint before the first closest
 * one is cut from the run's working list (js/utils.js:399-416).
 */
module Waypoints {
  import opened Geometry
  import opened Nodes
  import opened Wrappers

  /**
   * (w, index) is what the `reduce` at js/utils.js:403-412 computes: for an empty
   * list (-1, Infinity); otherwise the first position attaining the least distance
   * from a waypoint to the cell, and that distance.
   */
  ghost predicate IsClosest(wps: seq<Cell>, c: Cell, d: Distance, w: ExtNat, index: int)
  {
    if wps == [] then index == -1 && w == Inf
    else
      0 <= index < |wps| && w == Fin(d(wps[index], c)) &&
      (forall j :: 0 <= j < |wps| ==> d(wps[index], c) <= d(wps[j], c)) &&
      (forall j :: 0 <= j < index ==> d(wps[index], c) < d(wps[j], c))
  }

  /** The `reduce` over the waypoints, keeping the first strict improvement. */
  method Closest(wps: seq<Cell>, c: Cell, d: Distance) returns (w: ExtNat, index: int)
    ensures IsClosest(wps, c, d, w, index)
  {
    w, index := Inf, -1;
    for i := 0 to |wps|
      invariant i == 0 ==> index == -1 && w == Inf
      invariant i > 0 ==> 0 <= index < i && w == Fin(d(wps[index], c))
      invariant forall j :: 0 <= j < i ==> d(wps[index], c) <= d(wps[j], c)
      invariant forall j :: 0 <= j < index ==> d(wps[index], c) < d(wps[j], c)
    {
      var distance := d(wps[i], c);
      if ExtLess(Fin(distance), w) {
        w, index := Fin(distance), i;
      }
    }
  }

  /** `wps.splice(0, count)`: a non-positive count removes nothing, a large one removes all. */
  function SpliceFront(wps: seq<Cell>, count: int): (r: seq<Cell>)
    ensures |r| <= |wps| && r == wps[|wps| - |r|..]
    ensures count <= 0 ==> r == wps
    ensures 0 <= count <= |wps| ==> |r| == |wps| - count
  {
    if count <= 0 then wps else if count >= |wps| then [] else wps[count..]
  }

  /**
   * What one accepted neighbour does to the working list and what score it gets:
   * with no secondary heuristic w is Infinity and the list is kept; otherwise
   * w and the cut come from the closest waypoint, and only a prefix is removed.
   */
  ghost predicate WaypointStep(secondary: Option<Distance>, wps: seq<Cell>, c: Cell, w: ExtNat, wps': seq<Cell>)
  {
    match secondary
    case None => w == Inf && wps' == wps
    case Some(d) =>
      var index := if wps == [] then -1 else |wps| - |wps'|;
      |wps'| <= |wps| && IsClosest(wps, c, d, w, index) && wps' == SpliceFront(wps, index)
  }

  /** Cutting the list before the closest waypoint is one waypoint step. */
  lemma ClosestThenSplice(wps: seq<Cell>, c: Cell, d: Distance, w: ExtNat, index: int)
    requires IsClosest(wps, c, d, w, index)
    ensures WaypointStep(Some(d), wps, c, w, SpliceFront(wps, index))
  {
    if wps != [] {
      assert |SpliceFront(wps, index)| == |wps| - index;
    }
  }

  /**
   * The waypoint block of the neighbour loop (js/utils.js:399-416): without a
   * secondary heuristic w stays Infinity; with one, w is the closest waypoint's
   * distance and the waypoints before it are cut from the working list.
   */
  method Score(secondary: Option<Distance>, wps: seq<Cell>, c: Cell) returns (w: ExtNat, wps': seq<Cell>)
    ensures WaypointStep(secondary, wps, c, w, wps')
  {
    w, wps' := Inf, wps;
    if secondary.Some? {
      var index;
      w, index := Closest(wps, c, secondary.value);
      ClosestThenSplice(wps, c, secondary.value, w, index);
      wps' := SpliceFront(wps, index);
    }
  }
}
