/**
 * The records of the node table, held in an arena: a sequence of nodes
 * addressed by index, where `parent` is the index of the predecessor
 * (js/utils.js:328-340, 417). Old records stay in the arena after their cell's
 * entry is overwritten, as stale open-list entries keep them alive in the source.
 */
module Nodes {
  import opened Wrappers
  import opened Geometry

  /** A natural number or Infinity, the range of the tie-break score `w`. */
  datatype ExtNat = Fin(n: nat) | Inf

  /** JavaScript's `<` on a number that may be Infinity. */
  predicate ExtLess(a: ExtNat, b: ExtNat)
  {
    match a
    case Inf => false
    case Fin(m) => b.Inf? || m < b.n
  }

  /** One search record `{ x, y, g, f, h, w, parent, open }`. */
  datatype Node = Node(cell: Cell, g: nat, f: nat, h: nat, w: ExtNat, parent: Option<nat>, open: bool)

  /** The composite key the open list is ordered by. */
  datatype Key = Key(f: nat, w: ExtNat)

  function KeyOf(n: Node): Key
  {
    Key(n.f, n.w)
  }

  /** The bisector's comparator is negative: f decides, and w breaks ties (js/utils.js:352-355). */
  predicate KeyLess(a: Key, b: Key)
  {
    a.f < b.f || (a.f == b.f && ExtLess(a.w, b.w))
  }

  /** The comparator is a strict total order on keys. */
  lemma KeyLessIsStrictTotalOrder(a: Key, b: Key, c: Key)
    ensures !KeyLess(a, a)
    ensures KeyLess(a, b) && KeyLess(b, c) ==> KeyLess(a, c)
    ensures a == b || KeyLess(a, b) || KeyLess(b, a)
    ensures a.f == b.f && a.w.Fin? && b.w.Inf? ==> KeyLess(a, b) && !KeyLess(b, a)
  {
  }

  /** Every node but the first has an earlier parent one step cheaper; the first is the root. */
  ghost predicate Rooted(nodes: seq<Node>)
  {
    |nodes| > 0 && nodes[0].parent == None && nodes[0].g == 0 &&
    forall i :: 0 < i < |nodes| ==> HasParent(nodes, i)
  }

  ghost predicate HasParent(nodes: seq<Node>, i: nat)
    requires 0 < i < |nodes|
  {
    nodes[i].parent.Some? && nodes[i].parent.value < i &&
    nodes[i].g == nodes[nodes[i].parent.value].g + 1
  }

  /** The arena indices met by following `parent` links from node i (js/utils.js:364-367). */
  ghost function Chain(nodes: seq<Node>, i: nat): (ch: seq<nat>)
    requires Rooted(nodes) && i < |nodes|
    ensures |ch| > 0 && ch[0] == i
    ensures forall k :: 0 <= k < |ch| ==> ch[k] <= i
    decreases i
  {
    match nodes[i].parent
    case None => [i]
    case Some(p) =>
      assert i != 0 && HasParent(nodes, i);
      [i] + Chain(nodes, p)
  }

  /** The nodes at the given arena indices. */
  ghost function Select(nodes: seq<Node>, ch: seq<nat>): (r: seq<Node>)
    requires forall k :: 0 <= k < |ch| ==> ch[k] < |nodes|
    ensures |r| == |ch| && forall k :: 0 <= k < |ch| ==> r[k] == nodes[ch[k]]
  {
    seq(|ch|, k requires 0 <= k < |ch| => nodes[ch[k]])
  }

  /** A chain read as nodes is its first node followed by the chain of that node's parent. */
  lemma SelectChainStep(nodes: seq<Node>, i: nat)
    requires Rooted(nodes) && i < |nodes|
    ensures nodes[i].parent.None? ==> Select(nodes, Chain(nodes, i)) == [nodes[i]]
    ensures nodes[i].parent.Some? ==>
      nodes[i].parent.value < i &&
      Select(nodes, Chain(nodes, i)) == [nodes[i]] + Select(nodes, Chain(nodes, nodes[i].parent.value))
  {
    assert i > 0 ==> HasParent(nodes, i);
    if nodes[i].parent.Some? {
      var p := nodes[i].parent.value;
      assert Chain(nodes, i) == [i] + Chain(nodes, p);
    }
  }

  /** Consecutive chain entries are linked by `parent`. */
  ghost predicate LinkAt(nodes: seq<Node>, ch: seq<nat>, k: nat)
    requires k + 1 < |ch| && ch[k] < |nodes|
  {
    nodes[ch[k]].parent == Some(ch[k + 1])
  }

  /** A chain has g + 1 entries, loses one unit of g per link, and ends at the root. */
  lemma {:induction false} ChainShape(nodes: seq<Node>, i: nat)
    requires Rooted(nodes) && i < |nodes|
    ensures var ch := Chain(nodes, i);
      |ch| == nodes[i].g + 1 && ch[|ch| - 1] == 0 &&
      (forall k :: 0 <= k < |ch| ==> nodes[ch[k]].g + k == nodes[i].g) &&
      (forall k :: 0 <= k < |ch| - 1 ==> LinkAt(nodes, ch, k))
    decreases i
  {
    var ch := Chain(nodes, i);
    match nodes[i].parent
    case None =>
      assert i > 0 ==> HasParent(nodes, i);
    case Some(p) =>
      assert HasParent(nodes, i);
      ChainShape(nodes, p);
      var rest := Chain(nodes, p);
      assert ch == [i] + rest;
      forall k | 0 <= k < |ch| - 1 ensures LinkAt(nodes, ch, k) {
        if k > 0 { assert LinkAt(nodes, rest, k - 1); }
      }
  }

  /** No cell occurs twice among the nodes of `ch`. */
  ghost predicate DistinctCells(nodes: seq<Node>, ch: seq<nat>)
  {
    forall a, b :: 0 <= a < b < |ch| && ch[a] < |nodes| && ch[b] < |nodes| ==>
      nodes[ch[a]].cell != nodes[ch[b]].cell
  }

  /** A node with every field but `open` kept. */
  function Shape(n: Node): Node
  {
    n.(open := false)
  }

  /** `after` extends `before` and changes at most the `open` flags of its nodes. */
  ghost predicate SameShape(before: seq<Node>, after: seq<Node>)
  {
    |before| <= |after| && forall i :: 0 <= i < |before| ==> Shape(after[i]) == Shape(before[i])
  }

  /** Chains only depend on the parent links, so they survive appends and flag changes. */
  lemma {:induction false} ChainFrame(before: seq<Node>, after: seq<Node>, i: nat)
    requires Rooted(before) && Rooted(after) && SameShape(before, after) && i < |before|
    ensures Chain(after, i) == Chain(before, i)
    decreases i
  {
    assert Shape(after[i]) == Shape(before[i]);
    match before[i].parent
    case None =>
    case Some(p) =>
      assert HasParent(before, i);
      ChainFrame(before, after, p);
  }

  /** A chain of distinct cells drawn from a finite set is no longer than the set. */
  lemma {:induction false} DistinctCellsBound(nodes: seq<Node>, ch: seq<nat>, u: set<Cell>)
    requires forall k :: 0 <= k < |ch| ==> ch[k] < |nodes| && nodes[ch[k]].cell in u
    requires DistinctCells(nodes, ch)
    ensures |ch| <= |u|
  {
    if ch != [] {
      var c := nodes[ch[0]].cell;
      var rest := ch[1..];
      forall k | 0 <= k < |rest| ensures rest[k] < |nodes| && nodes[rest[k]].cell in u - {c} {
        assert rest[k] == ch[k + 1];
      }
      assert DistinctCells(nodes, rest) by {
        forall a, b | 0 <= a < b < |rest| && rest[a] < |nodes| && rest[b] < |nodes|
          ensures nodes[rest[a]].cell != nodes[rest[b]].cell
        {
          assert rest[a] == ch[a + 1] && rest[b] == ch[b + 1];
        }
      }
      DistinctCellsBound(nodes, rest, u - {c});
    }
  }

  /** A record appended under a parent whose chain avoids the record's cell has a chain without repeated cells. */
  lemma NewChainDistinct(nodes: seq<Node>, cur: nat, nodes': seq<Node>)
    requires Rooted(nodes) && cur < |nodes| && DistinctCells(nodes, Chain(nodes, cur))
    requires Rooted(nodes') && SameShape(nodes, nodes') && |nodes'| == |nodes| + 1
    requires nodes'[|nodes|].parent == Some(cur)
    requires forall k :: 0 <= k < |Chain(nodes, cur)| ==> nodes[Chain(nodes, cur)[k]].cell != nodes'[|nodes|].cell
    ensures DistinctCells(nodes', Chain(nodes', |nodes|))
  {
    var i := |nodes|;
    ChainFrame(nodes, nodes', cur);
    var rest := Chain(nodes, cur);
    var ch := Chain(nodes', i);
    assert ch == [i] + rest;
    forall m | 0 <= m < |rest| ensures rest[m] < i && nodes'[rest[m]].cell == nodes[rest[m]].cell {
      assert Shape(nodes'[rest[m]]) == Shape(nodes[rest[m]]);
    }
    forall a, b | 0 <= a < b < |ch| && ch[a] < |nodes'| && ch[b] < |nodes'|
      ensures nodes'[ch[a]].cell != nodes'[ch[b]].cell
    {
      if a == 0 {
        assert ch[b] == rest[b - 1];
      } else {
        assert ch[a] == rest[a - 1] && ch[b] == rest[b - 1];
      }
    }
  }
}
