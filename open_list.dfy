/**
 * The open list: arena indices kept in ascending (f, w) order, with the d3
 * left bisector picking each insertion point (js/utils.js:342-355, 418-419).
 */
module OpenList {
  import opened Nodes

  /** Every entry addresses a node of the arena. */
  ghost predicate Within(nodes: seq<Node>, open: seq<nat>)
  {
    forall k :: 0 <= k < |open| ==> open[k] < |nodes|
  }

  function KeyAt(nodes: seq<Node>, open: seq<nat>, k: nat): Key
    requires Within(nodes, open) && k < |open|
  {
    KeyOf(nodes[open[k]])
  }

  /** No entry has a key below an earlier entry's. */
  ghost predicate Sorted(nodes: seq<Node>, open: seq<nat>)
  {
    Within(nodes, open) &&
    forall i, j :: 0 <= i < j < |open| ==> !KeyLess(KeyAt(nodes, open, j), KeyAt(nodes, open, i))
  }

  /** k is the left insertion point of x: every key before it is below x, none from it on is. */
  ghost predicate IsLeftBisect(nodes: seq<Node>, open: seq<nat>, x: Key, k: int)
  {
    Within(nodes, open) && 0 <= k <= |open| &&
    (forall j :: 0 <= j < k ==> KeyLess(KeyAt(nodes, open, j), x)) &&
    (forall j :: k <= j < |open| ==> !KeyLess(KeyAt(nodes, open, j), x))
  }

  /** `d3.bisector(comparator).left(open, x)`: binary search for the left insertion point. */
  method Bisect(nodes: seq<Node>, open: seq<nat>, x: Key) returns (k: nat)
    requires Sorted(nodes, open)
    ensures IsLeftBisect(nodes, open, x, k)
  {
    var lo, hi := 0, |open|;
    while lo < hi
      invariant 0 <= lo <= hi <= |open|
      invariant forall j :: 0 <= j < lo ==> KeyLess(KeyAt(nodes, open, j), x)
      invariant forall j :: hi <= j < |open| ==> !KeyLess(KeyAt(nodes, open, j), x)
    {
      var mid := (lo + hi) / 2;
      if KeyLess(KeyAt(nodes, open, mid), x) {
        forall j | 0 <= j <= mid ensures KeyLess(KeyAt(nodes, open, j), x) {
          if j < mid {
            KeyLessIsStrictTotalOrder(KeyAt(nodes, open, j), KeyAt(nodes, open, mid), x);
          }
        }
        lo := mid + 1;
      } else {
        forall j | mid <= j < |open| ensures !KeyLess(KeyAt(nodes, open, j), x) {
          if mid < j {
            KeyLessIsStrictTotalOrder(KeyAt(nodes, open, mid), KeyAt(nodes, open, j), x);
            KeyLessIsStrictTotalOrder(x, KeyAt(nodes, open, mid), KeyAt(nodes, open, j));
          }
        }
        hi := mid;
      }
    }
    k := lo;
  }

  /** `open.splice(k, 0, x)`. */
  function InsertAt(open: seq<nat>, k: nat, x: nat): (r: seq<nat>)
    requires k <= |open|
    ensures |r| == |open| + 1 && r[k] == x
    ensures forall j :: 0 <= j < k ==> r[j] == open[j]
    ensures forall j :: k < j < |r| ==> r[j] == open[j - 1]
  {
    open[..k] + [x] + open[k..]
  }

  /** The splice adds exactly the inserted entry, and keeps the entries pairwise distinct when it was new. */
  lemma InsertMembers(open: seq<nat>, k: nat, x: nat)
    requires k <= |open|
    ensures forall j :: j in InsertAt(open, k, x) <==> j == x || j in open
    ensures (forall a, b :: 0 <= a < b < |open| ==> open[a] != open[b]) && x !in open ==>
      forall a, b :: 0 <= a < b < |open| + 1 ==> InsertAt(open, k, x)[a] != InsertAt(open, k, x)[b]
  {
    var r := InsertAt(open, k, x);
    assert r == open[..k] + [x] + open[k..];
    assert open == open[..k] + open[k..];
  }

  /** Inserting at the left insertion point keeps the list sorted. */
  lemma InsertKeepsSorted(nodes: seq<Node>, open: seq<nat>, x: nat, k: nat)
    requires Sorted(nodes, open) && x < |nodes|
    requires IsLeftBisect(nodes, open, KeyOf(nodes[x]), k)
    ensures Sorted(nodes, InsertAt(open, k, x))
  {
    var r := InsertAt(open, k, x);
    assert Within(nodes, r);
    forall i, j | 0 <= i < j < |r| ensures !KeyLess(KeyAt(nodes, r, j), KeyAt(nodes, r, i)) {
      var ki, kj, kx := KeyAt(nodes, r, i), KeyAt(nodes, r, j), KeyOf(nodes[x]);
      if i < k {
        assert ki == KeyAt(nodes, open, i) && KeyLess(ki, kx);
        if j == k {
          KeyLessIsStrictTotalOrder(ki, kj, ki);
        } else if j < k {
          assert kj == KeyAt(nodes, open, j);
        } else {
          assert kj == KeyAt(nodes, open, j - 1) && !KeyLess(kj, kx);
          KeyLessIsStrictTotalOrder(kj, ki, kx);
        }
      } else if i == k {
        assert kj == KeyAt(nodes, open, j - 1);
      } else {
        assert kj == KeyAt(nodes, open, j - 1) && ki == KeyAt(nodes, open, i - 1);
      }
    }
  }

  /** Dropping the head keeps the list sorted. */
  lemma TailSorted(nodes: seq<Node>, open: seq<nat>)
    requires Sorted(nodes, open) && |open| > 0
    ensures Sorted(nodes, open[1..])
  {
    forall i, j | 0 <= i < j < |open| - 1
      ensures !KeyLess(KeyAt(nodes, open[1..], j), KeyAt(nodes, open[1..], i))
    {
      assert KeyAt(nodes, open[1..], j) == KeyAt(nodes, open, j + 1);
      assert KeyAt(nodes, open[1..], i) == KeyAt(nodes, open, i + 1);
    }
  }

  /** The head has the least key; in particular no entry has a smaller f. */
  lemma HeadIsMinimal(nodes: seq<Node>, open: seq<nat>, j: nat)
    requires Sorted(nodes, open) && j < |open|
    ensures !KeyLess(KeyAt(nodes, open, j), KeyAt(nodes, open, 0))
    ensures nodes[open[0]].f <= nodes[open[j]].f
  {
    if j > 0 {
      assert !KeyLess(KeyAt(nodes, open, j), KeyAt(nodes, open, 0));
    }
  }

  /** Sortedness only depends on the keys of the listed nodes. */
  lemma SortedFrame(before: seq<Node>, after: seq<Node>, open: seq<nat>)
    requires Sorted(before, open) && |before| <= |after|
    requires forall i :: 0 <= i < |before| ==> KeyOf(after[i]) == KeyOf(before[i])
    ensures Sorted(after, open)
  {
    assert Within(after, open);
    forall i, j | 0 <= i < j < |open| ensures !KeyLess(KeyAt(after, open, j), KeyAt(after, open, i)) {
      assert KeyAt(after, open, j) == KeyAt(before, open, j);
      assert KeyAt(after, open, i) == KeyAt(before, open, i);
    }
  }
}
