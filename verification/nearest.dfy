/** Nearest-node search (`get_closest_tree_node` in main.py): a linear scan
    over the tree's nodes in insertion order, keeping a node only when it is
    strictly closer than the best so far. */
module Nearest {
  import opened Wrappers
  import opened Geometry
  import opened Tree

  /** Position `k` is the first of the first `n` nodes at minimal distance from `q`:
      no node among them is closer, and every node before it is strictly farther. */
  predicate IsFirstClosest(nodes: seq<Node>, q: Point, n: nat, k: nat)
    requires n <= |nodes|
  {
    && k < n
    && (forall j :: 0 <= j < n ==> DistSq(nodes[k].pt, q) <= DistSq(nodes[j].pt, q))
    && (forall j :: 0 <= j < k ==> DistSq(nodes[k].pt, q) < DistSq(nodes[j].pt, q))
  }

  /** The scan after its first `n` iterations. The running minimum starts at
      infinity, so the first node is always taken. */
  function ScanPrefix(nodes: seq<Node>, q: Point, n: nat): (r: Option<nat>)
    requires n <= |nodes|
    ensures r.None? <==> n == 0
    ensures r.Some? ==> IsFirstClosest(nodes, q, n, r.value)
  {
    if n == 0 then None
    else
      match ScanPrefix(nodes, q, n - 1)
      case None => Some(n - 1)
      case Some(best) =>
        if DistSq(nodes[n - 1].pt, q) < DistSq(nodes[best].pt, q) then Some(n - 1) else Some(best)
  }

  /** The closest node of the tree to `q`, earliest-inserted on ties; `None`
      for a tree with no nodes. */
  function GetClosestTreeNode(t: Rrt, q: Point): (r: Option<nat>)
    ensures r.None? <==> |t.nodes| == 0
    ensures r.Some? ==> IsFirstClosest(t.nodes, q, |t.nodes|, r.value)
  {
    ScanPrefix(t.nodes, q, |t.nodes|)
  }

  /** The first-closest position is unique, so the scan returns exactly the
      positions that satisfy it. */
  lemma ClosestIsUnique(t: Rrt, q: Point, k: nat)
    ensures GetClosestTreeNode(t, q) == Some(k) <==> IsFirstClosest(t.nodes, q, |t.nodes|, k)
  {
  }

  /** A tree holding only its root answers every query with the root. */
  lemma RootOnlyTree(t: Rrt, q: Point)
    requires |t.nodes| == 1
    ensures GetClosestTreeNode(t, q) == Some(0)
  {
  }

  /** A node that is strictly closer than every other node is the answer. */
  lemma StrictlyClosestWins(t: Rrt, q: Point, k: nat)
    requires k < |t.nodes|
    requires forall j :: 0 <= j < |t.nodes| && j != k ==> DistSq(t.nodes[k].pt, q) < DistSq(t.nodes[j].pt, q)
    ensures GetClosestTreeNode(t, q) == Some(k)
  {
    ClosestIsUnique(t, q, k);
  }
}
