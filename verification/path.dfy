/** Path reconstruction (the parent walk in `write_path_csv` in main.py):
    collect identifiers from a node up to the root, then reverse them. */
module Path {
  import opened Wrappers
  import opened Tree

  function Reverse<T>(s: seq<T>): (r: seq<T>)
    ensures |r| == |s|
    ensures forall i :: 0 <= i < |s| ==> r[i] == s[|s| - 1 - i]
  {
    if |s| == 0 then [] else Reverse(s[1..]) + [s[0]]
  }

  /** Identifiers met while following parent links from position `k`, the
      node's own first and the root's last. Parents come earlier in the
      arena, so the walk ends. */
  function WalkUp(t: Rrt, k: nat): (ids: seq<nat>)
    requires ParentsPrecede(t) && k < |t.nodes|
    ensures |ids| >= 1 && ids[0] == t.nodes[k].id
    ensures ids[|ids| - 1] == t.nodes[0].id
    decreases k
  {
    match t.nodes[k].parent
    case None => [t.nodes[k].id]
    case Some(p) => [t.nodes[k].id] + WalkUp(t, p)
  }

  /** The root-to-node path, as the identifiers the source writes out: it
      starts at the root's identifier and ends at the node's. */
  function TracePath(t: Rrt, k: nat): (path: seq<nat>)
    requires ParentsPrecede(t) && k < |t.nodes|
    ensures |path| >= 1
    ensures path[0] == t.nodes[0].id && path[|path| - 1] == t.nodes[k].id
  {
    Reverse(WalkUp(t, k))
  }

  /** Identifier `a` belongs to the parent of the node with identifier `b`. */
  predicate ParentLink(t: Rrt, a: nat, b: nat) {
    && 1 <= a <= |t.nodes|
    && 1 <= b <= |t.nodes|
    && t.nodes[b - 1].parent == Some(a - 1)
  }

  /** The upward walk runs from the node's identifier to the root's, each
      step following a parent link to a smaller identifier. */
  lemma {:induction false} WalkUpShape(t: Rrt, k: nat)
    requires Valid(t) && k < |t.nodes|
    ensures var ids := WalkUp(t, k);
      && ids[0] == k + 1
      && ids[|ids| - 1] == 1
      && (forall j :: 0 <= j < |ids| - 1 ==> ParentLink(t, ids[j + 1], ids[j]) && ids[j + 1] < ids[j])
    decreases k
  {
    var ids := WalkUp(t, k);
    if k > 0 {
      var p := t.nodes[k].parent.value;
      WalkUpShape(t, p);
      var rest := WalkUp(t, p);
      assert ids == [k + 1] + rest;
      forall j | 0 <= j < |ids| - 1
        ensures ParentLink(t, ids[j + 1], ids[j]) && ids[j + 1] < ids[j]
      {
        if j > 0 {
          assert ids[j] == rest[j - 1] && ids[j + 1] == rest[j];
        }
      }
    }
  }

  /** The reconstructed path starts at the root (identifier 1), ends at the
      given node, and each consecutive pair is a parent-to-child link, so
      identifiers strictly increase along it. */
  lemma TracePathShape(t: Rrt, k: nat)
    requires Valid(t) && k < |t.nodes|
    ensures var path := TracePath(t, k);
      && path[0] == 1
      && path[|path| - 1] == k + 1
      && (forall j :: 0 <= j < |path| - 1 ==> ParentLink(t, path[j], path[j + 1]) && path[j] < path[j + 1])
  {
    var ids := WalkUp(t, k);
    var path := TracePath(t, k);
    WalkUpShape(t, k);
    forall j | 0 <= j < |path| - 1
      ensures ParentLink(t, path[j], path[j + 1]) && path[j] < path[j + 1]
    {
      var m := |ids| - 2 - j;
      assert path[j] == ids[m + 1] && path[j + 1] == ids[m];
    }
  }

  /** Starting from the root, the path is the root alone. */
  lemma TracePathRoot(t: Rrt)
    requires Valid(t)
    ensures TracePath(t, 0) == [1]
  {
  }

  /** A chain root -> A -> B yields the identifiers of root, A and B in that order. */
  lemma TracePathChain(t: Rrt, a: nat, b: nat)
    requires Valid(t) && b < |t.nodes|
    requires t.nodes[b].parent == Some(a) && t.nodes[a].parent == Some(0)
    ensures TracePath(t, b) == [1, a + 1, b + 1]
  {
    assert WalkUp(t, 0) == [1];
    assert WalkUp(t, a) == [a + 1, 1];
    assert WalkUp(t, b) == [b + 1, a + 1, 1];
  }
}
