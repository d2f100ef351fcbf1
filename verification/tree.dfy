/** The search tree (`Node`, `Edge` and `RRT` in main.py) as an arena: the
    tree owns a sequence of nodes, and a node refers to its parent and its
    children by their position in that sequence. */
module Tree {
  import opened Wrappers
  import opened Geometry

  /** One tree vertex. `parent` and `children` are positions in the arena;
      `id` is the identifier the tree assigns when the node is added. */
  datatype Node = Node(id: nat, pt: Point, parent: Option<nat>, children: seq<nat>)

  /** A reported parent-to-child relation. The source never sets a cost other than 0. */
  datatype Edge = Edge(parentId: nat, childId: nat, cost: int)

  /** `nodeCount` is the identifier the next added node will receive. */
  datatype Rrt = Rrt(nodeCount: nat, nodes: seq<Node>, edges: seq<Edge>)

  /** A freshly created tree: no nodes, no edges, next identifier 1. */
  const EmptyRrt := Rrt(1, [], [])

  /** A fresh, unattached node at `pt` (identifier 0 until it is added). */
  function NewNode(pt: Point): Node {
    Node(0, pt, None, [])
  }

  /** Identifiers are 1, 2, 3, ... in arena order and `nodeCount` is the next one. */
  predicate IdsInOrder(t: Rrt) {
    && t.nodeCount == |t.nodes| + 1
    && forall i :: 0 <= i < |t.nodes| ==> t.nodes[i].id == i + 1
  }

  /** `add_node`: stamp the node with the next identifier, append it, and
      return that identifier. */
  function AddNode(t: Rrt, n: Node): (r: (Rrt, nat))
    ensures r.1 == t.nodeCount
    ensures r.0.nodeCount == t.nodeCount + 1
    ensures r.0.nodes == t.nodes + [n.(id := r.1)]
    ensures r.0.edges == t.edges
    ensures IdsInOrder(t) ==> IdsInOrder(r.0) && r.1 == |t.nodes| + 1
  {
    (Rrt(t.nodeCount + 1, t.nodes + [n.(id := t.nodeCount)], t.edges), t.nodeCount)
  }

  /** Every node except the newest already has its edge: the state between
      `add_node` and `add_edge` in the planner's insertion step. */
  predicate EdgePending(t: Rrt)
    requires ParentsPrecede(t)
  {
    && |t.nodes| >= 2
    && |t.edges| == |t.nodes| - 2
    && forall k :: 0 <= k < |t.edges| ==> t.edges[k] == Edge(t.nodes[k + 1].parent.value + 1, k + 2, 0)
  }

  /** `add_edge`: append the edge. When only the newest node lacks its edge,
      the tree's edges are complete again exactly when the appended edge runs
      from that node's parent's identifier to its own, with cost 0. */
  function AddEdge(t: Rrt, e: Edge): (r: Rrt)
    ensures r.nodeCount == t.nodeCount && r.nodes == t.nodes
    ensures r.edges == t.edges + [e]
    ensures ParentsPrecede(t) && EdgePending(t) ==>
              (EdgesMatch(r) <==> e == Edge(t.nodes[|t.nodes| - 1].parent.value + 1, |t.nodes|, 0))
  {
    AppendEdgeCompletes(t, e);
    t.(edges := t.edges + [e])
  }

  lemma AppendEdgeCompletes(t: Rrt, e: Edge)
    ensures var r := t.(edges := t.edges + [e]);
      ParentsPrecede(t) && EdgePending(t) ==>
        (EdgesMatch(r) <==> e == Edge(t.nodes[|t.nodes| - 1].parent.value + 1, |t.nodes|, 0))
  {
    var r := t.(edges := t.edges + [e]);
    assert forall k :: 0 <= k < |t.edges| ==> r.edges[k] == t.edges[k];
    assert r.edges[|t.edges|] == e;
  }

  /** Adding nodes one after another, as a sequence of `add_node` calls. */
  function AddNodes(t: Rrt, ns: seq<Node>): Rrt
    decreases |ns|
  {
    if |ns| == 0 then t else AddNodes(AddNode(t, ns[0]).0, ns[1..])
  }

  /** Adding nodes to a tree whose identifiers are in order numbers them
      consecutively after the existing ones, whatever identifiers they carried
      before; the existing nodes, the edges and everything else about the
      added nodes stay as they were. */
  lemma {:induction false} AddNodesNumbersInOrder(t: Rrt, ns: seq<Node>)
    requires IdsInOrder(t)
    ensures var r := AddNodes(t, ns);
      && IdsInOrder(r)
      && |r.nodes| == |t.nodes| + |ns|
      && r.nodes[..|t.nodes|] == t.nodes
      && (forall k :: 0 <= k < |ns| ==> r.nodes[|t.nodes| + k] == ns[k].(id := |t.nodes| + k + 1))
      && r.edges == t.edges
    decreases |ns|
  {
    if |ns| > 0 {
      var t1 := AddNode(t, ns[0]).0;
      AddNodesNumbersInOrder(t1, ns[1..]);
      var r := AddNodes(t1, ns[1..]);
      assert r == AddNodes(t, ns);
      forall k | 0 <= k < |ns|
        ensures r.nodes[|t.nodes| + k] == ns[k].(id := |t.nodes| + k + 1)
      {
        if k == 0 {
          assert r.nodes[..|t1.nodes|] == t1.nodes;
          assert r.nodes[|t.nodes|] == t1.nodes[|t.nodes|];
        } else {
          assert ns[k] == ns[1..][k - 1];
        }
      }
      assert r.nodes[..|t.nodes|] == r.nodes[..|t1.nodes|][..|t.nodes|];
    }
  }

  /** Position `c` is a non-root node whose parent is position `p`. */
  predicate ParentOf(t: Rrt, p: nat, c: nat) {
    0 < c < |t.nodes| && t.nodes[c].parent == Some(p)
  }

  /** Position 0 is the root, with no parent; every other node's parent sits
      earlier in the arena, so every parent chain ends at the root. */
  predicate ParentsPrecede(t: Rrt) {
    && |t.nodes| >= 1
    && t.nodes[0].parent == None
    && forall i :: 0 < i < |t.nodes| ==> t.nodes[i].parent.Some? && t.nodes[i].parent.value < i
  }

  /** Child lists agree with the parent links, in both directions. */
  predicate ChildrenAgree(t: Rrt)
    requires ParentsPrecede(t)
  {
    && (forall i, j :: 0 <= i < |t.nodes| && 0 <= j < |t.nodes[i].children| ==> ParentOf(t, i, t.nodes[i].children[j]))
    && (forall c :: 0 < c < |t.nodes| ==> c in t.nodes[t.nodes[c].parent.value].children)
  }

  /** One zero-cost edge per non-root node, in insertion order, from its
      parent's identifier to its own. */
  predicate EdgesMatch(t: Rrt)
    requires ParentsPrecede(t)
  {
    && |t.edges| == |t.nodes| - 1
    && forall k :: 0 <= k < |t.edges| ==> t.edges[k] == Edge(t.nodes[k + 1].parent.value + 1, k + 2, 0)
  }

  /** The shape invariant of the tree as the planner grows it. */
  predicate Valid(t: Rrt) {
    && IdsInOrder(t)
    && ParentsPrecede(t)
    && ChildrenAgree(t)
    && EdgesMatch(t)
  }

  /** The tree right after the start node is added. */
  function RootTree(start: Point): (t: Rrt)
    ensures Valid(t)
    ensures |t.nodes| == 1 && t.nodes[0].pt == start && t.nodes[0].id == 1
  {
    AddNode(EmptyRrt, NewNode(start)).0
  }

  /** The insertion step of the planner loop: a node at `pt` whose parent is
      position `p` joins `p`'s children, is added to the tree, and an edge from
      `p`'s identifier to the new identifier is recorded. */
  function Extend(t: Rrt, p: nat, pt: Point): (r: Rrt)
    requires p < |t.nodes|
    ensures |r.nodes| == |t.nodes| + 1
    ensures r.nodes[|t.nodes|] == Node(t.nodeCount, pt, Some(p), [])
    ensures r.nodes[p] == t.nodes[p].(children := t.nodes[p].children + [|t.nodes|])
    ensures forall i :: 0 <= i < |t.nodes| && i != p ==> r.nodes[i] == t.nodes[i]
    ensures r.edges == t.edges + [Edge(t.nodes[p].id, t.nodeCount, 0)]
    ensures r.nodeCount == t.nodeCount + 1
  {
    var parent := t.nodes[p].(children := t.nodes[p].children + [|t.nodes|]);
    var (t1, id) := AddNode(t.(nodes := t.nodes[p := parent]), Node(0, pt, Some(p), []));
    AddEdge(t1, Edge(parent.id, id, 0))
  }

  /** An extension keeps the tree valid, keeps every point where it was, and
      gives the new node the next identifier. */
  lemma ExtendValid(t: Rrt, p: nat, pt: Point)
    requires Valid(t) && p < |t.nodes|
    ensures Valid(Extend(t, p, pt))
    ensures Extend(t, p, pt).nodes[|t.nodes|].id == |t.nodes| + 1
    ensures forall i :: 0 <= i < |t.nodes| ==> Extend(t, p, pt).nodes[i].pt == t.nodes[i].pt
  {
    ExtendKeepsIds(t, p, pt);
    ExtendKeepsParents(t, p, pt);
    ExtendKeepsChildren(t, p, pt);
    ExtendKeepsEdges(t, p, pt);
  }

  lemma ExtendKeepsIds(t: Rrt, p: nat, pt: Point)
    requires IdsInOrder(t) && p < |t.nodes|
    ensures IdsInOrder(Extend(t, p, pt))
  {
    var r := Extend(t, p, pt);
    forall i | 0 <= i < |r.nodes|
      ensures r.nodes[i].id == i + 1
    {
      if i < |t.nodes| && i != p {
        assert r.nodes[i] == t.nodes[i];
      }
    }
  }

  lemma ExtendKeepsParents(t: Rrt, p: nat, pt: Point)
    requires ParentsPrecede(t) && p < |t.nodes|
    ensures ParentsPrecede(Extend(t, p, pt))
  {
    var r := Extend(t, p, pt);
    forall i | 0 <= i < |r.nodes|
      ensures r.nodes[i].parent == if i < |t.nodes| then t.nodes[i].parent else Some(p)
    {
      if i < |t.nodes| && i != p {
        assert r.nodes[i] == t.nodes[i];
      }
    }
  }

  lemma ExtendKeepsChildren(t: Rrt, p: nat, pt: Point)
    requires ParentsPrecede(t) && ChildrenAgree(t) && p < |t.nodes|
    ensures ParentsPrecede(Extend(t, p, pt)) && ChildrenAgree(Extend(t, p, pt))
  {
    ExtendChildrenPointBack(t, p, pt);
    ExtendParentsListChild(t, p, pt);
  }

  /** After an insertion, every listed child still names its lister as parent. */
  lemma ExtendChildrenPointBack(t: Rrt, p: nat, pt: Point)
    requires ParentsPrecede(t) && ChildrenAgree(t) && p < |t.nodes|
    ensures ParentsPrecede(Extend(t, p, pt))
    ensures var r := Extend(t, p, pt);
      forall i, j :: 0 <= i < |r.nodes| && 0 <= j < |r.nodes[i].children| ==> ParentOf(r, i, r.nodes[i].children[j])
  {
    var r := Extend(t, p, pt);
    var n := |t.nodes|;
    ExtendKeepsParents(t, p, pt);
    forall i, j | 0 <= i < |r.nodes| && 0 <= j < |r.nodes[i].children|
      ensures ParentOf(r, i, r.nodes[i].children[j])
    {
      if i == p && j == |t.nodes[p].children| {
        assert r.nodes[i].children[j] == n;
      } else {
        assert i < n;
        assert r.nodes[i].children[j] == t.nodes[i].children[j];
        assert ParentOf(t, i, t.nodes[i].children[j]);
        var c := t.nodes[i].children[j];
        if c != p {
          assert r.nodes[c] == t.nodes[c];
        }
      }
    }
  }

  /** After an insertion, every non-root node is still listed by its parent. */
  lemma ExtendParentsListChild(t: Rrt, p: nat, pt: Point)
    requires ParentsPrecede(t) && ChildrenAgree(t) && p < |t.nodes|
    ensures var r := Extend(t, p, pt);
      forall c :: 0 < c < |r.nodes| ==> r.nodes[c].parent.Some? && c in r.nodes[r.nodes[c].parent.value].children
  {
    var r := Extend(t, p, pt);
    var n := |t.nodes|;
    forall c | 0 < c < |r.nodes|
      ensures r.nodes[c].parent.Some? && c in r.nodes[r.nodes[c].parent.value].children
    {
      if c < n {
        var q := t.nodes[c].parent.value;
        assert c in t.nodes[q].children;
        if c != p {
          assert r.nodes[c] == t.nodes[c];
        }
        if q != p {
          assert r.nodes[q] == t.nodes[q];
        }
      }
    }
  }

  lemma ExtendKeepsEdges(t: Rrt, p: nat, pt: Point)
    requires Valid(t) && p < |t.nodes|
    ensures ParentsPrecede(Extend(t, p, pt)) && EdgesMatch(Extend(t, p, pt))
  {
    var r := Extend(t, p, pt);
    var n := |t.nodes|;
    ExtendKeepsParents(t, p, pt);
    forall k | 0 <= k < |r.edges|
      ensures r.edges[k] == Edge(r.nodes[k + 1].parent.value + 1, k + 2, 0)
    {
      if k + 1 < n {
        if k + 1 != p {
          assert r.nodes[k + 1] == t.nodes[k + 1];
        }
        assert r.edges[k] == t.edges[k];
      }
    }
  }
}
