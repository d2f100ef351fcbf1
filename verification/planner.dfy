/** The planner loop of main.py's entry point, as a state machine: each
    iteration picks a sample (the goal on every tenth iteration), finds the
    nearest tree node, steers toward the sample, and inserts the new point if
    the motion is collision-free; the loop stops once a newly inserted node
    is within the goal tolerance or the iteration budget is spent. */
module Planner {
  import opened Wrappers
  import opened Geometry
  import opened Tree
  import opened Nearest
  import opened Path
  import opened Steer
  import opened Collision
  import opened Sampler

  const MaxLoopCount: nat := 500
  const SampleStepSize: real := 0.2
  const MinGoalDistance: real := 0.001
  const GoalBiasPeriod: nat := 10
  const StartPoint := Point(-0.5, -0.5)
  const GoalPoint := Point(0.5, 0.5)

  /** The loop's variables: the tree, `loop_count` and `goal_reached`. */
  datatype State = State(tree: Rrt, loopCount: nat, goalReached: bool)

  /** What one iteration takes from outside the model: the batch of random
      candidates `get_sample_point` would draw, and the Euclidean length of
      the vector from the nearest node to the sample. */
  datatype Draw = Draw(batch: seq<Point>, norm: real)

  /** The loop condition. */
  predicate Running(s: State) {
    !s.goalReached && s.loopCount < MaxLoopCount
  }

  /** `sqrt(|p - goal|^2) < MIN_GOAL_DISTANCE`, compared squared. */
  predicate NearGoal(p: Point) {
    DistSq(GoalPoint, p) < Sq(MinGoalDistance)
  }

  predicate GoalBiased(k: nat) {
    k % GoalBiasPeriod == 0
  }

  /** The state before the first iteration: the start node alone. */
  function Init(): (s: State)
    ensures Valid(s.tree) && Running(s)
    ensures |s.tree.nodes| == 1 && s.tree.nodes[0].pt == StartPoint
    ensures s.loopCount == 0
  {
    State(RootTree(StartPoint), 0, false)
  }

  /** The sample of iteration `k`: the goal on every tenth iteration, otherwise
      the best candidate of the drawn batch. */
  function SampleFor(k: nat, batch: seq<Point>): (p: Point)
    requires GoalBiased(k) || |batch| > 0
    ensures GoalBiased(k) ==> p == GoalPoint
    ensures !GoalBiased(k) ==> p in batch && forall c :: c in batch ==> !Less(c, p)
  {
    if GoalBiased(k) then GoalPoint else GetSamplePoint(batch)
  }

  /** The nearest node's position; a valid tree is never empty. */
  function NearestIx(t: Rrt, q: Point): (k: nat)
    requires |t.nodes| >= 1
    ensures k < |t.nodes| && IsFirstClosest(t.nodes, q, |t.nodes|, k)
  {
    GetClosestTreeNode(t, q).value
  }

  function Target(s: State, d: Draw): Point
    requires GoalBiased(s.loopCount) || |d.batch| > 0
  {
    SampleFor(s.loopCount, d.batch)
  }

  /** The conditions under which one iteration is modelled: a valid tree, the
      loop condition, a batch when one is needed, a correct length for the
      steering vector, and a non-degenerate motion whenever there are
      obstacles to test it against. */
  predicate StepReady(s: State, obstacles: seq<Obstacle>, d: Draw) {
    && Valid(s.tree)
    && Running(s)
    && (GoalBiased(s.loopCount) || |d.batch| > 0)
    && var q := Target(s, d);
       var near := s.tree.nodes[NearestIx(s.tree, q)].pt;
       && IsNorm(d.norm, Sub(q, near))
       && (|obstacles| == 0 || q != near)
  }

  function NearPoint(s: State, d: Draw): Point
    requires Valid(s.tree) && (GoalBiased(s.loopCount) || |d.batch| > 0)
  {
    s.tree.nodes[NearestIx(s.tree, Target(s, d))].pt
  }

  /** The point `local_planner` proposes in this iteration. */
  function Proposal(s: State, obstacles: seq<Obstacle>, d: Draw): (np: Point)
    requires StepReady(s, obstacles, d)
    ensures DistSq(NearPoint(s, d), np) <= Sq(SampleStepSize)
    ensures |obstacles| == 0 || np != NearPoint(s, d)
  {
    LocalPlanner(NearPoint(s, d), Target(s, d), SampleStepSize, d.norm)
  }

  /** The proposed motion passes the collision check. */
  predicate Accepted(s: State, obstacles: seq<Obstacle>, d: Draw)
    requires StepReady(s, obstacles, d)
  {
    CheckMotionIsCollisionFree(obstacles, NearPoint(s, d), Proposal(s, obstacles, d))
  }

  /** One loop iteration: the tree stays valid, existing nodes keep their
      points, and it grows by exactly one node when the motion is accepted. */
  function Step(s: State, obstacles: seq<Obstacle>, d: Draw): (s': State)
    requires StepReady(s, obstacles, d)
    ensures s'.loopCount == s.loopCount + 1
    ensures |s'.tree.nodes| == |s.tree.nodes| + (if Accepted(s, obstacles, d) then 1 else 0)
    ensures Valid(s'.tree)
    ensures forall i :: 0 <= i < |s.tree.nodes| ==> s'.tree.nodes[i].pt == s.tree.nodes[i].pt
    ensures forall i :: 0 <= i < |s.tree.nodes| ==> s'.tree.nodes[i].parent == s.tree.nodes[i].parent
  {
    var c := NearestIx(s.tree, Target(s, d));
    var np := Proposal(s, obstacles, d);
    if CheckMotionIsCollisionFree(obstacles, NearPoint(s, d), np) then
      ExtendValid(s.tree, c, np);
      State(Extend(s.tree, c, np), s.loopCount + 1, NearGoal(np))
    else
      s.(loopCount := s.loopCount + 1)
  }

  /** A rejected candidate changes nothing but the counter. */
  lemma StepRejected(s: State, obstacles: seq<Obstacle>, d: Draw)
    requires StepReady(s, obstacles, d) && !Accepted(s, obstacles, d)
    ensures Step(s, obstacles, d) == s.(loopCount := s.loopCount + 1)
  {
  }

  /** An accepted candidate becomes a child of the nearest node, at most one
      step away from it along a collision-free motion, and the goal flag is set
      exactly when it lies within the goal tolerance. */
  lemma StepAccepted(s: State, obstacles: seq<Obstacle>, d: Draw)
    requires StepReady(s, obstacles, d) && Accepted(s, obstacles, d)
    ensures var t' := Step(s, obstacles, d).tree;
      var n := t'.nodes[|s.tree.nodes|];
      && |t'.nodes| == |s.tree.nodes| + 1
      && n.id == |s.tree.nodes| + 1
      && n.parent == Some(NearestIx(s.tree, Target(s, d)))
      && n.pt == Proposal(s, obstacles, d)
      && |t'.edges| == |s.tree.edges| + 1
      && t'.edges[|s.tree.edges|] == Edge(NearestIx(s.tree, Target(s, d)) + 1, n.id, 0)
    ensures Step(s, obstacles, d).goalReached <==> NearGoal(Proposal(s, obstacles, d))
  {
    var c := NearestIx(s.tree, Target(s, d));
    var np := Proposal(s, obstacles, d);
    ExtendValid(s.tree, c, np);
  }

  /** Every iteration along `draws` is one that the model covers. */
  predicate Feasible(s: State, obstacles: seq<Obstacle>, draws: seq<Draw>)
    decreases |draws|
  {
    && Valid(s.tree)
    && (Running(s) && |draws| > 0 ==>
          && StepReady(s, obstacles, draws[0])
          && Feasible(Step(s, obstacles, draws[0]), obstacles, draws[1..]))
  }

  /** A motion the collision check approves, and that is not of zero length
      when there are obstacles to test it against. */
  predicate MotionFree(obstacles: seq<Obstacle>, a: Point, b: Point) {
    && (|obstacles| == 0 || a != b)
    && CheckMotionIsCollisionFree(obstacles, a, b)
  }

  /** Every edge of the tree, from a parent's point to its child's, is a
      motion the collision check approves. */
  predicate EdgesFree(t: Rrt, obstacles: seq<Obstacle>)
    requires ParentsPrecede(t)
  {
    forall c :: 0 < c < |t.nodes| ==> MotionFree(obstacles, t.nodes[t.nodes[c].parent.value].pt, t.nodes[c].pt)
  }

  /** The root alone has no edges to check. */
  lemma RootTreeFree(start: Point, obstacles: seq<Obstacle>)
    ensures EdgesFree(RootTree(start), obstacles)
  {
  }

  /** Inserting a node along an approved motion from its parent keeps every
      edge of the tree approved. */
  lemma ExtendKeepsFree(t: Rrt, obstacles: seq<Obstacle>, p: nat, pt: Point)
    requires Valid(t) && p < |t.nodes|
    requires EdgesFree(t, obstacles)
    requires MotionFree(obstacles, t.nodes[p].pt, pt)
    ensures ParentsPrecede(Extend(t, p, pt)) && EdgesFree(Extend(t, p, pt), obstacles)
  {
    var r := Extend(t, p, pt);
    var n := |t.nodes|;
    ExtendKeepsParents(t, p, pt);
    forall k | 0 < k < |r.nodes|
      ensures MotionFree(obstacles, r.nodes[r.nodes[k].parent.value].pt, r.nodes[k].pt)
    {
      if k < n {
        var q := t.nodes[k].parent.value;
        assert MotionFree(obstacles, t.nodes[q].pt, t.nodes[k].pt);
        assert r.nodes[k].pt == t.nodes[k].pt && r.nodes[k].parent == t.nodes[k].parent;
        assert r.nodes[q].pt == t.nodes[q].pt;
      }
    }
  }

  /** An iteration inserts a node only along an approved motion from its
      parent, and leaves the points and parents of older nodes alone, so a
      tree whose edges are all approved stays so. */
  lemma StepKeepsFree(s: State, obstacles: seq<Obstacle>, d: Draw)
    requires StepReady(s, obstacles, d)
    ensures EdgesFree(s.tree, obstacles) ==> EdgesFree(Step(s, obstacles, d).tree, obstacles)
  {
    if EdgesFree(s.tree, obstacles) && Accepted(s, obstacles, d) {
      var c := NearestIx(s.tree, Target(s, d));
      var np := Proposal(s, obstacles, d);
      assert Step(s, obstacles, d).tree == Extend(s.tree, c, np);
      assert MotionFree(obstacles, s.tree.nodes[c].pt, np);
      ExtendKeepsFree(s.tree, obstacles, c, np);
    }
  }

  /** Consecutive identifiers of `path` are parent-to-child links whose
      motions pass the collision check. */
  predicate PathFree(t: Rrt, obstacles: seq<Obstacle>, path: seq<nat>) {
    forall j :: 0 <= j < |path| - 1 ==>
      && ParentLink(t, path[j], path[j + 1])
      && MotionFree(obstacles, t.nodes[path[j] - 1].pt, t.nodes[path[j + 1] - 1].pt)
  }

  /** In a tree whose edges are all approved, the written path to any node is
      a chain of approved parent-to-child motions. */
  lemma TracePathFree(t: Rrt, obstacles: seq<Obstacle>, k: nat)
    requires Valid(t) && EdgesFree(t, obstacles) && k < |t.nodes|
    ensures PathFree(t, obstacles, TracePath(t, k))
  {
    TracePathShape(t, k);
    ChainFree(t, obstacles, TracePath(t, k));
  }

  /** Any chain of parent links in an approved tree is a chain of approved motions. */
  lemma ChainFree(t: Rrt, obstacles: seq<Obstacle>, path: seq<nat>)
    requires ParentsPrecede(t) && EdgesFree(t, obstacles)
    requires forall j :: 0 <= j < |path| - 1 ==> ParentLink(t, path[j], path[j + 1]) && path[j] < path[j + 1]
    ensures PathFree(t, obstacles, path)
  {
    forall j | 0 <= j < |path| - 1
      ensures && ParentLink(t, path[j], path[j + 1])
              && MotionFree(obstacles, t.nodes[path[j] - 1].pt, t.nodes[path[j + 1] - 1].pt)
    {
      LinkFree(t, obstacles, path[j], path[j + 1]);
    }
  }

  /** A parent link between two identifiers of an approved tree is an approved motion. */
  lemma LinkFree(t: Rrt, obstacles: seq<Obstacle>, a: nat, b: nat)
    requires ParentsPrecede(t) && EdgesFree(t, obstacles)
    requires ParentLink(t, a, b) && a < b
    ensures MotionFree(obstacles, t.nodes[a - 1].pt, t.nodes[b - 1].pt)
  {
    var c := b - 1;
    assert 0 < c < |t.nodes| && t.nodes[c].parent.value == a - 1;
  }

  /** The goal flag is only ever set with the newest node inside the goal tolerance. */
  predicate GoalSound(s: State) {
    s.goalReached ==> |s.tree.nodes| >= 1 && NearGoal(s.tree.nodes[|s.tree.nodes| - 1].pt)
  }

  lemma StepGoalSound(s: State, obstacles: seq<Obstacle>, d: Draw)
    requires StepReady(s, obstacles, d)
    ensures GoalSound(Step(s, obstacles, d))
  {
    if Accepted(s, obstacles, d) {
      StepAccepted(s, obstacles, d);
    } else {
      StepRejected(s, obstacles, d);
    }
  }

  /** The loop: iterate while the loop condition holds and draws remain.
      It keeps the tree valid, never removes or moves a node, runs at most
      one iteration per draw and stays within MaxLoopCount iterations, adds
      at most one node per iteration, stops only when out of draws or when
      the loop condition fails, and raises the goal flag only with the
      newest node inside the goal tolerance. */
  function Run(s: State, obstacles: seq<Obstacle>, draws: seq<Draw>): (f: State)
    requires Feasible(s, obstacles, draws)
    ensures Valid(f.tree)
    ensures |s.tree.nodes| <= |f.tree.nodes|
    ensures forall i :: 0 <= i < |s.tree.nodes| ==> f.tree.nodes[i].pt == s.tree.nodes[i].pt
    ensures forall i :: 0 <= i < |s.tree.nodes| ==> f.tree.nodes[i].parent == s.tree.nodes[i].parent
    ensures EdgesFree(s.tree, obstacles) ==> EdgesFree(f.tree, obstacles)
    ensures s.loopCount <= f.loopCount <= s.loopCount + |draws|
    ensures s.loopCount <= MaxLoopCount ==> f.loopCount <= MaxLoopCount
    ensures |f.tree.nodes| <= |s.tree.nodes| + (f.loopCount - s.loopCount)
    ensures Running(f) ==> f.loopCount == s.loopCount + |draws|
    ensures GoalSound(s) ==> GoalSound(f)
    ensures s.goalReached ==> f == s
    decreases |draws|
  {
    if !Running(s) || |draws| == 0 then s
    else
      StepGoalSound(s, obstacles, draws[0]);
      StepKeepsFree(s, obstacles, draws[0]);
      Run(Step(s, obstacles, draws[0]), obstacles, draws[1..])
  }

  /** On a goal-biased iteration whose nearest node is within one step of the
      goal, an accepted motion lands exactly on the goal and ends the search. */
  lemma GoalBiasedStepReachesGoal(s: State, obstacles: seq<Obstacle>, d: Draw)
    requires StepReady(s, obstacles, d) && Accepted(s, obstacles, d)
    requires GoalBiased(s.loopCount)
    requires DistSq(NearPoint(s, d), GoalPoint) <= Sq(SampleStepSize)
    ensures Proposal(s, obstacles, d) == GoalPoint
    ensures Step(s, obstacles, d).goalReached
  {
    assert Target(s, d) == GoalPoint;
    assert Proposal(s, obstacles, d) == GoalPoint;
    StepAccepted(s, obstacles, d);
    GoalIsNearGoal();
  }

  lemma GoalIsNearGoal()
    ensures NearGoal(GoalPoint)
  {
    DistSqZero(GoalPoint, GoalPoint);
    SqPositive(MinGoalDistance);
  }

  /** A whole planning run from the start node: within the budget, and when
      it reports success, the path written out leads from the start node
      (identifier 1, at the start point) through parent links to the newest
      node, which lies within the goal tolerance. */
  lemma PlannerRun(obstacles: seq<Obstacle>, draws: seq<Draw>)
    requires Feasible(Init(), obstacles, draws)
    ensures var f := Run(Init(), obstacles, draws);
      && f.loopCount <= MaxLoopCount
      && (MaxLoopCount <= |draws| ==> !Running(f))
      && (f.goalReached ==>
            var k := |f.tree.nodes| - 1;
            var path := TracePath(f.tree, k);
            && f.tree.nodes[0].pt == StartPoint
            && path[0] == 1
            && path[|path| - 1] == f.tree.nodes[k].id
            && PathFree(f.tree, obstacles, path)
            && NearGoal(f.tree.nodes[k].pt))
  {
    var s0 := Init();
    var f := Run(s0, obstacles, draws);
    assert GoalSound(s0);
    assert GoalSound(f);
    RootTreeFree(StartPoint, obstacles);
    assert EdgesFree(f.tree, obstacles);
    if f.goalReached {
      var k := |f.tree.nodes| - 1;
      assert f.tree.nodes[0].pt == s0.tree.nodes[0].pt;
      TracePathShape(f.tree, k);
      TracePathFree(f.tree, obstacles, k);
    }
  }
}
