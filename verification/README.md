# RRT path planner — a Dafny model

This project models the planner in `main.py`. The planner is a
rapidly-exploring random tree (RRT) that searches for a collision-free path
for a point robot. The robot moves in the square [-0.5, 0.5]², which contains
circular obstacles. The start is (-0.5, -0.5) and the goal is (0.5, 0.5).

- The tree grows one candidate per iteration, for at most 500 iterations.
- Every tenth iteration aims straight at the goal. The others aim at the best
  of a batch of random grid points, where "best" means closest to the goal.
- The nearest tree node steers toward that sample, moving at most 0.2.
- The new point joins the tree only if the straight motion to it clears every
  obstacle. Each obstacle is inflated by 0.02. The motion is checked at 21
  evenly spaced points.
- The search stops when a newly added node is within 0.001 of the goal. The
  path is then read back by walking parent links from that node to the root.

## Modules

- `Geometry` (geometry.dfy) holds points with real coordinates and
  squared-distance arithmetic. The source takes a square root before each
  of its distance comparisons (main.py:81, 96, 159, 173-174 and 227). The
  model restates each comparison on squared distances instead, which orders
  non-negative lengths the same way, so it never takes a square root. For
  example, the `Node.heuristic` length of main.py:96 becomes
  `Sampler.HeuristicSq`.
- `Collision` (collision.dfy) models `no_intersection` and
  `check_motion_is_collision_free`.
- `Tree` (tree.dfy) models `Node`, `Edge` and `RRT` as an arena. Nodes live
  in a sequence, and parents and children are positions in that sequence.
  `Valid` is the tree's shape invariant, which has four parts:
  - identifiers are 1, 2, 3, … in insertion order;
  - every parent comes before its child;
  - child lists agree with parent links;
  - there is one zero-cost edge per non-root node.
- `Nearest` (nearest.dfy) models `get_closest_tree_node`.
- `Steer` (steer.dfy) models `local_planner`.
- `Sampler` (sampler.dfy) models `get_sample_point` and `Node.__lt__`.
- `Path` (path.dfy) models the parent walk in `write_path_csv`.
- `Planner` (planner.dfy) models the main loop. It is a state machine over
  `(tree, loop_count, goal_reached)`. `Step` is one iteration and `Run`
  runs the loop over a sequence of external draws.

Some one-line definitions carry no row of their own in the table below, and
each mirrors a single source expression: `Sampler.HeuristicSq` is the
heuristic (main.py:96), `Sampler.Less` is `Node.__lt__` (main.py:98-99),
`Tree.NewNode` is the `Node` constructor (main.py:90-95), `Planner.Running`
is the loop condition (main.py:200), `Planner.NearGoal` is the goal test
(main.py:227) and `Planner.GoalBiased` is the goal-bias test (main.py:202).

## What the code does not do

The model follows the code in each of these cases.

- A steered point is not clamped to the workspace. `local_planner` returns
  `start + direction` unchanged (main.py:179).
- Every edge has cost 0. The Euclidean length of the motion is not recorded
  (main.py:107).
- The goal node is never added to the tree (main.py:192). Success means that
  a newly added node lies within 0.001 of the goal, and the path ends at
  that node.
- The goal test looks only at the node inserted in the current iteration
  (main.py:227).
- The collision check is sampled, not exact. `Collision.ThinObstacleMissed`
  and `Collision.CentreOnThinSegment` give a segment that passes through the
  centre of an obstacle of diameter 0.46, inflated to radius 1/4, yet the
  collision check accepts the motion. The example is about the collision
  functions on their own. It is 20 units long, and the planner never
  proposes such a motion, since its motions are at most 0.2 long.

## Model

| member | source | states |
|---|---|---|
| Collision.ClearFrom | main.py:79-83 | Scanning samples i..20 reports clear exactly when none of those samples lies in the closed disk. |
| Collision.NoIntersection | main.py:70-85 | For a segment of non-zero length, the result is true exactly when none of the 21 samples (endpoints included) lies within the radius of the centre. A negative radius blocks nothing. |
| Collision.CheckMotionIsCollisionFree | main.py:145-152 | The motion is allowed exactly when it misses every obstacle. Each obstacle's radius is inflated to diameter/2 + 0.02. With no obstacles every motion is allowed. |
| Collision.SampleEndpoints | main.py:79-80 | The first sample is the start point and the last sample is the end point. |
| Collision.SampleReversed | main.py:79-80 | Sampling the reversed segment gives the same points in reverse order. |
| Collision.EndpointInDiskBlocks | main.py:79-85 | A segment that starts or ends inside the disk is reported as intersecting. |
| Collision.NoIntersectionSymmetric | main.py:70-85 | The intersection test gives the same answer in both directions of travel. |
| Collision.CheckMotionSymmetric | main.py:145-152 | The collision check gives the same answer in both directions of travel. |
| Collision.EndpointInObstacleBlocks | main.py:145-152 | A motion that starts or ends inside any inflated obstacle is rejected. |
| Collision.ThinSampleClear | main.py:80-82 | For the segment (-0.5,0)→(19.5,0), every sample misses the disk of radius 0.25 at the origin. |
| Collision.CentreOnThinSegment | main.py:80 | The origin lies on that segment, one fortieth of the way along. |
| Collision.ThinObstacleMissed | main.py:79-85 | That segment is accepted even though it passes through the disk's centre. The same holds for the whole collision check against an obstacle of diameter 0.46 at the origin. Sampling can miss a thin obstacle. |
| Tree.AddNode | main.py:118-122 | The node gets the tree's next identifier and is appended, and that identifier is returned. The counter advances by one and the edges are unchanged. If identifiers were in order before, they still are and the new one is the node count. |
| Tree.AddEdge | main.py:124-125 | The edge is appended and the nodes and counter are unchanged. Suppose every node except the newest already has its edge. Then the edges become complete (one zero-cost edge per non-root node, from its parent's identifier) exactly when the appended edge runs from the newest node's parent's position plus one (its identifier in a tree whose identifiers are in order) to the newest node's own, with cost 0. |
| Tree.AddNodesNumbersInOrder | main.py:112-122 | Adding nodes one by one numbers them consecutively after the existing ones, whatever identifiers they carried before. Existing nodes and edges are unchanged and nothing else about the added nodes changes. |
| Tree.RootTree | main.py:188-195 | After the start node is added, the tree is valid and holds exactly one node, at the start point, with identifier 1. |
| Tree.Extend | main.py:214-223 | The new node has the next identifier, the given point, the chosen parent and no children. The parent gains it as its last child, and every other node is unchanged. One edge from the parent's identifier to the new identifier, with cost 0, is appended. |
| Tree.ExtendKeepsIds | main.py:219 | An insertion keeps identifiers consecutive in insertion order. |
| Tree.ExtendKeepsParents | main.py:216-219 | After an insertion the root still has no parent and every parent still precedes its child. |
| Tree.ExtendKeepsChildren | main.py:216-219 | After an insertion, child lists still agree with parent links in both directions. |
| Tree.ExtendChildrenPointBack | main.py:217-218 | After an insertion, every node in a child list names the list's owner as its parent. |
| Tree.ExtendParentsListChild | main.py:217-218 | After an insertion, every non-root node appears in its parent's child list. |
| Tree.ExtendKeepsEdges | main.py:221-223 | After an insertion there is still exactly one edge per non-root node, from its parent's identifier to its own. |
| Tree.ExtendValid | main.py:214-223 | An insertion keeps the tree valid, moves no existing point, and gives the new node identifier size + 1. |
| Nearest.ScanPrefix | main.py:156-162 | After n iterations of the scan, the kept node is the first among the first n that no other node beats, and there is none only when n is 0. |
| Nearest.GetClosestTreeNode | main.py:155-163 | The result is missing exactly when the tree is empty. Otherwise no node is closer to the query, and every earlier node is strictly farther (ties go to the earliest node). |
| Nearest.ClosestIsUnique | main.py:155-163 | The scan returns position k if and only if k is the first closest node. |
| Nearest.RootOnlyTree | main.py:155-163 | A tree holding only the root answers every query with the root. |
| Nearest.StrictlyClosestWins | main.py:158-162 | A node strictly closer than all others is always the answer. |
| Path.Reverse | main.py:60 | The result has the input's elements in reverse order. |
| Path.WalkUp | main.py:53-59 | The walk starts with the given node's identifier and ends with the root's. |
| Path.TracePath | main.py:53-60 | The written path starts with the root's identifier and ends with the given node's. |
| Path.WalkUpShape | main.py:53-59 | In a valid tree the walk runs from identifier k+1 down to the root's identifier 1. Each step follows a parent link to a strictly smaller identifier. |
| Path.TracePathShape | main.py:53-60 | The written path starts at the root (1) and ends at the given node. Each consecutive pair is a parent→child link, with strictly increasing identifiers. |
| Path.TracePathRoot | main.py:53-60 | The path to the root is the root alone. |
| Path.TracePathChain | main.py:53-60 | For a chain root → a → b, the path is exactly the identifiers of root, a and b in that order. |
| Sampler.GetSamplePoint | main.py:135-142 | The chosen point is one of the candidates, and no candidate has a strictly smaller heuristic (distance to (0.5, 0.5)). |
| Sampler.GetSamplePointEarliest | main.py:135-142 | The chosen point is the earliest candidate of minimal heuristic: every candidate before it has a strictly larger heuristic, as the priority queue's strict comparison keeps the first of equal candidates at its head. |
| Steer.LocalPlanner | main.py:166-180 | The result equals the target exactly when the target is within the step. It is never farther than the step from the start, nor farther from the start than the target is. When the target is beyond the step, the result is exactly one step away, on the ray toward the target. With a positive step, the result equals the start only when the target does. |
| Steer.LongBranch | main.py:174-179 | In the rescaled branch the result is not the target and is exactly one step from the start. It is parallel to the direction and, for a positive step, points the same way. |
| Steer.ShortStep | main.py:179 | In the unscaled branch the result is the target itself, which lies within the step. |
| Steer.LongStep | main.py:175-176 | Scaling the direction by step/|direction| gives a vector of length step that is parallel to the direction and, for a positive step, points the same way. |
| Planner.Init | main.py:188-199 | The loop starts with a valid one-node tree at (-0.5, -0.5), a counter of 0 and the loop condition true. |
| Planner.SampleFor | main.py:202-205 | On iterations divisible by 10 the sample is the goal. Otherwise it is a candidate of minimal heuristic from the batch. |
| Planner.NearestIx | main.py:208 | The node steered from is a first closest node to the sample. |
| Planner.Proposal | main.py:211 | The proposed point is within 0.2 of the nearest node. When there are obstacles to test, it differs from that node. |
| Planner.Step | main.py:200-236 | One iteration advances the counter by one and grows the tree by exactly one node if the motion is accepted, by none otherwise. The tree stays valid, and no existing node changes its point or its parent. |
| Planner.StepRejected | main.py:214-236 | A rejected motion changes nothing but the counter. |
| Planner.StepAccepted | main.py:214-228 | An accepted point becomes the next node. Its parent is the nearest node, it is recorded by a zero-cost edge from that parent, and the goal flag is set exactly when it lies within 0.001 of the goal. |
| Planner.RootTreeFree | main.py:191-195 | The tree holding only the start node has no edge that could fail the collision check. |
| Planner.ExtendKeepsFree | main.py:213-219 | Inserting a node along an approved motion from its parent keeps every edge of the tree approved. |
| Planner.StepKeepsFree | main.py:213-219 | An iteration inserts a node only along a motion the collision check approved, from a node that is not at the same point when obstacles exist. So a tree whose every edge was approved keeps that property. |
| Planner.TracePathFree | main.py:53-60 | In a tree whose edges were all approved, the written path to any node is a chain of parent-to-child links whose motions each pass the collision check. |
| Planner.ChainFree | main.py:53-60 | In an approved tree, any chain of parent links with increasing identifiers is a chain of approved motions. |
| Planner.LinkFree | main.py:214-217 | In an approved tree, the motion from a node's parent to the node passes the collision check. |
| Planner.StepGoalSound | main.py:226-228 | After any iteration, a raised goal flag means the newest node is within the goal tolerance. |
| Planner.GoalIsNearGoal | main.py:227 | The goal point itself passes the goal test. |
| Planner.GoalBiasedStepReachesGoal | main.py:202-228 | Take a goal-biased iteration whose nearest node is within 0.2 of the goal. If its motion is accepted, the new node is the goal point and the search ends. |
| Planner.Run | main.py:200-236 | The loop keeps the tree valid and never removes a node, changes its point or re-parents it. If every tree edge was a motion the collision check approved, that stays true. It uses at most one draw per iteration and, from a count within the budget, never exceeds 500 iterations. It adds at most one node per iteration, and if it is still running every draw was used. Once the goal flag is raised nothing more happens. A raised flag always means the newest node is within the goal tolerance. |
| Planner.PlannerRun | main.py:183-236 | A full run from the start stays within 500 iterations and stops given 500 draws. If it reports success, the path written out starts at node 1, which sits at the start point. It follows parent links to the newest node, which lies within 0.001 of the goal. Every motion along the path, from a node to its child, passes the collision check. |

## Left out

- Reading obstacles from a CSV file and writing the node, edge and path CSV
  files are I/O. `write_nodes_csv` and `write_edges_csv` only format the
  tree's contents. The obstacle list is a parameter, already parsed into
  numbers, and the model covers the path walk of `write_path_csv`.
- `print` calls are omitted.
- Randomness is left out. The grid of `random_points` and `random.choice` are
  replaced by the batch of candidates supplied with each `Draw`.
- Floating-point rounding is not modelled. Coordinates are exact reals.
- Square roots are not modelled. Distances are compared squared. The length
  of the steering vector, which the source takes from `numpy.linalg.norm`,
  is supplied with each `Draw` and required to be the exact Euclidean length
  (`Steer.IsNorm`).
- Collision.NoIntersection: requires the segment's endpoints to differ. For
  a zero-length segment the source divides 0 by 0 and compares NaN values.
  That path is not modelled.
- Collision.CheckMotionIsCollisionFree: requires distinct endpoints when
  there are obstacles, for the same reason.
- Planner.Step: when obstacles exist, it requires the sample to differ from
  the nearest node's point. This covers the zero-length motion above.
- Steer.LocalPlanner: requires a non-negative step size. The source only
  ever passes 0.2.
- Planner.Run: stops when the supplied draws run out as well as on the
  loop's own condition. Its contract shows that 500 draws are always enough
  to reach the loop's own stop.
- There is no statement that the planner eventually finds a path. That
  depends on the random draws and the obstacle layout.
