/** Collision test of a straight motion against circular obstacles
    (`no_intersection` and `check_motion_is_collision_free` in main.py).
    The segment is checked at 21 equally spaced points, endpoints included;
    nothing between two neighbouring samples is looked at. */
module Collision {
  import opened Geometry

  /** Extra clearance added to every obstacle's radius (OBSTACLE_BUFFER). */
  const ObstacleBuffer: real := 0.02

  /** The segment is cut into this many pieces, giving SampleSteps + 1 samples. */
  const SampleSteps: nat := 20

  /** An obstacle as read from the obstacle list: centre and diameter. */
  datatype Obstacle = Obstacle(cx: real, cy: real, diameter: real)

  function Centre(o: Obstacle): Point {
    Point(o.cx, o.cy)
  }

  /** The radius actually tested: half the diameter plus the buffer. */
  function InflatedRadius(o: Obstacle): real {
    o.diameter / 2.0 + ObstacleBuffer
  }

  /** Sample `i` of the segment from `p1` to `p2`: `p1 + (i/20)(p2 - p1)`.
      The source computes `p1 + unit * (i/20) * |p2 - p1|`, which is the same
      point in exact arithmetic whenever `p1 != p2`. */
  function SamplePoint(p1: Point, p2: Point, i: nat): Point {
    Add(p1, Scale(i as real / SampleSteps as real, Sub(p2, p1)))
  }

  /** `sqrt(|p - c|^2) <= r`, stated without the root: a negative radius
      admits no point, a non-negative one compares squares. */
  predicate InDisk(p: Point, c: Point, r: real) {
    0.0 <= r && DistSq(c, p) <= Sq(r)
  }

  /** Some sample of the segment lies in the closed disk. */
  predicate SomeSampleInDisk(p1: Point, p2: Point, c: Point, r: real) {
    exists i: nat :: i <= SampleSteps && InDisk(SamplePoint(p1, p2, i), c, r)
  }

  /** The scan of samples `i`, `i + 1`, ..., 20, stopping at the first hit. */
  function ClearFrom(p1: Point, p2: Point, c: Point, r: real, i: nat): (ok: bool)
    requires i <= SampleSteps + 1
    ensures ok <==> forall j: nat :: i <= j <= SampleSteps ==> !InDisk(SamplePoint(p1, p2, j), c, r)
    decreases SampleSteps + 1 - i
  {
    if i == SampleSteps + 1 then true
    else if InDisk(SamplePoint(p1, p2, i), c, r) then false
    else ClearFrom(p1, p2, c, r, i + 1)
  }

  /** True when no sample of the segment lies within `r` of `c`.
      The source divides by `|p2 - p1|`, so a zero-length segment is excluded. */
  function NoIntersection(p1: Point, p2: Point, c: Point, r: real): (ok: bool)
    requires p1 != p2
    ensures ok <==> !SomeSampleInDisk(p1, p2, c, r)
  {
    ClearFrom(p1, p2, c, r, 0)
  }

  /** True when the motion clears every obstacle, each inflated by the buffer.
      With no obstacles the source never divides, so any segment is allowed. */
  function CheckMotionIsCollisionFree(obstacles: seq<Obstacle>, p1: Point, p2: Point): (ok: bool)
    requires p1 != p2 || |obstacles| == 0
    ensures ok <==> forall o :: o in obstacles ==> NoIntersection(p1, p2, Centre(o), InflatedRadius(o))
    ensures |obstacles| == 0 ==> ok
  {
    if |obstacles| == 0 then true
    else if NoIntersection(p1, p2, Centre(obstacles[0]), InflatedRadius(obstacles[0])) then
      CheckMotionIsCollisionFree(obstacles[1..], p1, p2)
    else false
  }

  lemma SampleEndpoints(p1: Point, p2: Point)
    ensures SamplePoint(p1, p2, 0) == p1
    ensures SamplePoint(p1, p2, SampleSteps) == p2
  {
  }

  /** Walking the segment backwards visits the same samples in reverse order. */
  lemma SampleReversed(p1: Point, p2: Point, i: nat)
    requires i <= SampleSteps
    ensures SamplePoint(p2, p1, i) == SamplePoint(p1, p2, SampleSteps - i)
  {
    var t := i as real / 20.0;
    var u := (SampleSteps - i) as real / 20.0;
    assert u == 1.0 - t;
    assert p2.x + t * (p1.x - p2.x) == p1.x + u * (p2.x - p1.x);
    assert p2.y + t * (p1.y - p2.y) == p1.y + u * (p2.y - p1.y);
  }

  /** A segment with an endpoint in the closed disk is always reported as blocked. */
  lemma EndpointInDiskBlocks(p1: Point, p2: Point, c: Point, r: real)
    requires p1 != p2
    requires InDisk(p1, c, r) || InDisk(p2, c, r)
    ensures !NoIntersection(p1, p2, c, r)
  {
    SampleEndpoints(p1, p2);
    if InDisk(p1, c, r) {
      assert InDisk(SamplePoint(p1, p2, 0), c, r);
    } else {
      assert InDisk(SamplePoint(p1, p2, SampleSteps), c, r);
    }
  }

  /** The test does not depend on the direction of travel. */
  lemma NoIntersectionSymmetric(p1: Point, p2: Point, c: Point, r: real)
    requires p1 != p2
    ensures NoIntersection(p1, p2, c, r) == NoIntersection(p2, p1, c, r)
  {
    if SomeSampleInDisk(p1, p2, c, r) {
      var i: nat :| i <= SampleSteps && InDisk(SamplePoint(p1, p2, i), c, r);
      SampleReversed(p2, p1, i);
      assert InDisk(SamplePoint(p2, p1, SampleSteps - i), c, r);
    }
    if SomeSampleInDisk(p2, p1, c, r) {
      var i: nat :| i <= SampleSteps && InDisk(SamplePoint(p2, p1, i), c, r);
      SampleReversed(p1, p2, i);
      assert InDisk(SamplePoint(p1, p2, SampleSteps - i), c, r);
    }
  }

  lemma CheckMotionSymmetric(obstacles: seq<Obstacle>, p1: Point, p2: Point)
    requires p1 != p2
    ensures CheckMotionIsCollisionFree(obstacles, p1, p2) == CheckMotionIsCollisionFree(obstacles, p2, p1)
  {
    forall o | o in obstacles
      ensures NoIntersection(p1, p2, Centre(o), InflatedRadius(o)) == NoIntersection(p2, p1, Centre(o), InflatedRadius(o))
    {
      NoIntersectionSymmetric(p1, p2, Centre(o), InflatedRadius(o));
    }
  }

  /** A motion that starts or ends inside an inflated obstacle is rejected. */
  lemma EndpointInObstacleBlocks(obstacles: seq<Obstacle>, p1: Point, p2: Point, k: nat)
    requires p1 != p2
    requires k < |obstacles|
    requires InDisk(p1, Centre(obstacles[k]), InflatedRadius(obstacles[k]))
          || InDisk(p2, Centre(obstacles[k]), InflatedRadius(obstacles[k]))
    ensures !CheckMotionIsCollisionFree(obstacles, p1, p2)
  {
    EndpointInDiskBlocks(p1, p2, Centre(obstacles[k]), InflatedRadius(obstacles[k]));
  }

  /** Sample `j` of the segment from (-1/2, 0) to (39/2, 0) sits at (j - 1/2, 0). */
  lemma ThinSampleClear(j: nat)
    requires j <= SampleSteps
    ensures !InDisk(SamplePoint(Point(-0.5, 0.0), Point(19.5, 0.0), j), Origin, 0.25)
  {
    var a := j as real - 0.5;
    assert SamplePoint(Point(-0.5, 0.0), Point(19.5, 0.0), j) == Point(a, 0.0);
    assert DistSq(Origin, Point(a, 0.0)) == Sq(a);
    if j == 0 {
      assert Sq(a) == 0.25;
    } else {
      SqStrict(0.25, a);
    }
  }

  /** The centre of the disk below lies on the segment, one fortieth of the way along. */
  lemma CentreOnThinSegment()
    ensures Origin == Add(Point(-0.5, 0.0), Scale(0.025, Sub(Point(19.5, 0.0), Point(-0.5, 0.0))))
  {
    assert Sub(Point(19.5, 0.0), Point(-0.5, 0.0)) == Point(20.0, 0.0);
    assert Scale(0.025, Point(20.0, 0.0)) == Point(0.5, 0.0);
  }

  /** Sampling is an approximation: the segment from (-1/2, 0) to (39/2, 0)
      passes through the centre of a disk of radius 1/4 (CentreOnThinSegment),
      yet every sample is at least 1/2 away from that centre, so the motion is
      accepted, also against an obstacle of diameter 0.46 at the origin, whose
      radius the buffer inflates to exactly 1/4. */
  lemma ThinObstacleMissed()
    ensures NoIntersection(Point(-0.5, 0.0), Point(19.5, 0.0), Origin, 0.25)
    ensures CheckMotionIsCollisionFree([Obstacle(0.0, 0.0, 0.46)], Point(-0.5, 0.0), Point(19.5, 0.0))
  {
    forall j: nat | j <= SampleSteps
      ensures !InDisk(SamplePoint(Point(-0.5, 0.0), Point(19.5, 0.0), j), Origin, 0.25)
    {
      ThinSampleClear(j);
    }
    var o := Obstacle(0.0, 0.0, 0.46);
    assert Centre(o) == Origin && InflatedRadius(o) == 0.25;
  }
}
