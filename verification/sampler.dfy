/** Sample selection (`get_sample_point` and `Node.__lt__` in main.py): of a
    batch of candidate points, the one a priority queue ordered by the
    heuristic would hand out first. */
module Sampler {
  import opened Geometry

  /** The upper workspace bound; the heuristic measures distance to (GraphMax, GraphMax). */
  const GraphMax: real := 0.5

  /** The square of `Node.heuristic`: squared distance to (GraphMax, GraphMax). */
  function HeuristicSq(p: Point): real {
    DistSq(p, Point(GraphMax, GraphMax))
  }

  /** `Node.__lt__`: the smaller heuristic comes first. */
  predicate Less(a: Point, b: Point) {
    HeuristicSq(a) < HeuristicSq(b)
  }

  /** A candidate of minimal heuristic, the earliest such in the batch: a
      binary heap filled by pushes moves an item above another only when it
      is strictly smaller, so the head of the queue is the first candidate
      reaching the minimum. */
  function GetSamplePoint(batch: seq<Point>): (r: Point)
    requires |batch| > 0
    ensures r in batch
    ensures forall c :: c in batch ==> !Less(c, r)
  {
    if |batch| == 1 then batch[0]
    else
      var rest := GetSamplePoint(batch[1..]);
      assert forall c :: c in batch ==> c == batch[0] || c in batch[1..];
      if Less(rest, batch[0]) then rest else batch[0]
  }

  /** The chosen candidate is the first of minimal heuristic: it occurs in
      the batch at a position before which every candidate is strictly
      worse. */
  lemma {:induction false} GetSamplePointEarliest(batch: seq<Point>)
    requires |batch| > 0
    ensures exists i :: 0 <= i < |batch| && batch[i] == GetSamplePoint(batch)
                        && forall j :: 0 <= j < i ==> Less(GetSamplePoint(batch), batch[j])
    decreases |batch|
  {
    var r := GetSamplePoint(batch);
    if |batch| == 1 || !Less(GetSamplePoint(batch[1..]), batch[0]) {
      assert batch[0] == r;
    } else {
      GetSamplePointEarliest(batch[1..]);
      var i :| 0 <= i < |batch[1..]| && batch[1..][i] == r
               && forall j :: 0 <= j < i ==> Less(r, batch[1..][j]);
      assert batch[i + 1] == r;
      forall j | 0 <= j < i + 1
        ensures Less(r, batch[j])
      {
        if j > 0 {
          assert batch[j] == batch[1..][j - 1];
        }
      }
    }
  }
}
