/** Steering (`local_planner` in main.py): move from a tree node toward a
    target, but never by more than the step size. */
module Steer {
  import opened Geometry

  /** `m` is the Euclidean length of `v` (what `numpy.linalg.norm` computes,
      taken exactly). The caller supplies it, since the model has no square root. */
  predicate IsNorm(m: real, v: Point) {
    0.0 <= m && Sq(m) == NormSq(v)
  }

  /** The point reached from `start` toward `target` with a step of at most
      `step`: the target itself when it is close enough, otherwise the point
      at distance exactly `step` along the ray toward the target. The result
      is not clamped to the workspace. */
  function LocalPlanner(start: Point, target: Point, step: real, mag: real): (r: Point)
    requires 0.0 <= step
    requires IsNorm(mag, Sub(target, start))
    ensures r == target <==> DistSq(start, target) <= Sq(step)
    ensures DistSq(start, r) <= Sq(step)
    ensures DistSq(start, r) <= DistSq(start, target)
    ensures Sq(step) < DistSq(start, target) ==>
              && DistSq(start, r) == Sq(step)
              && Cross(Sub(r, start), Sub(target, start)) == 0.0
              && (0.0 < step ==> 0.0 < Dot(Sub(r, start), Sub(target, start)))
    ensures 0.0 < step ==> (r == start <==> target == start)
  {
    var direction := Sub(target, start);
    if mag > step then
      var r := Add(start, Scale(step / mag, direction));
      LongBranch(start, target, step, mag, r);
      r
    else
      ShortStep(start, target, step, mag);
      Add(start, direction)
  }

  lemma LongBranch(start: Point, target: Point, step: real, mag: real, r: Point)
    requires 0.0 <= step < mag
    requires IsNorm(mag, Sub(target, start))
    requires r == Add(start, Scale(step / mag, Sub(target, start)))
    ensures Sq(step) < DistSq(start, target)
    ensures r != target
    ensures DistSq(start, r) == Sq(step)
    ensures Cross(Sub(r, start), Sub(target, start)) == 0.0
    ensures 0.0 < step ==> 0.0 < Dot(Sub(r, start), Sub(target, start))
    ensures 0.0 < step ==> r != start && target != start
  {
    var v := Sub(target, start);
    var k := step / mag;
    var d := Scale(k, v);
    Quotient(step, mag);
    LongStep(v, step, mag, k, d);
    Displacement(start, d);
    if 0.0 < step {
      SqPositive(step);
      DistSqZero(start, r);
      DistSqZero(start, target);
    }
  }

  lemma Displacement(start: Point, d: Point)
    ensures Sub(Add(start, d), start) == d
  {
  }

  lemma ShortStep(start: Point, target: Point, step: real, mag: real)
    requires 0.0 <= step
    requires IsNorm(mag, Sub(target, start))
    requires mag <= step
    ensures Add(start, Sub(target, start)) == target
    ensures DistSq(start, target) <= Sq(step)
  {
    SqMonotone(mag, step);
  }

  /** The long-step displacement `d`, the direction scaled by `k == step / mag`,
      has length `step` and points toward the target. */
  lemma LongStep(v: Point, step: real, mag: real, k: real, d: Point)
    requires 0.0 <= step < mag
    requires IsNorm(mag, v)
    requires k * mag == step
    requires d == Scale(k, v)
    ensures Sq(step) < NormSq(v)
    ensures NormSq(d) == Sq(step)
    ensures Cross(d, v) == 0.0
    ensures 0.0 < k ==> 0.0 < Dot(d, v)
  {
    LongerThanStep(v, step, mag);
    ScaledLength(k, v, mag, step);
    ScaledParallel(k, v);
    if 0.0 < k {
      ScaledSameDirection(k, v);
    }
  }

  /** A vector whose length exceeds a non-negative step is longer than the
      step, and so is not the zero vector. */
  lemma LongerThanStep(v: Point, step: real, mag: real)
    requires 0.0 <= step < mag
    requires IsNorm(mag, v)
    ensures Sq(step) < NormSq(v)
    ensures v != Origin
  {
    SqStrict(step, mag);
    SqPositive(step);
    NormSqNonNegative(v);
  }

  lemma Quotient(a: real, b: real)
    requires 0.0 <= a && 0.0 < b
    ensures (a / b) * b == a
    ensures 0.0 < a ==> 0.0 < a / b
  {
  }

  /** Scaling a vector of length `m` by `k` with `k * m == s` gives length `s`. */
  lemma ScaledLength(k: real, v: Point, m: real, s: real)
    requires IsNorm(m, v)
    requires k * m == s
    ensures NormSq(Scale(k, v)) == Sq(s)
  {
    NormSqScale(k, v);
    assert Sq(k) * Sq(m) == Sq(k * m);
  }

  lemma ScaledParallel(k: real, v: Point)
    ensures Cross(Scale(k, v), v) == 0.0
  {
    assert (k * v.x) * v.y == (k * v.y) * v.x;
  }

  lemma ScaledSameDirection(k: real, v: Point)
    requires 0.0 < k && v != Origin
    ensures 0.0 < Dot(Scale(k, v), v)
  {
    NormSqNonNegative(v);
    assert Dot(Scale(k, v), v) == Mul(k, NormSq(v));
    MulPositive(k, NormSq(v));
  }
}
