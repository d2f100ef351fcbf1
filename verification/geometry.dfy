/** Points and vectors of the 2-D workspace, in exact real arithmetic.
    Every distance is kept squared: for non-negative `a` and `b`,
    `sqrt(a) < sqrt(b)` exactly when `a < b`, so no square root is needed to
    compare two distances. */
module Geometry {

  datatype Point = Point(x: real, y: real)

  const Origin := Point(0.0, 0.0)

  function Sq(a: real): real {
    a * a
  }

  function Add(p: Point, v: Point): Point {
    Point(p.x + v.x, p.y + v.y)
  }

  /** The vector from `q` to `p`. */
  function Sub(p: Point, q: Point): Point {
    Point(p.x - q.x, p.y - q.y)
  }

  function Scale(k: real, v: Point): Point {
    Point(k * v.x, k * v.y)
  }

  function Dot(u: Point, v: Point): real {
    u.x * v.x + u.y * v.y
  }

  /** The z-component of the cross product; zero exactly when `u` and `v` are parallel. */
  function Cross(u: Point, v: Point): real {
    u.x * v.y - u.y * v.x
  }

  function NormSq(v: Point): real {
    Sq(v.x) + Sq(v.y)
  }

  /** Squared Euclidean distance from `p` to `q`. */
  function DistSq(p: Point, q: Point): real {
    NormSq(Sub(q, p))
  }

  /** A product kept behind a function name, so that sign facts about it are
      stated once (MulPositive) instead of left to nonlinear arithmetic in
      SqPositive and SqStrict. */
  function Mul(a: real, b: real): real {
    a * b
  }

  lemma MulPositive(a: real, b: real)
    requires 0.0 < a && 0.0 < b
    ensures 0.0 < Mul(a, b)
  {
    assert 0.0 < a * b;
  }

  lemma SqPositive(a: real)
    ensures 0.0 <= Sq(a)
    ensures a != 0.0 ==> 0.0 < Sq(a)
  {
    if 0.0 < a {
      MulPositive(a, a);
    } else if a < 0.0 {
      MulPositive(-a, -a);
      assert Mul(-a, -a) == Sq(a);
    }
  }

  lemma NormSqNonNegative(v: Point)
    ensures 0.0 <= NormSq(v)
    ensures NormSq(v) == 0.0 <==> v == Origin
  {
    SqPositive(v.x);
    SqPositive(v.y);
    if v.x == 0.0 && v.y == 0.0 {
      assert v == Origin;
    }
  }

  lemma SubZero(p: Point, q: Point)
    ensures Sub(q, p) == Origin <==> p == q
  {
    if Sub(q, p) == Origin {
      assert q.x - p.x == 0.0 && q.y - p.y == 0.0;
    }
  }

  lemma DistSqZero(p: Point, q: Point)
    ensures 0.0 <= DistSq(p, q)
    ensures DistSq(p, q) == 0.0 <==> p == q
  {
    SubZero(p, q);
    NormSqNonNegative(Sub(q, p));
  }

  lemma NormSqScale(k: real, v: Point)
    ensures NormSq(Scale(k, v)) == Sq(k) * NormSq(v)
  {
    assert Sq(k * v.x) == Sq(k) * Sq(v.x);
    assert Sq(k * v.y) == Sq(k) * Sq(v.y);
  }

  lemma SqStrict(a: real, b: real)
    requires 0.0 <= a < b
    ensures Sq(a) < Sq(b)
  {
    MulPositive(b - a, b + a);
    assert Mul(b - a, b + a) == Sq(b) - Sq(a);
  }

  /** For non-negative reals, comparing values and comparing their squares agree. */
  lemma SqMonotone(a: real, b: real)
    requires 0.0 <= a && 0.0 <= b
    ensures a < b <==> Sq(a) < Sq(b)
    ensures a <= b <==> Sq(a) <= Sq(b)
  {
    if a < b {
      SqStrict(a, b);
    } else if b < a {
      SqStrict(b, a);
    }
  }
}
