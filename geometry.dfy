/**
 * Plain 2D/3D points and the "near" test every stitcher uses.
 * Coordinates are mathematical reals; the source's f32/f64 rounding is not modelled.
 */
module Geometry {

  datatype Vec2 = Vec2(x: real, y: real)

  /** A 2D location with its sampled elevation z. */
  datatype Vec3 = Vec3(x: real, y: real, z: real)

  function Sq(a: real): real { a * a }

  /** Squared Euclidean distance; comparing it avoids the square root. */
  function SqDist(p: Vec2, q: Vec2): real
  {
    Sq(p.x - q.x) + Sq(p.y - q.y)
  }

  /**
   * `p.distance(q) < eps`, stated without a square root: since a distance is
   * never negative, sqrt(D) < eps holds exactly when eps > 0 and D < eps * eps.
   */
  predicate Near(p: Vec2, q: Vec2, eps: real)
  {
    eps > 0.0 && SqDist(p, q) < eps * eps
  }

  lemma SqDistSymmetric(p: Vec2, q: Vec2)
    ensures SqDist(p, q) == SqDist(q, p)
  {
    assert Sq(p.x - q.x) == Sq(q.x - p.x);
    assert Sq(p.y - q.y) == Sq(q.y - p.y);
  }

  lemma NearSymmetric(p: Vec2, q: Vec2, eps: real)
    ensures Near(p, q, eps) <==> Near(q, p, eps)
  {
    SqDistSymmetric(p, q);
  }

  /** Near agrees with the Euclidean distance d = sqrt(SqDist(p, q)). */
  lemma NearIsDistanceBelow(p: Vec2, q: Vec2, eps: real, d: real)
    requires d >= 0.0 && d * d == SqDist(p, q)
    ensures Near(p, q, eps) <==> d < eps
  {
    if d < eps {
      SquareStrictMono(d, eps);
    } else if eps > 0.0 {
      SquareMono(eps, d);
    }
  }

  lemma SquareStrictMono(a: real, b: real)
    requires 0.0 <= a < b
    ensures a * a < b * b
  {
    var x, y, z := a * a, a * b, b * b;
    assert x <= y by { assert a * (b - a) >= 0.0; }
    assert y < z;
  }

  lemma SquareMono(a: real, b: real)
    requires 0.0 <= a <= b
    ensures a * a <= b * b
  {
    var x, y, z := a * a, a * b, b * b;
    assert x <= y by { assert a * (b - a) >= 0.0; }
    assert y <= z;
  }

  lemma MulRightStrict(a: real, b: real, c: real)
    requires c > 0.0 && a < b
    ensures a * c < b * c
  {
  }
}
