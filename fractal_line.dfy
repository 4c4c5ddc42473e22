/**
 * The fractalized line of the SVG library: a polyline whose every segment is
 * repeatedly split at an offset midpoint. The offset function (a random
 * perpendicular displacement in the library) is a parameter here.
 */
module FractalLine {
  import opened Geometry

  datatype LineSegment = LineSegment(start: Vec2, end: Vec2)

  /** The offset function: the new point between `start` and `end`, for an offset percentage. */
  type OffsetFn = (Vec2, Vec2, real) -> Vec2

  /**
   * One subdivision pass: each point followed by the offset point to its
   * successor, and the last point at the end.
   */
  function Pass(p: seq<Vec2>, offset: OffsetFn, pct: real): (r: seq<Vec2>)
    requires p != []
    ensures |r| == 2 * |p| - 1
  {
    if |p| == 1 then [p[0]] else [p[0], offset(p[0], p[1], pct)] + Pass(p[1..], offset, pct)
  }

  /** The layout of a pass: the original points at even indices, the offset points between them at odd ones. */
  lemma PassShape(p: seq<Vec2>, offset: OffsetFn, pct: real)
    requires p != []
    ensures var r := Pass(p, offset, pct);
      (forall k :: 0 <= k < |p| ==> r[2 * k] == p[k]) &&
      (forall k :: 0 <= k < |p| - 1 ==> r[2 * k + 1] == offset(p[k], p[k + 1], pct))
  {
    PassKeepsPoints(p, offset, pct);
    PassInsertsOffsets(p, offset, pct);
  }

  lemma {:induction false} PassKeepsPoints(p: seq<Vec2>, offset: OffsetFn, pct: real)
    requires p != []
    ensures forall k :: 0 <= k < |p| ==> Pass(p, offset, pct)[2 * k] == p[k]
  {
    if |p| > 1 {
      var r, rest := Pass(p, offset, pct), Pass(p[1..], offset, pct);
      PassKeepsPoints(p[1..], offset, pct);
      assert r == [p[0], offset(p[0], p[1], pct)] + rest;
      forall k | 1 <= k < |p|
        ensures r[2 * k] == p[k]
      {
        assert r[2 * k] == rest[2 * (k - 1)] && p[1..][k - 1] == p[k];
      }
    }
  }

  lemma {:induction false} PassInsertsOffsets(p: seq<Vec2>, offset: OffsetFn, pct: real)
    requires p != []
    ensures forall k :: 0 <= k < |p| - 1 ==> Pass(p, offset, pct)[2 * k + 1] == offset(p[k], p[k + 1], pct)
  {
    if |p| > 1 {
      var r, rest := Pass(p, offset, pct), Pass(p[1..], offset, pct);
      PassInsertsOffsets(p[1..], offset, pct);
      assert r == [p[0], offset(p[0], p[1], pct)] + rest;
      forall k | 1 <= k < |p| - 1
        ensures r[2 * k + 1] == offset(p[k], p[k + 1], pct)
      {
        assert r[2 * k + 1] == rest[2 * (k - 1) + 1] && p[1..][k - 1] == p[k] && p[1..][k] == p[k + 1];
      }
    }
  }

  /** `subdivisions` passes, one after another. */
  function Subdivided(p: seq<Vec2>, subdivisions: nat, offset: OffsetFn, pct: real): (r: seq<Vec2>)
    requires p != []
    ensures r != []
    decreases subdivisions
  {
    if subdivisions == 0 then p else Subdivided(Pass(p, offset, pct), subdivisions - 1, offset, pct)
  }

  function Pow2(k: nat): nat
  {
    if k == 0 then 1 else 2 * Pow2(k - 1)
  }

  /** After k passes, n points have become (n - 1) * 2^k + 1. */
  lemma {:induction false} SubdividedLength(p: seq<Vec2>, subdivisions: nat, offset: OffsetFn, pct: real)
    requires p != []
    ensures |Subdivided(p, subdivisions, offset, pct)| == (|p| - 1) * Pow2(subdivisions) + 1
    decreases subdivisions
  {
    if subdivisions > 0 {
      var q := Pass(p, offset, pct);
      var r := Subdivided(q, subdivisions - 1, offset, pct);
      SubdividedLength(q, subdivisions - 1, offset, pct);
      assert Subdivided(p, subdivisions, offset, pct) == r;
      LengthStep(|p|, |q|, |r|, Pow2(subdivisions - 1), Pow2(subdivisions));
    }
  }

  /** One more pass doubles the number of gaps between points. */
  lemma LengthStep(lenP: int, lenQ: int, lenR: int, m: int, d: int)
    requires lenQ - 1 == 2 * (lenP - 1) && lenR == (lenQ - 1) * m + 1 && d == 2 * m
    ensures lenR == (lenP - 1) * d + 1
  {
  }

  /** After k passes, original point j sits at index j * 2^k: the first and the last point stay where they were. */
  lemma {:induction false} SubdividedKeepsOriginals(p: seq<Vec2>, subdivisions: nat, offset: OffsetFn, pct: real)
    requires p != []
    ensures var r := Subdivided(p, subdivisions, offset, pct);
      forall j :: 0 <= j < |p| ==> j * Pow2(subdivisions) < |r| && r[j * Pow2(subdivisions)] == p[j]
    decreases subdivisions
  {
    if subdivisions > 0 {
      var q := Pass(p, offset, pct);
      PassKeepsPoints(p, offset, pct);
      SubdividedKeepsOriginals(q, subdivisions - 1, offset, pct);
      var r := Subdivided(p, subdivisions, offset, pct);
      var m, d := Pow2(subdivisions - 1), Pow2(subdivisions);
      assert d == 2 * m;
      forall j | 0 <= j < |p|
        ensures j * d < |r| && r[j * d] == p[j]
      {
        var i := 2 * j;
        assert q[i] == p[j];
        assert i * m < |r| && r[i * m] == q[i];
        Stride(i, j, m, d);
      }
    }
  }

  /** Index 2j at stride m is index j at stride 2m. */
  lemma Stride(i: int, j: int, m: int, d: int)
    requires i == 2 * j && d == 2 * m
    ensures i * m == j * d
  {
  }

  /** The last point of the line stays last through every pass. */
  lemma SubdividedKeepsEnds(p: seq<Vec2>, subdivisions: nat, offset: OffsetFn, pct: real)
    requires p != []
    ensures var r := Subdivided(p, subdivisions, offset, pct);
      r[0] == p[0] && r[|r| - 1] == p[|p| - 1]
  {
    SubdividedKeepsOriginals(p, subdivisions, offset, pct);
    SubdividedLength(p, subdivisions, offset, pct);
    assert 0 * Pow2(subdivisions) == 0;
  }

  /** The line: its points, replaced wholesale by each subdivision pass. */
  class FractalizedLine {
    var points: seq<Vec2>

    constructor(points: seq<Vec2>)
      ensures this.points == points
    {
      this.points := points;
    }

    /** The `segments` getter: one segment per pair of consecutive points. */
    method Segments() returns (segments: seq<LineSegment>)
      ensures |segments| == if |points| == 0 then 0 else |points| - 1
      ensures forall i :: 0 <= i < |segments| ==> segments[i] == LineSegment(points[i], points[i + 1])
    {
      segments := [];
      var i := 0;
      while i < |points| - 1
        invariant 0 <= i <= if |points| == 0 then 0 else |points| - 1
        invariant |segments| == i
        invariant forall k :: 0 <= k < i ==> segments[k] == LineSegment(points[k], points[k + 1])
      {
        segments := segments + [LineSegment(points[i], points[i + 1])];
        i := i + 1;
      }
    }

    /** `subdivide`: `subdivisions` passes, each rebuilding the points array. */
    method Subdivide(subdivisions: nat, pct: real, offset: OffsetFn)
      requires points != []
      modifies this
      ensures points == Subdivided(old(points), subdivisions, offset, pct)
    {
      var i := 0;
      while i < subdivisions
        invariant 0 <= i <= subdivisions && points != []
        invariant Subdivided(points, subdivisions - i, offset, pct) == Subdivided(old(points), subdivisions, offset, pct)
      {
        var newPoints := SubdivideOnce(points, pct, offset);
        points := newPoints;
        i := i + 1;
      }
    }
  }

  /** The body of one pass: push each point and its offset point, then the last point. */
  method SubdivideOnce(points: seq<Vec2>, pct: real, offset: OffsetFn) returns (newPoints: seq<Vec2>)
    requires points != []
    ensures newPoints == Pass(points, offset, pct)
  {
    newPoints := [];
    var j := 0;
    while j < |points| - 1
      invariant 0 <= j <= |points| - 1
      invariant |newPoints| == 2 * j
      invariant forall k :: 0 <= k < j ==> newPoints[2 * k] == points[k] && newPoints[2 * k + 1] == offset(points[k], points[k + 1], pct)
    {
      var current, next := points[j], points[j + 1];
      var mid := offset(current, next, pct);
      newPoints := newPoints + [current, mid];
      j := j + 1;
    }
    newPoints := newPoints + [points[|points| - 1]];
    PassUnique(points, offset, pct, newPoints);
  }

  /** A sequence with the even/odd layout of a pass is that pass. */
  lemma PassUnique(p: seq<Vec2>, offset: OffsetFn, pct: real, s: seq<Vec2>)
    requires p != [] && |s| == 2 * |p| - 1
    requires forall k :: 0 <= k < |p| ==> s[2 * k] == p[k]
    requires forall k :: 0 <= k < |p| - 1 ==> s[2 * k + 1] == offset(p[k], p[k + 1], pct)
    ensures s == Pass(p, offset, pct)
  {
    var r := Pass(p, offset, pct);
    PassShape(p, offset, pct);
    forall i | 0 <= i < |s|
      ensures s[i] == r[i]
    {
      var k := i / 2;
      if i % 2 == 0 {
        assert i == 2 * k && r[2 * k] == p[k];
      } else {
        assert i == 2 * k + 1 && r[2 * k + 1] == offset(p[k], p[k + 1], pct);
      }
    }
  }
}
