/**
 * Per-triangle threshold crossing of the "meandering triangles" contour
 * technique: a triangle whose vertices carry an elevation z yields, for one
 * threshold, either nothing or a two-point segment found by linear
 * interpolation along the two edges that cross the threshold.
 *
 * The four copies of `contour_line` (two in Rust, two in TypeScript) run the
 * same filter/partition/interpolate steps; they are modelled once here.
 */
module ContourExtract {
  import opened Wrappers
  import opened Geometry

  /** A triangle in 3 dimensions: always exactly three vertices. */
  datatype Triangle3 = Triangle3(v0: Vec3, v1: Vec3, v2: Vec3)

  /** Two points, each on a distinct edge of the originating triangle. */
  datatype Segment = Segment(p0: Vec2, p1: Vec2)

  /** A segment tagged with the threshold that produced it. */
  datatype Contour = Contour(line: Segment, threshold: real)

  function Vertices(tri: Triangle3): seq<Vec3>
  {
    [tri.v0, tri.v1, tri.v2]
  }

  /** The side of the threshold a vertex is on; z == threshold counts as above. */
  predicate IsAbove(v: Vec3, threshold: real)
  {
    v.z >= threshold
  }

  /** The vertices with z < threshold, in vertex order (`filter(|v| v.z < threshold)`). */
  function Below(vs: seq<Vec3>, threshold: real): (r: seq<Vec3>)
    ensures |r| <= |vs|
    ensures forall v :: v in r <==> v in vs && !IsAbove(v, threshold)
  {
    if vs == [] then []
    else (if vs[0].z < threshold then [vs[0]] else []) + Below(vs[1..], threshold)
  }

  /** The vertices with z >= threshold, in vertex order (`filter(|v| v.z >= threshold)`). */
  function Above(vs: seq<Vec3>, threshold: real): (r: seq<Vec3>)
    ensures |r| <= |vs|
    ensures forall v :: v in r <==> v in vs && IsAbove(v, threshold)
  {
    if vs == [] then []
    else (if vs[0].z >= threshold then [vs[0]] else []) + Above(vs[1..], threshold)
  }

  /** The two end vertices of an edge lie on opposite sides of the threshold. */
  predicate Straddles(a: Vec3, b: Vec3, threshold: real)
  {
    IsAbove(a, threshold) != IsAbove(b, threshold)
  }

  /**
   * `how_far`: the fraction of the way from `b` to `a` at which the edge
   * reaches the threshold. It lies in [0, 1] and interpolating the two
   * elevations with it gives back the threshold.
   */
  function HowFar(a: Vec3, b: Vec3, threshold: real): (h: real)
    requires Straddles(a, b, threshold)
    ensures 0.0 <= h <= 1.0
    ensures h * a.z + (1.0 - h) * b.z == threshold
  {
    var h := (threshold - b.z) / (a.z - b.z);
    Interpolates(h, a.z, b.z, threshold);
    if a.z < threshold then
      NegativeFractionInUnit(threshold - b.z, a.z - b.z);
      h
    else
      FractionInUnit(threshold - b.z, a.z - b.z);
      h
  }

  lemma Interpolates(h: real, az: real, bz: real, threshold: real)
    requires az != bz && h == (threshold - bz) / (az - bz)
    ensures h * az + (1.0 - h) * bz == threshold
  {
    assert h * (az - bz) == threshold - bz;
  }

  lemma FractionInUnit(n: real, d: real)
    requires 0.0 <= n <= d && d > 0.0
    ensures 0.0 <= n / d <= 1.0
  {
    assert (n / d) * d == n;
  }

  lemma NegativeFractionInUnit(n: real, d: real)
    requires d <= n <= 0.0 && d < 0.0
    ensures 0.0 <= n / d <= 1.0
  {
    assert (n / d) * d == n;
  }

  /** The point where the edge from `b` to `a` crosses the threshold. */
  function Crossing(a: Vec3, b: Vec3, threshold: real): (p: Vec2)
    requires Straddles(a, b, threshold)
  {
    var h := HowFar(a, b, threshold);
    Vec2(h * a.x + (1.0 - h) * b.x, h * a.y + (1.0 - h) * b.y)
  }

  /** The threshold separates the vertices: they are not all on one side. */
  predicate Crossed(tri: Triangle3, threshold: real)
  {
    IsAbove(tri.v0, threshold) != IsAbove(tri.v1, threshold) ||
    IsAbove(tri.v1, threshold) != IsAbove(tri.v2, threshold)
  }

  /**
   * The index (0, 1 or 2) of the vertex that is alone on its side of the
   * threshold, for a crossed triangle.
   */
  function LoneIndex(tri: Triangle3, threshold: real): (k: int)
    requires Crossed(tri, threshold)
    ensures 0 <= k < 3
  {
    if IsAbove(tri.v0, threshold) == IsAbove(tri.v1, threshold) then 2
    else if IsAbove(tri.v0, threshold) == IsAbove(tri.v2, threshold) then 1
    else 0
  }

  lemma BelowAboveOfTriangle(tri: Triangle3, threshold: real)
    ensures Below(Vertices(tri), threshold) ==
      (if tri.v0.z < threshold then [tri.v0] else []) +
      (if tri.v1.z < threshold then [tri.v1] else []) +
      (if tri.v2.z < threshold then [tri.v2] else [])
    ensures Above(Vertices(tri), threshold) ==
      (if tri.v0.z >= threshold then [tri.v0] else []) +
      (if tri.v1.z >= threshold then [tri.v1] else []) +
      (if tri.v2.z >= threshold then [tri.v2] else [])
  {
    var vs := Vertices(tri);
    assert vs[1..] == [tri.v1, tri.v2];
    assert vs[1..][1..] == [tri.v2];
    assert [tri.v2][1..] == [];
    assert Below([tri.v2], threshold) == (if tri.v2.z < threshold then [tri.v2] else []) + Below([], threshold);
    assert Above([tri.v2], threshold) == (if tri.v2.z >= threshold then [tri.v2] else []) + Above([], threshold);
  }

  /**
   * With k the vertex alone on its side of the threshold and i < j the other
   * two: `seg` joins the crossing on edge k-i to the crossing on edge k-j.
   */
  predicate CrossingOf(tri: Triangle3, threshold: real, seg: Segment)
    requires Crossed(tri, threshold)
  {
    var vs, k := Vertices(tri), LoneIndex(tri, threshold);
    var i, j := if k == 0 then 1 else 0, if k == 2 then 1 else 2;
    Straddles(vs[k], vs[i], threshold) && Straddles(vs[k], vs[j], threshold) &&
    seg == Segment(Crossing(vs[k], vs[i], threshold), Crossing(vs[k], vs[j], threshold))
  }

  /**
   * `contour_line`: None exactly when all three vertices are below
   * (z < threshold) or all are above (z >= threshold). Otherwise the vertex k
   * alone on its side gives the segment: one crossing point on each of the
   * two edges from vertex k, the other two vertices taken in vertex order.
   */
  function ContourLine(tri: Triangle3, threshold: real): (r: Option<Segment>)
    ensures r.Some? <==> Crossed(tri, threshold)
    ensures r.Some? ==> CrossingOf(tri, threshold, r.value)
  {
    var vs := Vertices(tri);
    var below := Below(vs, threshold);
    var above := Above(vs, threshold);
    OneSideEmpty(tri, threshold);
    if |above| == 0 || |below| == 0 then
      None
    else
      var minority, majority := Minority(tri, threshold), Majority(tri, threshold);
      MinorityMajority(tri, threshold);
      Some(Segment(Crossing(minority[0], majority[0], threshold),
                   Crossing(minority[0], majority[1], threshold)))
  }

  /** The below or the above list is empty exactly when the threshold misses the triangle. */
  lemma OneSideEmpty(tri: Triangle3, threshold: real)
    ensures |Above(Vertices(tri), threshold)| == 0 || |Below(Vertices(tri), threshold)| == 0 <==> !Crossed(tri, threshold)
  {
    BelowAboveOfTriangle(tri, threshold);
  }

  /** The shorter of the below and above lists of a triangle. */
  function Minority(tri: Triangle3, threshold: real): seq<Vec3>
  {
    var below, above := Below(Vertices(tri), threshold), Above(Vertices(tri), threshold);
    if |above| < |below| then above else below
  }

  /** The longer of the below and above lists of a triangle. */
  function Majority(tri: Triangle3, threshold: real): seq<Vec3>
  {
    var below, above := Below(Vertices(tri), threshold), Above(Vertices(tri), threshold);
    if |above| > |below| then above else below
  }

  /**
   * For a crossed triangle the minority list holds the lone vertex k and the
   * majority list the other two, in vertex order.
   */
  lemma MinorityMajority(tri: Triangle3, threshold: real)
    requires Crossed(tri, threshold)
    ensures var vs, k := Vertices(tri), LoneIndex(tri, threshold);
      var i, j := if k == 0 then 1 else 0, if k == 2 then 1 else 2;
      && Minority(tri, threshold) == [vs[k]] && Majority(tri, threshold) == [vs[i], vs[j]]
      && Straddles(vs[k], vs[i], threshold) && Straddles(vs[k], vs[j], threshold)
  {
    var a0, a1, a2 := IsAbove(tri.v0, threshold), IsAbove(tri.v1, threshold), IsAbove(tri.v2, threshold);
    if a0 == a1 {
      LoneLast(tri.v2, tri.v0, tri.v1, threshold);
    } else if a0 == a2 {
      LoneMiddle(tri.v1, tri.v0, tri.v2, threshold);
    } else {
      LoneFirst(tri.v0, tri.v1, tri.v2, threshold);
    }
  }

  /** Lone vertex `l` first, the other two `a`, `b` after it. */
  lemma LoneFirst(l: Vec3, a: Vec3, b: Vec3, threshold: real)
    requires IsAbove(a, threshold) == IsAbove(b, threshold) != IsAbove(l, threshold)
    ensures Minority(Triangle3(l, a, b), threshold) == [l] && Majority(Triangle3(l, a, b), threshold) == [a, b]
  {
    BelowAboveOfTriangle(Triangle3(l, a, b), threshold);
  }

  /** Lone vertex `l` between the other two. */
  lemma LoneMiddle(l: Vec3, a: Vec3, b: Vec3, threshold: real)
    requires IsAbove(a, threshold) == IsAbove(b, threshold) != IsAbove(l, threshold)
    ensures Minority(Triangle3(a, l, b), threshold) == [l] && Majority(Triangle3(a, l, b), threshold) == [a, b]
  {
    BelowAboveOfTriangle(Triangle3(a, l, b), threshold);
  }

  /** Lone vertex `l` last. */
  lemma LoneLast(l: Vec3, a: Vec3, b: Vec3, threshold: real)
    requires IsAbove(a, threshold) == IsAbove(b, threshold) != IsAbove(l, threshold)
    ensures Minority(Triangle3(a, b, l), threshold) == [l] && Majority(Triangle3(a, b, l), threshold) == [a, b]
  {
    BelowAboveOfTriangle(Triangle3(a, b, l), threshold);
  }

  /** None exactly when every vertex is below (z < threshold) or every vertex is above (z >= threshold). */
  lemma ContourLineNone(tri: Triangle3, threshold: real)
    ensures ContourLine(tri, threshold).None? <==>
      (tri.v0.z < threshold && tri.v1.z < threshold && tri.v2.z < threshold) ||
      (tri.v0.z >= threshold && tri.v1.z >= threshold && tri.v2.z >= threshold)
  {
  }

  /** A vertex exactly at the threshold counts as above, so it alone can make a crossing. */
  lemma VertexAtThresholdIsAbove(tri: Triangle3, threshold: real)
    requires tri.v0.z == threshold && tri.v1.z < threshold && tri.v2.z < threshold
    ensures ContourLine(tri, threshold).Some?
    ensures LoneIndex(tri, threshold) == 0
  {
  }

  /** The triangles the threshold crosses, in their original order. */
  function CrossedTriangles(triangles: seq<Triangle3>, threshold: real): (r: seq<Triangle3>)
    ensures |r| <= |triangles|
    ensures forall tri :: tri in r <==> tri in triangles && Crossed(tri, threshold)
  {
    if triangles == [] then []
    else
      (if Crossed(triangles[0], threshold) then [triangles[0]] else [])
      + CrossedTriangles(triangles[1..], threshold)
  }

  /** `filter_map`: the present results of `f` over `xs`, in order. */
  function FilterMap<A, B>(xs: seq<A>, f: A -> Option<B>): seq<B>
  {
    if xs == [] then []
    else (if f(xs[0]).Some? then [f(xs[0]).value] else []) + FilterMap(xs[1..], f)
  }

  /** The elements of `xs` on which `f` gives a result, in order. */
  function Hits<A, B>(xs: seq<A>, f: A -> Option<B>): seq<A>
  {
    if xs == [] then [] else (if f(xs[0]).Some? then [xs[0]] else []) + Hits(xs[1..], f)
  }

  /** The k-th result of `filter_map` is `f` of the k-th element that has one. */
  lemma {:induction false} FilterMapHits<A, B>(xs: seq<A>, f: A -> Option<B>)
    ensures |FilterMap(xs, f)| == |Hits(xs, f)| <= |xs|
    ensures forall k :: 0 <= k < |Hits(xs, f)| ==> f(Hits(xs, f)[k]) == Some(FilterMap(xs, f)[k])
  {
    if xs != [] {
      FilterMapHits(xs[1..], f);
      var r, h := FilterMap(xs[1..], f), Hits(xs[1..], f);
      if f(xs[0]).Some? {
        assert FilterMap(xs, f) == [f(xs[0]).value] + r && Hits(xs, f) == [xs[0]] + h;
        forall k | 1 <= k < |Hits(xs, f)|
          ensures f(Hits(xs, f)[k]) == Some(FilterMap(xs, f)[k])
        {
          assert Hits(xs, f)[k] == h[k - 1] && FilterMap(xs, f)[k] == r[k - 1];
        }
      } else {
        assert FilterMap(xs, f) == r && Hits(xs, f) == h;
      }
    }
  }

  /** A function with a result exactly on crossed triangles hits exactly the crossed triangles. */
  lemma {:induction false} HitsAreCrossed<B>(triangles: seq<Triangle3>, threshold: real, f: Triangle3 -> Option<B>)
    requires forall tri :: f(tri).Some? <==> Crossed(tri, threshold)
    ensures Hits(triangles, f) == CrossedTriangles(triangles, threshold)
  {
    if triangles != [] {
      HitsAreCrossed(triangles[1..], threshold, f);
    }
  }

  /**
   * `calc_contour`: one segment per crossed triangle, in triangle order;
   * triangles the threshold misses contribute nothing.
   */
  function CalcContour(threshold: real, triangles: seq<Triangle3>): (r: seq<Segment>)
    ensures |r| == |CrossedTriangles(triangles, threshold)| <= |triangles|
    ensures forall k :: 0 <= k < |r| ==>
      ContourLine(CrossedTriangles(triangles, threshold)[k], threshold) == Some(r[k])
  {
    var f := (tri: Triangle3) => ContourLine(tri, threshold);
    FilterMapHits(triangles, f);
    HitsAreCrossed(triangles, threshold, f);
    FilterMap(triangles, f)
  }

  /** `contourLine` of the threshold-partitioning sketch: the same segment, tagged with its threshold. */
  function TaggedContourLine(tri: Triangle3, threshold: real): (r: Option<Contour>)
    ensures r.Some? <==> Crossed(tri, threshold)
    ensures r.Some? ==> r.value.threshold == threshold && ContourLine(tri, threshold) == Some(r.value.line)
  {
    match ContourLine(tri, threshold)
    case None => None
    case Some(line) => Some(Contour(line, threshold))
  }

  /**
   * `calcContour` of the threshold-partitioning sketch: one contour per
   * crossed triangle, in triangle order, each tagged with the input threshold.
   */
  function CalcTaggedContour(threshold: real, triangles: seq<Triangle3>): (r: seq<Contour>)
    ensures |r| == |CrossedTriangles(triangles, threshold)|
    ensures forall k :: 0 <= k < |r| ==>
      r[k].threshold == threshold && ContourLine(CrossedTriangles(triangles, threshold)[k], threshold) == Some(r[k].line)
  {
    var f := (tri: Triangle3) => TaggedContourLine(tri, threshold);
    FilterMapHits(triangles, f);
    HitsAreCrossed(triangles, threshold, f);
    FilterMap(triangles, f)
  }

  /**
   * The triangle that `calcTriangles` builds for grid cell (row, col): even
   * columns use the corners (x0,y0), (x1,y0), (x1,y1), odd columns use
   * (x0,y0), (x0,y1), (x1,y1). As written, x advances by yStep and y by xStep.
   */
  function CellTriangle(elevation: (real, real) -> real, row: int, col: int, xStep: real, yStep: real): Triangle3
  {
    var x0, x1 := col as real * yStep, (col + 1) as real * yStep;
    var y0, y1 := row as real * xStep, (row + 1) as real * xStep;
    if col % 2 == 0 then
      Triangle3(Vec3(x0, y0, elevation(x0, y0)), Vec3(x1, y0, elevation(x1, y0)), Vec3(x1, y1, elevation(x1, y1)))
    else
      Triangle3(Vec3(x0, y0, elevation(x0, y0)), Vec3(x0, y1, elevation(x0, y1)), Vec3(x1, y1, elevation(x1, y1)))
  }

  /**
   * `calcTriangles`: one triangle per grid cell, (rowCount-1)*(columnCount-1)
   * in all, row by row; the k-th is the triangle of cell (k / w, k % w) with
   * w = columnCount - 1.
   */
  method CalcTriangles(elevation: (real, real) -> real, rowCount: int, columnCount: int, xStep: real, yStep: real)
    returns (triangles: seq<Triangle3>)
    ensures |triangles| == if rowCount > 1 && columnCount > 1 then (rowCount - 1) * (columnCount - 1) else 0
    ensures forall k :: 0 <= k < |triangles| ==>
      triangles[k] == CellTriangle(elevation, k / (columnCount - 1), k % (columnCount - 1), xStep, yStep)
  {
    triangles := [];
    var w := columnCount - 1;
    var row := 0;
    while row < rowCount - 1
      invariant rowCount > 1 ==> 0 <= row <= rowCount - 1
      invariant rowCount <= 1 ==> row == 0
      invariant |triangles| == if w > 0 then row * w else 0
      invariant forall k :: 0 <= k < |triangles| ==>
        triangles[k] == CellTriangle(elevation, k / w, k % w, xStep, yStep)
    {
      var col := 0;
      while col < w
        invariant w > 0 ==> 0 <= col <= w
        invariant w <= 0 ==> col == 0
        invariant |triangles| == if w > 0 then row * w + col else 0
        invariant forall k :: 0 <= k < |triangles| ==>
          triangles[k] == CellTriangle(elevation, k / w, k % w, xStep, yStep)
      {
        var x0, x1 := col as real * yStep, (col + 1) as real * yStep;
        var y0, y1 := row as real * xStep, (row + 1) as real * xStep;
        var tri;
        if col % 2 == 0 {
          tri := Triangle3(Vec3(x0, y0, elevation(x0, y0)), Vec3(x1, y0, elevation(x1, y0)), Vec3(x1, y1, elevation(x1, y1)));
        } else {
          tri := Triangle3(Vec3(x0, y0, elevation(x0, y0)), Vec3(x0, y1, elevation(x0, y1)), Vec3(x1, y1, elevation(x1, y1)));
        }
        assert tri == CellTriangle(elevation, row, col, xStep, yStep);
        DivModOfCell(row, col, w);
        AppendCell(triangles, tri, elevation, w, xStep, yStep);
        triangles := triangles + [tri];
        col := col + 1;
      }
      row := row + 1;
    }
  }

  lemma AppendCell(triangles: seq<Triangle3>, tri: Triangle3, elevation: (real, real) -> real, w: int, xStep: real, yStep: real)
    requires w > 0
    requires forall k :: 0 <= k < |triangles| ==> triangles[k] == CellTriangle(elevation, k / w, k % w, xStep, yStep)
    requires tri == CellTriangle(elevation, |triangles| / w, |triangles| % w, xStep, yStep)
    ensures forall k :: 0 <= k < |triangles| + 1 ==>
      (triangles + [tri])[k] == CellTriangle(elevation, k / w, k % w, xStep, yStep)
  {
  }

  lemma DivModOfCell(row: int, col: int, w: int)
    requires 0 <= row && 0 <= col < w
    ensures (row * w + col) / w == row && (row * w + col) % w == col
  {
    var k := row * w + col;
    var q, m := k / w, k % w;
    assert k == w * q + m;
    var d := row - q;
    assert w * d == m - col;
    if d >= 1 {
      assert w * d >= w * 1 by { MulMono(w, 1, d); }
    } else if d <= -1 {
      assert w * (-d) >= w * 1 by { MulMono(w, 1, -d); }
    }
  }

  lemma MulMono(w: int, a: int, b: int)
    requires w >= 0 && a <= b
    ensures w * a <= w * b
  {
  }
}
