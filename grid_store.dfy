/**
 * The 2D grid of the SVG library: a data store over a flat JavaScript array,
 * addressed by (i, j), that doubles as an iterator over the points of a
 * stepped rectangle.
 *
 * Coordinates, bounds and steps are integers here. The array is a map from
 * index to value, because a JavaScript array read at a hole or past its end
 * gives `undefined` (None) and a write past its end grows it.
 */
module GridStore {
  import opened Wrappers

  /** The `order` attribute; any value other than 'row major' behaves as column major. */
  datatype Order = RowMajor | ColumnMajor

  datatype Point = Point(x: int, y: int)

  /** `Math.floor(a / b)` for integers, with `b` of either sign. */
  function FloorDiv(a: int, b: int): int
    requires b != 0
  {
    if b > 0 then a / b else (-a) / (-b)
  }

  /** The floor quotient is the largest q with q*b not past a, on the side b points to. */
  lemma FloorDivBounds(a: int, b: int)
    requires b != 0
    ensures b > 0 ==> b * FloorDiv(a, b) <= a < b * FloorDiv(a, b) + b
    ensures b < 0 ==> b * FloorDiv(a, b) >= a > b * FloorDiv(a, b) + b
  {
    var q := FloorDiv(a, b);
    if b < 0 {
      assert (-b) * q <= -a < (-b) * q + (-b);
    }
  }

  /** The far bound: a truthy (non-zero) count overrides the given maximum. */
  function Extent(min: int, max: int, count: Option<int>): int
  {
    if count.Some? && count.value != 0 then min + count.value else max
  }

  /** The count: the given one, even 0, or else how many whole steps fit. */
  function Count(min: int, max: int, step: int, count: Option<int>): int
    requires count.None? ==> step != 0
  {
    if count.Some? then count.value else FloorDiv(Extent(min, max, count) - min, step)
  }

  /** The sizing rules of the constructor, for one axis. */
  lemma CountRule(min: int, max: int, step: int, count: Option<int>)
    requires count.None? ==> step != 0
    ensures count.Some? && count.value != 0 ==> Extent(min, max, count) == min + count.value
    ensures count.Some? ==> Count(min, max, step, count) == count.value
    ensures count.None? ==> Extent(min, max, count) == max
    ensures count.None? && step > 0 ==>
      step * Count(min, max, step, count) <= max - min < step * (Count(min, max, step, count) + 1)
  {
    if count.None? {
      FloorDivBounds(max - min, step);
    }
  }

  /** `#index`: the flat position of cell (i, j) in the given layout. */
  function CellIndex(order: Order, columnCount: int, rowCount: int, i: int, j: int): (k: int)
    ensures 0 <= i < columnCount && 0 <= j < rowCount ==> 0 <= k < columnCount * rowCount
  {
    if order == RowMajor then
      IndexBound(columnCount, rowCount, j, i);
      columnCount * j + i
    else
      IndexBound(rowCount, columnCount, i, j);
      rowCount * i + j
  }

  lemma IndexBound(inner: int, outer: int, o: int, n: int)
    ensures 0 <= n < inner && 0 <= o < outer ==> 0 <= inner * o + n < inner * outer
  {
    if 0 <= n < inner && 0 <= o < outer {
      assert inner * o <= inner * (outer - 1) by {
        MulLeftMono(inner, o, outer - 1);
      }
    }
  }

  lemma MulLeftMono(a: int, b: int, c: int)
    requires 0 <= a && b <= c
    ensures a * b <= a * c
  {
  }

  /** Within the grid, distinct cells have distinct flat positions. */
  lemma {:induction false} IndexInjective(order: Order, columnCount: int, rowCount: int, i: int, j: int, i2: int, j2: int)
    requires 0 <= i < columnCount && 0 <= j < rowCount
    requires 0 <= i2 < columnCount && 0 <= j2 < rowCount
    ensures CellIndex(order, columnCount, rowCount, i, j) == CellIndex(order, columnCount, rowCount, i2, j2) <==>
      i == i2 && j == j2
  {
    if order == RowMajor {
      PositionalInjective(columnCount, j, i, j2, i2);
    } else {
      PositionalInjective(rowCount, i, j, i2, j2);
    }
  }

  lemma PositionalInjective(n: int, o: int, r: int, o2: int, r2: int)
    requires 0 <= r < n && 0 <= r2 < n
    ensures n * o + r == n * o2 + r2 <==> o == o2 && r == r2
  {
    if o < o2 {
      MulLeftMono(n, o + 1, o2);
      assert n * o + r < n * (o + 1) <= n * o2;
    } else if o2 < o {
      MulLeftMono(n, o2 + 1, o);
      assert n * o2 + r2 < n * (o2 + 1) <= n * o;
    }
  }

  /** Out of range, two cells can share a position: (columnCount, 0) is (0, 1) in row-major order. */
  lemma IndexAliasesPastRow(columnCount: int, rowCount: int)
    ensures CellIndex(RowMajor, columnCount, rowCount, columnCount, 0) == CellIndex(RowMajor, columnCount, rowCount, 0, 1)
  {
  }

  /** The values of `for (v = lo; v < hi; v += step)`. */
  function Range(lo: int, hi: int, step: int): (r: seq<int>)
    requires step > 0
    ensures forall k :: 0 <= k < |r| ==> r[k] == lo + k * step && r[k] < hi
    ensures lo + |r| * step >= hi
    decreases hi - lo
  {
    if lo < hi then [lo] + Range(lo + step, hi, step) else []
  }

  /** The point for an outer value `o` and an inner value `n`. */
  function Pt(o: int, n: int, outerIsX: bool): Point
  {
    if outerIsX then Point(o, n) else Point(n, o)
  }

  /** The inner loop: one point per inner value. */
  function Row(o: int, inner: seq<int>, outerIsX: bool): (r: seq<Point>)
    ensures |r| == |inner|
    ensures forall k :: 0 <= k < |r| ==> r[k] == Pt(o, inner[k], outerIsX)
  {
    if inner == [] then [] else [Pt(o, inner[0], outerIsX)] + Row(o, inner[1..], outerIsX)
  }

  /** The nested loops: a row of inner values for each outer value. */
  function Sweep(outer: seq<int>, inner: seq<int>, outerIsX: bool): seq<Point>
  {
    if outer == [] then [] else Row(outer[0], inner, outerIsX) + Sweep(outer[1..], inner, outerIsX)
  }

  /** `s` lists, at position |inner| * q + r, the point for outer value q and inner value r. */
  predicate SweepShape(s: seq<Point>, outer: seq<int>, inner: seq<int>, outerIsX: bool)
  {
    && |s| == |outer| * |inner|
    && forall q, r :: 0 <= q < |outer| && 0 <= r < |inner| ==>
         0 <= |inner| * q + r < |s| && s[|inner| * q + r] == Pt(outer[q], inner[r], outerIsX)
  }

  /** The point in row q, column r of a sweep is the one for outer value q and inner value r. */
  lemma {:induction false} SweepAt(outer: seq<int>, inner: seq<int>, outerIsX: bool)
    ensures SweepShape(Sweep(outer, inner, outerIsX), outer, inner, outerIsX)
  {
    if outer != [] {
      SweepAt(outer[1..], inner, outerIsX);
      SweepCons(outer, inner, outerIsX, Sweep(outer[1..], inner, outerIsX));
    }
  }

  lemma SweepCons(outer: seq<int>, inner: seq<int>, outerIsX: bool, rest: seq<Point>)
    requires outer != [] && SweepShape(rest, outer[1..], inner, outerIsX)
    ensures SweepShape(Row(outer[0], inner, outerIsX) + rest, outer, inner, outerIsX)
  {
    SweepConsLength(outer, inner, outerIsX, rest);
    forall q, r | 0 <= q < |outer| && 0 <= r < |inner|
      ensures var s := Row(outer[0], inner, outerIsX) + rest;
        0 <= |inner| * q + r < |s| && s[|inner| * q + r] == Pt(outer[q], inner[r], outerIsX)
    {
      SweepConsCell(outer, inner, outerIsX, rest, q, r);
    }
  }

  lemma SweepConsLength(outer: seq<int>, inner: seq<int>, outerIsX: bool, rest: seq<Point>)
    requires outer != [] && |rest| == (|outer| - 1) * |inner|
    ensures |Row(outer[0], inner, outerIsX) + rest| == |outer| * |inner|
  {
    ShiftRow(|inner|, |outer|, 0);
  }

  lemma SweepConsCell(outer: seq<int>, inner: seq<int>, outerIsX: bool, rest: seq<Point>, q: int, r: int)
    requires outer != [] && SweepShape(rest, outer[1..], inner, outerIsX)
    requires 0 <= q < |outer| && 0 <= r < |inner|
    ensures var s := Row(outer[0], inner, outerIsX) + rest;
      0 <= |inner| * q + r < |s| && s[|inner| * q + r] == Pt(outer[q], inner[r], outerIsX)
  {
    var n := |inner|;
    var s := Row(outer[0], inner, outerIsX) + rest;
    ShiftRow(n, |outer|, 0);
    IndexBound(n, |outer|, q, r);
    if q > 0 {
      ShiftRow(n, q, r);
      assert outer[1..][q - 1] == outer[q];
      assert s[n * q + r] == rest[n * (q - 1) + r];
    }
  }

  lemma ZeroProduct(m: int)
    ensures m * 0 == 0
  {
  }

  lemma ShiftRow(n: int, q: int, r: int)
    ensures n * q + r == n + (n * (q - 1) + r)
  {
  }

  /** The order in which the iterator yields its points, as written: row major runs x in the OUTER loop. */
  function Iteration(xMin: int, xMax: int, yMin: int, yMax: int, xStep: int, yStep: int, order: Order): seq<Point>
    requires xStep > 0 && yStep > 0
  {
    if order == RowMajor then Sweep(Range(xMin, xMax, xStep), Range(yMin, yMax, yStep), true)
    else Sweep(Range(yMin, yMax, yStep), Range(xMin, xMax, xStep), false)
  }

  /** The order the tests and the storage layout call for: row major runs x in the INNER loop. */
  function IntendedIteration(xMin: int, xMax: int, yMin: int, yMax: int, xStep: int, yStep: int, order: Order): seq<Point>
    requires xStep > 0 && yStep > 0
  {
    Iteration(xMin, xMax, yMin, yMax, xStep, yStep, if order == RowMajor then ColumnMajor else RowMajor)
  }

  /** The default grid, x in [0, 1) and y in [0, 1) with unit steps, yields the one point (0, 0). */
  lemma DefaultIteratesOrigin()
    ensures Iteration(0, 1, 0, 1, 1, 1, RowMajor) == [Point(0, 0)]
  {
    assert Range(0, 1, 1) == [0];
    assert Row(0, [0], true) == [Point(0, 0)];
  }

  /**
   * As written, the row-major iteration of x in [2, 4) and y in [2, 4)
   * visits (2, 3) second, where the storage layout and the tests put (3, 2).
   */
  lemma RowMajorRunsColumnsFirst()
    ensures var it := Iteration(2, 4, 2, 4, 1, 1, RowMajor);
      |it| == 4 && it[1] == Point(2, 3) && it[2] == Point(3, 2)
  {
    var xs := Range(2, 4, 1);
    UnitRange(2, 4);
    SweepAt(xs, xs, true);
    var it := Iteration(2, 4, 2, 4, 1, 1, RowMajor);
    assert it[1] == it[2 * 0 + 1] && it[2] == it[2 * 1 + 0];
  }

  /**
   * The intended iteration over a whole unit-step grid from the origin
   * yields the cell at flat position k as its k-th point, in either layout.
   */
  lemma IntendedFollowsIndex(columnCount: nat, rowCount: nat, order: Order)
    ensures var it := IntendedIteration(0, columnCount, 0, rowCount, 1, 1, order);
      |it| == columnCount * rowCount &&
      forall k :: 0 <= k < |it| ==>
        0 <= it[k].x < columnCount && 0 <= it[k].y < rowCount &&
        CellIndex(order, columnCount, rowCount, it[k].x, it[k].y) == k
  {
    var xs, ys := Range(0, columnCount, 1), Range(0, rowCount, 1);
    var it := IntendedIteration(0, columnCount, 0, rowCount, 1, 1, order);
    UnitRange(0, columnCount);
    UnitRange(0, rowCount);
    if order == RowMajor {
      SweepAt(ys, xs, false);
      forall k | 0 <= k < |it|
        ensures 0 <= it[k].x < columnCount && 0 <= it[k].y < rowCount
        ensures CellIndex(order, columnCount, rowCount, it[k].x, it[k].y) == k
      {
        var q, r := SweepCell(it, ys, xs, false, k);
      }
    } else {
      SweepAt(xs, ys, true);
      forall k | 0 <= k < |it|
        ensures 0 <= it[k].x < columnCount && 0 <= it[k].y < rowCount
        ensures CellIndex(order, columnCount, rowCount, it[k].x, it[k].y) == k
      {
        var q, r := SweepCell(it, xs, ys, true, k);
      }
    }
  }

  /** Position k of a sweep is row q = k / |inner|, column r = k % |inner|. */
  lemma SweepCell(s: seq<Point>, outer: seq<int>, inner: seq<int>, outerIsX: bool, k: int) returns (q: int, r: int)
    requires SweepShape(s, outer, inner, outerIsX) && 0 <= k < |s|
    ensures 0 <= q < |outer| && 0 <= r < |inner| && k == |inner| * q + r
    ensures s[k] == Pt(outer[q], inner[r], outerIsX)
  {
    var n := |inner|;
    if n == 0 {
      ZeroProduct(|outer|);
    }
    DivBelow(k, n, |outer|);
    q, r := k / n, k % n;
  }

  /** With unit steps, the loop from lo to hi visits lo, lo + 1, ..., hi - 1. */
  lemma UnitRange(lo: int, hi: int)
    requires lo <= hi
    ensures |Range(lo, hi, 1)| == hi - lo && forall k :: 0 <= k < hi - lo ==> Range(lo, hi, 1)[k] == lo + k
  {
    var r := Range(lo, hi, 1);
    if r != [] {
      assert r[|r| - 1] == lo + |r| - 1;
    }
  }

  lemma DivBelow(k: int, n: int, m: int)
    requires 0 <= k < n * m && 0 < n
    ensures 0 <= k / n < m && 0 <= k % n < n && n * (k / n) + k % n == k
  {
    if k / n >= m {
      MulLeftMono(n, m, k / n);
    }
  }

  /** `new Array(n).fill(v)`: every slot of [0, n) holds v. */
  function Filled<T>(n: int, v: T): (r: map<int, T>)
    ensures forall k :: k in r <==> 0 <= k < n
    ensures forall k :: k in r ==> r[k] == v
    decreases n
  {
    if n <= 0 then map[] else Filled(n - 1, v)[n - 1 := v]
  }

  /** The grid: its bounds and steps, its layout, and the backing array. */
  class Grid<T> {
    const xMin: int
    const xMax: int
    const yMin: int
    const yMax: int
    const xStep: int
    const yStep: int
    const order: Order
    const columnCount: int
    const rowCount: int
    /** The backing array, by index; a missing index reads as `undefined`. */
    var cells: map<int, T>
    /** The backing array's `length`. */
    var length: int

    /** The constructor, every attribute given (the defaults are xMin 0, xMax 1, yMin 0, yMax 1, steps 1, row major). */
    constructor(xMin: int, xMax: int, yMin: int, yMax: int, xStep: int, yStep: int, order: Order,
                columnCount: Option<int>, rowCount: Option<int>, fill: Option<T>)
      // a zero step with no count makes the length Infinity or NaN, for which `new Array` throws
      requires columnCount.None? ==> xStep != 0
      requires rowCount.None? ==> yStep != 0
      // `new Array(n)` throws for a negative length
      requires Count(xMin, xMax, xStep, columnCount) * Count(yMin, yMax, yStep, rowCount) >= 0
      ensures this.xMin == xMin && this.yMin == yMin && this.xStep == xStep && this.yStep == yStep
      ensures this.order == order
      ensures this.xMax == Extent(xMin, xMax, columnCount) && this.yMax == Extent(yMin, yMax, rowCount)
      ensures this.columnCount == Count(xMin, xMax, xStep, columnCount)
      ensures this.rowCount == Count(yMin, yMax, yStep, rowCount)
      ensures length == this.columnCount * this.rowCount
      ensures cells == if fill.Some? then Filled(length, fill.value) else map[]
      ensures forall i, j :: 0 <= i < this.columnCount && 0 <= j < this.rowCount ==> Get(i, j) == fill
    {
      this.xMin := xMin;
      this.xMax := Extent(xMin, xMax, columnCount);
      this.yMin := yMin;
      this.yMax := Extent(yMin, yMax, rowCount);
      this.xStep := xStep;
      this.yStep := yStep;
      var c := Count(xMin, xMax, xStep, columnCount);
      var r := Count(yMin, yMax, yStep, rowCount);
      this.columnCount := c;
      this.rowCount := r;
      this.order := order;
      length := c * r;
      if fill.Some? {
        cells := Filled(c * r, fill.value);
      } else {
        cells := map[];
      }
    }

    /** `get(i, j)`: the value at the cell's flat position, or `undefined`. */
    function Get(i: int, j: int): Option<T>
      reads this
    {
      var k := CellIndex(order, columnCount, rowCount, i, j);
      if k in cells then Some(cells[k]) else None
    }

    /** `set(i, j, value)`: writes one array slot, growing the array past its end. */
    method Set(i: int, j: int, value: T)
      modifies this
      ensures var k := CellIndex(order, columnCount, rowCount, i, j);
        cells == old(cells)[k := value] && length == if k >= old(length) then k + 1 else old(length)
      ensures Get(i, j) == Some(value)
      ensures 0 <= i < columnCount && 0 <= j < rowCount ==>
        forall i2, j2 :: 0 <= i2 < columnCount && 0 <= j2 < rowCount && (i2, j2) != (i, j) ==>
          Get(i2, j2) == old(Get(i2, j2))
    {
      var k := CellIndex(order, columnCount, rowCount, i, j);
      cells := cells[k := value];
      if k >= length {
        length := k + 1;
      }
      forall i2, j2 | 0 <= i2 < columnCount && 0 <= j2 < rowCount && (i2, j2) != (i, j) &&
                      0 <= i < columnCount && 0 <= j < rowCount
        ensures Get(i2, j2) == old(Get(i2, j2))
      {
        IndexInjective(order, columnCount, rowCount, i, j, i2, j2);
      }
    }

    /** The iterator (a generator in the source), as written: the points in `Iteration` order. */
    method Iterate() returns (points: seq<Point>)
      requires xStep > 0 && yStep > 0
      ensures points == Iteration(xMin, xMax, yMin, yMax, xStep, yStep, order)
    {
      if order == RowMajor {
        points := Nested(xMin, xMax, xStep, yMin, yMax, yStep, true);
      } else {
        points := Nested(yMin, yMax, yStep, xMin, xMax, xStep, false);
      }
    }
  }

  /** The two nested `for` loops of the iterator, outer over [oMin, oMax), inner over [nMin, nMax). */
  method Nested(oMin: int, oMax: int, oStep: int, nMin: int, nMax: int, nStep: int, outerIsX: bool)
    returns (points: seq<Point>)
    requires oStep > 0 && nStep > 0
    ensures points == Sweep(Range(oMin, oMax, oStep), Range(nMin, nMax, nStep), outerIsX)
  {
    var inner := Range(nMin, nMax, nStep);
    points := [];
    var o := oMin;
    while o < oMax
      invariant points + Sweep(Range(o, oMax, oStep), inner, outerIsX) == Sweep(Range(oMin, oMax, oStep), inner, outerIsX)
      decreases oMax - o
    {
      ghost var before := points;
      SweepUnfold(o, oMax, oStep, inner, outerIsX);
      var n := nMin;
      while n < nMax
        invariant points + Row(o, Range(n, nMax, nStep), outerIsX) == before + Row(o, inner, outerIsX)
        decreases nMax - n
      {
        RowUnfold(o, n, nMax, nStep, outerIsX);
        AppendAssoc(points, [Pt(o, n, outerIsX)], Row(o, Range(n + nStep, nMax, nStep), outerIsX));
        points := points + [Pt(o, n, outerIsX)];
        n := n + nStep;
      }
      assert points == before + Row(o, inner, outerIsX);
      AppendAssoc(before, Row(o, inner, outerIsX), Sweep(Range(o + oStep, oMax, oStep), inner, outerIsX));
      o := o + oStep;
    }
  }

  lemma SweepUnfold(o: int, oMax: int, oStep: int, inner: seq<int>, outerIsX: bool)
    requires oStep > 0 && o < oMax
    ensures Sweep(Range(o, oMax, oStep), inner, outerIsX) ==
      Row(o, inner, outerIsX) + Sweep(Range(o + oStep, oMax, oStep), inner, outerIsX)
  {
    var r := Range(o, oMax, oStep);
    assert r[0] == o && r[1..] == Range(o + oStep, oMax, oStep);
  }

  lemma RowUnfold(o: int, n: int, nMax: int, nStep: int, outerIsX: bool)
    requires nStep > 0 && n < nMax
    ensures Row(o, Range(n, nMax, nStep), outerIsX) == [Pt(o, n, outerIsX)] + Row(o, Range(n + nStep, nMax, nStep), outerIsX)
  {
    var r := Range(n, nMax, nStep);
    assert r[0] == n && r[1..] == Range(n + nStep, nMax, nStep);
  }

  lemma AppendAssoc<T>(a: seq<T>, b: seq<T>, c: seq<T>)
    ensures a + b + c == a + (b + c)
  {
  }
}
