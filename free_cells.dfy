/**
 * The free-rectangle finder of the Genuary 2024 day 3 sketch: from a free
 * cell of a grid of occupied flags, the sizes of the rectangles that can be
 * placed with that cell as their top-left corner, and the marking of a placed
 * rectangle as occupied.
 *
 * The grid of booleans is reduced to the set of cells set to `true`: a cell
 * never set reads as `undefined`, which the sketch treats as free.
 */
module FreeCells {

  datatype Cell = Cell(i: int, j: int)

  /** `vec2(w, h)`: a width and a height in cells. */
  datatype Size = Size(w: int, h: int)

  /** Cell c lies in the w x h rectangle whose top-left cell is (x, y). */
  predicate Inside(c: Cell, x: int, y: int, w: int, h: int)
  {
    x <= c.i < x + w && y <= c.j < y + h
  }

  /** No occupied cell lies in the w x h rectangle at (x, y). */
  predicate Free(occupied: set<Cell>, x: int, y: int, w: int, h: int)
  {
    forall c :: c in occupied ==> !Inside(c, x, y, w, h)
  }

  function Min(a: int, b: int): int
  {
    if a < b then a else b
  }

  /** The widths `findAvailableSizes` may reach: `min(columnCount, x + maxDimension) - x`. */
  function Reach(count: int, x: int, maxDimension: int): int
  {
    Min(count, x + maxDimension) - x
  }

  /** A size that stays inside the grid and within maxDimension. */
  predicate Fits(s: Size, limitX: int, limitY: int)
  {
    1 <= s.w <= limitX && 1 <= s.h <= limitY
  }

  /** The occupied flags of the cells, and the grid's dimensions. */
  class CellGrid {
    const columnCount: int
    const rowCount: int
    var occupied: set<Cell>

    /** `new Grid({ columnCount, rowCount })`: no cell has been set. */
    constructor(columnCount: int, rowCount: int)
      ensures this.columnCount == columnCount && this.rowCount == rowCount && occupied == {}
    {
      this.columnCount := columnCount;
      this.rowCount := rowCount;
      occupied := {};
    }

    /** `grid.get(i, j)`, read as a boolean. */
    predicate Get(i: int, j: int)
      reads this
    {
      Cell(i, j) in occupied
    }

    /** `grid.set(i, j, true)` */
    method Set(i: int, j: int)
      modifies this
      ensures occupied == old(occupied) + {Cell(i, j)}
    {
      occupied := occupied + {Cell(i, j)};
    }

    /** The marking loop of `populateGrid`: every cell of the dim.w x dim.h rectangle at (x, y) is set. */
    method Mark(x: int, y: int, dim: Size)
      modifies this
      ensures forall c :: c in occupied <==> c in old(occupied) || Inside(c, x, y, dim.w, dim.h)
    {
      var i := x;
      while i < x + dim.w
        invariant x <= i && (i <= x + dim.w || i == x)
        invariant forall c :: c in occupied <==> c in old(occupied) || Inside(c, x, y, i - x, dim.h)
      {
        var j := y;
        while j < y + dim.h
          invariant y <= j && (j <= y + dim.h || j == y)
          invariant forall c :: c in occupied <==> c in old(occupied) || Inside(c, x, y, i - x, dim.h) || (c.i == i && y <= c.j < j)
        {
          Set(i, j);
          j := j + 1;
        }
        i := i + 1;
      }
    }
  }

  /**
   * The sizes `findAvailableSizes` stands for: those that fit within the
   * reachable widths and heights and whose whole rectangle is free.
   */
  predicate Available(occupied: set<Cell>, x: int, y: int, limitX: int, limitY: int, s: Size)
  {
    Fits(s, limitX, limitY) && Free(occupied, x, y, s.w, s.h)
  }

  /** The sizes the x-axis loop of diagonal d pushes: widths lo + 1 .. hi, height d + 1. */
  function Row(d: int, lo: int, hi: int): seq<Size>
    decreases hi - lo
  {
    if hi <= lo then [] else Row(d, lo, hi - 1) + [Size(hi, d + 1)]
  }

  /** The sizes the y-axis loop of diagonal d pushes: width d + 1, heights lo + 1 .. hi. */
  function Column(d: int, lo: int, hi: int): seq<Size>
    decreases hi - lo
  {
    if hi <= lo then [] else Column(d, lo, hi - 1) + [Size(d + 1, hi)]
  }

  lemma {:induction false} RowMembers(d: int, lo: int, hi: int)
    ensures (forall s :: s in Row(d, lo, hi) <==> (s.h == d + 1 && lo < s.w <= hi))
    decreases hi - lo
  {
    if hi > lo {
      RowMembers(d, lo, hi - 1);
    }
  }

  lemma {:induction false} ColumnMembers(d: int, lo: int, hi: int)
    ensures (forall s :: s in Column(d, lo, hi) <==> (s.w == d + 1 && lo < s.h <= hi))
    decreases hi - lo
  {
    if hi > lo {
      ColumnMembers(d, lo, hi - 1);
    }
  }

  /** A row holds its one square size, Size(d + 1, d + 1), once, and only when it reaches past d. */
  lemma {:induction false} RowSquares(d: int, lo: int, hi: int)
    requires lo == d
    ensures (forall k :: multiset(Row(d, lo, hi))[Size(k, k)] == (if k == d + 1 && d < hi then 1 else 0))
    decreases hi - lo
  {
    if hi > lo {
      RowSquares(d, lo, hi - 1);
    }
  }

  lemma {:induction false} ColumnSquares(d: int, lo: int, hi: int)
    requires lo == d
    ensures (forall k :: multiset(Column(d, lo, hi))[Size(k, k)] == (if k == d + 1 && d < hi then 1 else 0))
    decreases hi - lo
  {
    if hi > lo {
      ColumnSquares(d, lo, hi - 1);
    }
  }

  /** The cells of row d from column d up to (not including) column `hi` are free. */
  predicate RowFree(occupied: set<Cell>, x: int, y: int, d: int, hi: int)
  {
    forall c :: c in occupied ==> !(x + d <= c.i < x + hi && c.j == y + d)
  }

  /** The cells of column d from row d up to (not including) row `hi` are free. */
  predicate ColumnFree(occupied: set<Cell>, x: int, y: int, d: int, hi: int)
  {
    forall c :: c in occupied ==> !(y + d <= c.j < y + hi && c.i == x + d)
  }

  /**
   * What holds when diagonal d is reached: the rows above d are free up to
   * maxX and the columns left of d up to maxY; no available size with a side
   * of at least d is wider than maxX or taller than maxY; the sizes listed are
   * available, every available size with a side up to d is listed, and each
   * available square with a side up to d is listed twice.
   */
  ghost predicate Progress(occupied: set<Cell>, x: int, y: int, limitX: int, limitY: int,
                     d: int, maxX: int, maxY: int, sizes: seq<Size>)
  {
    0 <= d && maxX <= limitX && maxY <= limitY
    && Free(occupied, x, y, maxX, d) && Free(occupied, x, y, d, maxY)
    && (forall s :: Available(occupied, x, y, limitX, limitY, s) && d <= s.h ==> s.w <= maxX)
    && (forall s :: Available(occupied, x, y, limitX, limitY, s) && d <= s.w ==> s.h <= maxY)
    && (forall s :: s in sizes ==> Available(occupied, x, y, limitX, limitY, s))
    && (forall s :: Available(occupied, x, y, limitX, limitY, s) && Min(s.w, s.h) <= d ==> s in sizes)
    && (forall k :: multiset(sizes)[Size(k, k)] ==
          (if Available(occupied, x, y, limitX, limitY, Size(k, k)) && k <= d then 2 else 0))
  }

  /** What one diagonal's two loops leave behind keeps Progress, one diagonal further. */
  lemma DiagonalStep(occupied: set<Cell>, x: int, y: int, limitX: int, limitY: int, d: int,
                     maxX: int, maxY: int, maxX': int, maxY': int, sizes: seq<Size>, sizes': seq<Size>)
    requires Progress(occupied, x, y, limitX, limitY, d, maxX, maxY, sizes)
    requires d < maxX && d < maxY
    requires d <= maxX' <= maxX && RowFree(occupied, x, y, d, maxX') && (maxX' < maxX ==> Cell(x + maxX', y + d) in occupied)
    requires d <= maxY' <= maxY && ColumnFree(occupied, x, y, d, maxY') && (maxY' < maxY ==> Cell(x + d, y + maxY') in occupied)
    requires sizes' == sizes + Row(d, d, maxX') + Column(d, d, maxY')
    ensures Progress(occupied, x, y, limitX, limitY, d + 1, maxX', maxY', sizes')
  {
    StepFree(occupied, x, y, d, maxX, maxY, maxX', maxY');
    StepTight(occupied, x, y, limitX, limitY, d, maxX, maxY, maxX', maxY');
    StepSound(occupied, x, y, limitX, limitY, d, maxX, maxY, maxX', maxY');
    RowMembers(d, d, maxX');
    ColumnMembers(d, d, maxY');
    RowSquares(d, d, maxX');
    ColumnSquares(d, d, maxY');
    var row, column := Row(d, d, maxX'), Column(d, d, maxY');
    assert multiset(sizes') == multiset(sizes) + multiset(row) + multiset(column);
    forall s | Available(occupied, x, y, limitX, limitY, s) && Min(s.w, s.h) <= d + 1
      ensures s in sizes'
    {
      if Min(s.w, s.h) <= d {
        assert s in sizes;
      } else if s.h == d + 1 {
        assert s in row;
      } else {
        assert s in column;
      }
    }
    var square := Size(d + 1, d + 1);
    assert square in row <==> square in column;
  }

  lemma StepFree(occupied: set<Cell>, x: int, y: int, d: int, maxX: int, maxY: int, maxX': int, maxY': int)
    requires 0 <= d < maxX && d < maxY
    requires Free(occupied, x, y, maxX, d) && Free(occupied, x, y, d, maxY)
    requires d <= maxX' <= maxX && RowFree(occupied, x, y, d, maxX')
    requires d <= maxY' <= maxY && ColumnFree(occupied, x, y, d, maxY')
    ensures Free(occupied, x, y, maxX', d + 1) && Free(occupied, x, y, d + 1, maxY')
  {
  }

  lemma StepTight(occupied: set<Cell>, x: int, y: int, limitX: int, limitY: int, d: int,
                  maxX: int, maxY: int, maxX': int, maxY': int)
    requires 0 <= d
    requires forall s :: Available(occupied, x, y, limitX, limitY, s) && d <= s.h ==> s.w <= maxX
    requires forall s :: Available(occupied, x, y, limitX, limitY, s) && d <= s.w ==> s.h <= maxY
    requires d <= maxX' <= maxX && (maxX' < maxX ==> Cell(x + maxX', y + d) in occupied)
    requires d <= maxY' <= maxY && (maxY' < maxY ==> Cell(x + d, y + maxY') in occupied)
    ensures forall s :: Available(occupied, x, y, limitX, limitY, s) && d + 1 <= s.h ==> s.w <= maxX'
    ensures forall s :: Available(occupied, x, y, limitX, limitY, s) && d + 1 <= s.w ==> s.h <= maxY'
  {
    forall s | Available(occupied, x, y, limitX, limitY, s) && d + 1 <= s.h
      ensures s.w <= maxX'
    {
      assert maxX' < s.w ==> Inside(Cell(x + maxX', y + d), x, y, s.w, s.h);
    }
    forall s | Available(occupied, x, y, limitX, limitY, s) && d + 1 <= s.w
      ensures s.h <= maxY'
    {
      assert maxY' < s.h ==> Inside(Cell(x + d, y + maxY'), x, y, s.w, s.h);
    }
  }

  lemma StepSound(occupied: set<Cell>, x: int, y: int, limitX: int, limitY: int, d: int,
                  maxX: int, maxY: int, maxX': int, maxY': int)
    requires 0 <= d < maxX <= limitX && d < maxY <= limitY
    requires Free(occupied, x, y, maxX, d) && Free(occupied, x, y, d, maxY)
    requires d <= maxX' <= maxX && RowFree(occupied, x, y, d, maxX')
    requires d <= maxY' <= maxY && ColumnFree(occupied, x, y, d, maxY')
    ensures forall s :: s in Row(d, d, maxX') ==> Available(occupied, x, y, limitX, limitY, s)
    ensures forall s :: s in Column(d, d, maxY') ==> Available(occupied, x, y, limitX, limitY, s)
  {
    RowMembers(d, d, maxX');
    ColumnMembers(d, d, maxY');
  }

  /**
   * `findAvailableSizes`: walking the diagonal from the corner cell (x, y),
   * extend along the row and then along the column of each diagonal cell
   * until an occupied cell or the reachable edge, shrinking the reach at each
   * occupied cell. The sizes listed are exactly those that fit and whose
   * whole rectangle is free, and every square size is listed twice.
   */
  method FindAvailableSizes(grid: CellGrid, x: int, y: int, maxDimension: int) returns (sizes: seq<Size>)
    ensures forall s :: s in sizes <==>
      Available(grid.occupied, x, y, Reach(grid.columnCount, x, maxDimension), Reach(grid.rowCount, y, maxDimension), s)
    ensures forall k :: multiset(sizes)[Size(k, k)] == (if Size(k, k) in sizes then 2 else 0)
  {
    ghost var occupied := grid.occupied;
    var maxX := Reach(grid.columnCount, x, maxDimension);
    var maxY := Reach(grid.rowCount, y, maxDimension);
    ghost var limitX, limitY := maxX, maxY;
    sizes := [];
    var diagonal := 0;
    while diagonal < maxDimension
      invariant Progress(occupied, x, y, limitX, limitY, diagonal, maxX, maxY, sizes)
    {
      if diagonal >= maxX || diagonal >= maxY {
        break;
      }
      ghost var before, maxXBefore, maxYBefore := sizes, maxX, maxY;
      var afterRow;
      afterRow, maxX := ExtendRow(grid, x, y, diagonal, maxX, sizes);
      sizes, maxY := ExtendColumn(grid, x, y, diagonal, maxY, afterRow);
      DiagonalStep(occupied, x, y, limitX, limitY, diagonal, maxXBefore, maxYBefore, maxX, maxY, before, sizes);
      diagonal := diagonal + 1;
    }
    Finished(occupied, x, y, limitX, limitY, diagonal, maxX, maxY, maxDimension, sizes);
  }

  /** Once the diagonal reaches maxDimension, maxX or maxY, no available size is left unlisted. */
  lemma Finished(occupied: set<Cell>, x: int, y: int, limitX: int, limitY: int, d: int,
                 maxX: int, maxY: int, maxDimension: int, sizes: seq<Size>)
    requires Progress(occupied, x, y, limitX, limitY, d, maxX, maxY, sizes)
    requires limitX <= maxDimension && (d >= maxDimension || d >= maxX || d >= maxY)
    ensures forall s :: s in sizes <==> Available(occupied, x, y, limitX, limitY, s)
    ensures forall k :: multiset(sizes)[Size(k, k)] == (if Size(k, k) in sizes then 2 else 0)
  {
    forall s | Available(occupied, x, y, limitX, limitY, s)
      ensures Min(s.w, s.h) <= d
    {
    }
  }

  /**
   * The x-axis loop of one diagonal: push each free cell of row d, from
   * column d on, as a size; at the first occupied cell, shrink maxX to it.
   */
  method ExtendRow(grid: CellGrid, x: int, y: int, d: int, maxX: int, sizes: seq<Size>) returns (sizes': seq<Size>, maxX': int)
    requires d <= maxX
    ensures d <= maxX' <= maxX && sizes' == sizes + Row(d, d, maxX')
    ensures RowFree(grid.occupied, x, y, d, maxX')
    ensures maxX' < maxX ==> grid.Get(x + maxX', y + d)
  {
    sizes', maxX' := sizes, maxX;
    var i := d;
    while i < maxX
      invariant d <= i <= maxX && maxX' == maxX
      invariant RowFree(grid.occupied, x, y, d, i)
      invariant sizes' == sizes + Row(d, d, i)
    {
      if !grid.Get(i + x, d + y) {
        assert Row(d, d, i + 1) == Row(d, d, i) + [Size(i + 1, d + 1)];
        sizes' := sizes' + [Size(i + 1, d + 1)];
      } else {
        maxX' := Min(maxX, i);
        break;
      }
      i := i + 1;
    }
  }

  /**
   * The y-axis loop of one diagonal: push each free cell of column d, from
   * row d on, as a size; at the first occupied cell, shrink maxY to it.
   */
  method ExtendColumn(grid: CellGrid, x: int, y: int, d: int, maxY: int, sizes: seq<Size>) returns (sizes': seq<Size>, maxY': int)
    requires d <= maxY
    ensures d <= maxY' <= maxY && sizes' == sizes + Column(d, d, maxY')
    ensures ColumnFree(grid.occupied, x, y, d, maxY')
    ensures maxY' < maxY ==> grid.Get(x + d, y + maxY')
  {
    sizes', maxY' := sizes, maxY;
    var j := d;
    while j < maxY
      invariant d <= j <= maxY && maxY' == maxY
      invariant ColumnFree(grid.occupied, x, y, d, j)
      invariant sizes' == sizes + Column(d, d, j)
    {
      if !grid.Get(d + x, j + y) {
        assert Column(d, d, j + 1) == Column(d, d, j) + [Size(d + 1, j + 1)];
        sizes' := sizes' + [Size(d + 1, j + 1)];
      } else {
        maxY' := Min(maxY, j);
        break;
      }
      j := j + 1;
    }
  }

  // ---------------------------------------------------------------------
  // populateGrid: the placement loop and its recursion into sub-grids
  // ---------------------------------------------------------------------

  datatype Kind = RectShape | CircleShape

  /** A shape drawn over the dim.w x dim.h cells at `at` of a grid at the given depth. */
  datatype Shape = Shape(kind: Kind, depth: nat, at: Cell, dim: Size)

  /**
   * The random choices of the sketch, each a function of the seed of the grid
   * being filled and the cell being placed: the index of the size taken from
   * the available sizes, whether a square becomes a circle, whether a
   * non-square rectangle gets a sub-grid, and the seed that sub-grid gets.
   */
  datatype Choices = Choices(
    pick: (int, Cell, seq<Size>) -> int,
    circle: (int, Cell) -> bool,
    descend: (int, Cell) -> bool,
    reseed: (int, Cell) -> int)

  /** `randomFromArray` returns an element of a non-empty array. */
  ghost predicate ValidPick(choices: Choices)
  {
    forall seed, c, sizes :: |sizes| > 0 ==> 0 <= choices.pick(seed, c, sizes) < |sizes|
  }

  predicate Covers(s: Shape, depth: nat, c: Cell)
  {
    s.depth == depth && Inside(c, s.at.i, s.at.j, s.dim.w, s.dim.h)
  }

  /** Some shape of the given depth covers cell c. */
  predicate Covered(drawn: seq<Shape>, depth: nat, c: Cell)
  {
    exists k :: 0 <= k < |drawn| && Covers(drawn[k], depth, c)
  }

  /** Two shapes share no cell. */
  predicate Disjoint(s: Shape, t: Shape)
  {
    s.at.i + s.dim.w <= t.at.i || t.at.i + t.dim.w <= s.at.i || s.at.j + s.dim.h <= t.at.j || t.at.j + t.dim.h <= s.at.j
  }

  /** A shape lies inside the columnCount x rowCount grid and covers at least one cell. */
  predicate Within(s: Shape, columnCount: int, rowCount: int)
  {
    0 <= s.at.i && s.at.i + s.dim.w <= columnCount && 1 <= s.dim.w &&
    0 <= s.at.j && s.at.j + s.dim.h <= rowCount && 1 <= s.dim.h
  }

  /** Every shape of the given depth lies inside the grid. */
  predicate InGrid(drawn: seq<Shape>, depth: nat, columnCount: int, rowCount: int)
  {
    forall k :: 0 <= k < |drawn| && drawn[k].depth == depth ==> Within(drawn[k], columnCount, rowCount)
  }

  /** No two shapes of the given depth overlap. */
  predicate NoOverlap(drawn: seq<Shape>, depth: nat)
  {
    forall a, b :: 0 <= a < b < |drawn| && drawn[a].depth == depth && drawn[b].depth == depth ==> Disjoint(drawn[a], drawn[b])
  }

  predicate Deeper(drawn: seq<Shape>, depth: nat)
  {
    forall k :: 0 <= k < |drawn| ==> depth < drawn[k].depth
  }

  /** Shapes drawn by a deeper grid change nothing about this level. */
  lemma DeeperKeepsLevel(drawn: seq<Shape>, sub: seq<Shape>, depth: nat, columnCount: int, rowCount: int)
    requires Deeper(sub, depth)
    requires InGrid(drawn, depth, columnCount, rowCount) && NoOverlap(drawn, depth)
    ensures InGrid(drawn + sub, depth, columnCount, rowCount) && NoOverlap(drawn + sub, depth)
    ensures forall c :: Covered(drawn + sub, depth, c) <==> Covered(drawn, depth, c)
  {
    var all := drawn + sub;
    forall c | Covered(all, depth, c)
      ensures Covered(drawn, depth, c)
    {
      var k :| 0 <= k < |all| && Covers(all[k], depth, c);
      assert k < |drawn|;
      assert Covers(drawn[k], depth, c);
    }
    forall c | Covered(drawn, depth, c)
      ensures Covered(all, depth, c)
    {
      var k :| 0 <= k < |drawn| && Covers(drawn[k], depth, c);
      assert all[k] == drawn[k];
    }
  }

  /**
   * A shape placed at a free cell with one of its available sizes lies in the
   * grid and overlaps none of the shapes already drawn at its level, when
   * those are exactly what the occupied cells record.
   */
  lemma Placed(occupied: set<Cell>, drawn: seq<Shape>, depth: nat, columnCount: int, rowCount: int, shape: Shape, maxDimension: int)
    requires InGrid(drawn, depth, columnCount, rowCount) && NoOverlap(drawn, depth)
    requires forall c :: c in occupied <==> Covered(drawn, depth, c)
    requires shape.depth == depth && 0 <= shape.at.i && 0 <= shape.at.j
    requires Available(occupied, shape.at.i, shape.at.j, Reach(columnCount, shape.at.i, maxDimension), Reach(rowCount, shape.at.j, maxDimension), shape.dim)
    ensures InGrid(drawn + [shape], depth, columnCount, rowCount) && NoOverlap(drawn + [shape], depth)
  {
    var all := drawn + [shape];
    forall a | 0 <= a < |drawn| && drawn[a].depth == depth
      ensures Disjoint(drawn[a], shape)
    {
      var t := drawn[a];
      if !Disjoint(t, shape) {
        var common := Cell(if t.at.i < shape.at.i then shape.at.i else t.at.i, if t.at.j < shape.at.j then shape.at.j else t.at.j);
        assert Covers(drawn[a], depth, common);
        assert common in occupied;
        assert Inside(common, shape.at.i, shape.at.j, shape.dim.w, shape.dim.h);
        assert false;
      }
    }
    forall a, b | 0 <= a < b < |all| && all[a].depth == depth && all[b].depth == depth
      ensures Disjoint(all[a], all[b])
    {
      if b < |drawn| {
        assert all[a] == drawn[a] && all[b] == drawn[b];
      } else {
        assert all[a] == drawn[a] && all[b] == shape;
      }
    }
  }

  /** Marking the cells of the newest shape of this level keeps the occupied cells equal to the covered ones. */
  lemma MarkedCovered(before: set<Cell>, after: set<Cell>, drawn: seq<Shape>, shape: Shape, sub: seq<Shape>, depth: nat)
    requires shape.depth == depth && Deeper(sub, depth)
    requires forall c :: c in before <==> Covered(drawn, depth, c)
    requires forall c :: c in after <==> c in before || Inside(c, shape.at.i, shape.at.j, shape.dim.w, shape.dim.h)
    ensures forall c :: c in after <==> Covered(drawn + [shape] + sub, depth, c)
  {
    var all := drawn + [shape] + sub;
    forall c | c in after
      ensures Covered(all, depth, c)
    {
      if c in before {
        var k :| 0 <= k < |drawn| && Covers(drawn[k], depth, c);
        assert all[k] == drawn[k];
      } else {
        assert all[|drawn|] == shape;
      }
    }
    forall c | Covered(all, depth, c)
      ensures c in after
    {
      var k :| 0 <= k < |all| && Covers(all[k], depth, c);
      if k < |drawn| {
        assert all[k] == drawn[k];
        assert Covered(drawn, depth, c);
      }
    }
  }

  /**
   * `populateGrid`, as far as the grid goes: nothing below depth 5; otherwise
   * every free cell of the grid, in iteration order, gets one of its available
   * sizes, drawn as a circle or a rectangle, and a rectangle of at least 2 x 2
   * gets a sub-grid one level deeper (always, with the same seed, when square;
   * by chance and with a new seed otherwise). The shapes of this level tile
   * the grid: each inside it, no two overlapping, every listed cell covered.
   */
  method PopulateGrid(columnCount: int, rowCount: int, depth: nat, seed: int, cells: seq<Cell>, choices: Choices) returns (drawn: seq<Shape>)
    requires forall c :: c in cells ==> 0 <= c.i < columnCount && 0 <= c.j < rowCount
    requires ValidPick(choices)
    decreases if depth <= 5 then 6 - depth else 0
    ensures depth > 5 ==> drawn == []
    ensures forall k :: 0 <= k < |drawn| ==> depth <= drawn[k].depth <= 5
    ensures InGrid(drawn, depth, columnCount, rowCount) && NoOverlap(drawn, depth)
    ensures depth <= 5 ==> forall c :: c in cells ==> Covered(drawn, depth, c)
  {
    if depth > 5 {
      return [];
    }
    var maxDimension := Min(20, Min(columnCount, rowCount));
    var grid := new CellGrid(columnCount, rowCount);
    drawn := [];
    var n := 0;
    while n < |cells|
      invariant 0 <= n <= |cells|
      invariant grid.columnCount == columnCount && grid.rowCount == rowCount
      invariant forall k :: 0 <= k < |drawn| ==> depth <= drawn[k].depth <= 5
      invariant InGrid(drawn, depth, columnCount, rowCount) && NoOverlap(drawn, depth)
      invariant forall c :: c in grid.occupied <==> Covered(drawn, depth, c)
      invariant forall m :: 0 <= m < n ==> cells[m] in grid.occupied
    {
      var c := cells[n];
      if !grid.Get(c.i, c.j) {
        var sizes := FindAvailableSizes(grid, c.i, c.j, maxDimension);
        assert Available(grid.occupied, c.i, c.j, Reach(columnCount, c.i, maxDimension), Reach(rowCount, c.j, maxDimension), Size(1, 1));
        var dim := sizes[choices.pick(seed, c, sizes)];
        var shape;
        if dim.w == dim.h && dim.w > 1 && choices.circle(seed, c) {
          shape := Shape(CircleShape, depth, c, dim);
        } else {
          shape := Shape(RectShape, depth, c, dim);
        }
        Placed(grid.occupied, drawn, depth, columnCount, rowCount, shape, maxDimension);
        var sub := [];
        if shape.kind == RectShape && dim.w > 1 && dim.h > 1 {
          if dim.w == dim.h {
            sub := PopulateGrid(columnCount, rowCount, depth + 1, seed, cells, choices);
          } else if choices.descend(seed, c) {
            sub := PopulateGrid(columnCount, rowCount, depth + 1, choices.reseed(seed, c), cells, choices);
          }
        }
        DeeperKeepsLevel(drawn + [shape], sub, depth, columnCount, rowCount);
        ghost var before := grid.occupied;
        grid.Mark(c.i, c.j, dim);
        MarkedCovered(before, grid.occupied, drawn, shape, sub, depth);
        drawn := drawn + [shape] + sub;
      }
      n := n + 1;
    }
  }
}
