/**
 * The affected population of `outbreak_analyser.py`.
 *
 * The population grid has shape (rows, cols); its first index i is found
 * from the centre's X and its second index j from the centre's Y.  The
 * source names the row count `east_west_cells`, although its plot draws X
 * along the columns.  One cell is 100 metres
 * across.  `find_affected_population` takes the square of cells within
 * `r` cells of the centre's cell on both axes, clamps it to the grid, and
 * adds up the population inside.
 */
module AffectedPopulation {
  import opened Numeric
  import opened OutbreakCentre

  /** Metres per grid cell along either axis. */
  const CellSize: nat := 100

  /** A population grid of shape (rows, cols): `rows` is the source's `east_west_cells`. */
  datatype Grid = Grid(rows: nat, cols: nat, cells: seq<seq<real>>)

  predicate ValidGrid(g: Grid)
  {
    |g.cells| == g.rows && IsRect(g.cells, g.cols)
  }

  predicate NonNegativeGrid(g: Grid)
    requires ValidGrid(g)
  {
    forall i, j :: 0 <= i < g.rows && 0 <= j < g.cols ==> g.cells[i][j] >= 0.0
  }

  // ---------------------------------------------------------------------------
  // The half-width r of the window

  /** The square, in square metres, of r cells' length. */
  function SqCells(r: nat): nat
  {
    (CellSize * r) * (CellSize * r)
  }

  lemma SqCellsGrows(r: nat)
    ensures SqCells(r) < SqCells(r + 1)
  {
  }

  function HalfWidthFrom(d: nat, r: nat): (h: nat)
    requires SqCells(r) <= d
    ensures r <= h && SqCells(h) <= d < SqCells(h + 1)
    decreases d - SqCells(r)
  {
    SqCellsGrows(r);
    if d < SqCells(r + 1) then r else HalfWidthFrom(d, r + 1)
  }

  /**
   * `int(max_distance / cell_size)` where `max_distance` is the square root
   * of `maxSq`: the largest r whose r cells still fit within the distance.
   */
  function HalfWidth(maxSq: real): (r: nat)
    requires maxSq >= 0.0
    ensures SqCells(r) as real <= maxSq < SqCells(r + 1) as real
  {
    HalfWidthFrom(maxSq.Floor, 0)
  }

  // ---------------------------------------------------------------------------
  // The window

  /** A half-open index range [lo, hi); empty when lo >= hi. */
  datatype Span = Span(lo: int, hi: int)

  datatype Window = Window(i: Span, j: Span)

  /**
   * The window on one axis: the centre's coordinate in cells, `r` cells to
   * either side, each end truncated toward zero as Python's `int()` does,
   * then clamped to [0, len].
   */
  function AxisSpan(c: real, len: nat, r: nat): (s: Span)
    ensures 0 <= s.lo && s.hi <= len
  {
    var cell := c / CellSize as real;
    Span(Max(0, Trunc(cell - r as real)), Min(len, Trunc(cell + r as real + 1.0)))
  }

  /** The window of `find_affected_population`: i from X and the rows, j from Y and the columns, one r for both. */
  function AffectedWindow(g: Grid, centre: Point, r: nat): (w: Window)
    ensures 0 <= w.i.lo && w.i.hi <= g.rows
    ensures 0 <= w.j.lo && w.j.hi <= g.cols
  {
    Window(AxisSpan(centre.x, g.rows, r), AxisSpan(centre.y, g.cols, r))
  }

  predicate InWindow(w: Window, a: int, b: int)
  {
    w.i.lo <= a < w.i.hi && w.j.lo <= b < w.j.hi
  }

  /** The cell a non-negative coordinate falls in. */
  function CellIndex(c: real): (k: nat)
    requires c >= 0.0
    ensures k as real * CellSize as real <= c < (k + 1) as real * CellSize as real
  {
    (c / CellSize as real).Floor
  }

  /**
   * For a non-negative coordinate, truncating before clamping is the same
   * as taking the cell index and counting r cells each way in integers.
   */
  lemma AxisSpanOfNonNegative(c: real, len: nat, r: nat)
    requires c >= 0.0
    ensures AxisSpan(c, len, r) == Span(Max(0, CellIndex(c) - r), Min(len, CellIndex(c) + r + 1))
  {
  }

  /**
   * Away from the grid's edges the window on an axis has exactly 2r+1
   * cells, with the centre's cell in the middle.  The coordinate must be
   * non-negative: truncation toward zero sends both -0.5 and 0.5 cells to
   * cell 0 (see TruncationMergesCellsAroundOrigin).
   */
  lemma UnclampedSpanIsCentred(c: real, len: nat, r: nat)
    requires c >= 0.0 && r <= CellIndex(c) && CellIndex(c) + r + 1 <= len
    ensures AxisSpan(c, len, r).lo == CellIndex(c) - r
    ensures AxisSpan(c, len, r).hi == CellIndex(c) + r + 1
    ensures AxisSpan(c, len, r).hi - AxisSpan(c, len, r).lo == 2 * r + 1
  {
  }

  /**
   * A centre half a cell west of the origin with half-width 0 has the
   * empty window [0, 0), although neither `max` nor `min` clamps:
   * `int(-0.5)` and `int(0.5)` are both 0.
   */
  lemma TruncationMergesCellsAroundOrigin()
    ensures AxisSpan(-50.0, 10, 0) == Span(0, 0)
  {
    assert Trunc(-0.5) == 0 && Trunc(0.5) == 0;
  }

  /** A wider half-width never gives a smaller window. */
  lemma AxisSpanGrows(c: real, len: nat, r1: nat, r2: nat)
    requires r1 <= r2
    ensures AxisSpan(c, len, r2).lo <= AxisSpan(c, len, r1).lo
    ensures AxisSpan(c, len, r1).hi <= AxisSpan(c, len, r2).hi
  {
  }

  // ---------------------------------------------------------------------------
  // Sums

  /** `np.sum(row[lo:hi])` for 0 <= lo and hi <= |row|: 0 when the range is empty. */
  function RangeSum(row: seq<real>, lo: int, hi: int): (s: real)
    requires 0 <= lo && hi <= |row|
    decreases hi - lo
  {
    if lo >= hi then 0.0 else RangeSum(row, lo, hi - 1) + row[hi - 1]
  }

  /** The sum of the cells (a, b) with iLo <= a < iHi and jLo <= b < jHi. */
  function BlockSum(cells: seq<seq<real>>, w: nat, iLo: int, iHi: int, jLo: int, jHi: int): (s: real)
    requires IsRect(cells, w) && 0 <= iLo && iHi <= |cells| && 0 <= jLo && jHi <= w
    ensures jHi <= jLo ==> s == 0.0
    decreases iHi - iLo
  {
    if iLo >= iHi then 0.0 else BlockSum(cells, w, iLo, iHi - 1, jLo, jHi) + RangeSum(cells[iHi - 1], jLo, jHi)
  }

  function RowTotal(row: seq<real>): (t: real)
  {
    if row == [] then 0.0 else row[0] + RowTotal(row[1..])
  }

  function GridTotal(cells: seq<seq<real>>): (t: real)
  {
    if cells == [] then 0.0 else RowTotal(cells[0]) + GridTotal(cells[1..])
  }

  /** `np.sum(population_matrix)`: every cell of the grid, row by row. */
  function Total(g: Grid): (t: real)
    ensures ValidGrid(g) ==> t == BlockSum(g.cells, g.cols, 0, g.rows, 0, g.cols)
  {
    assert ValidGrid(g) ==> GridTotal(g.cells) == BlockSum(g.cells, g.cols, 0, g.rows, 0, g.cols) by {
      if ValidGrid(g) {
        FullBlockIsTotal(g.cells, g.cols);
      }
    }
    GridTotal(g.cells)
  }

  lemma {:induction false} RangeSumSplit(row: seq<real>, lo: int, k: int, hi: int)
    requires 0 <= lo <= k <= hi <= |row|
    ensures RangeSum(row, lo, hi) == RangeSum(row, lo, k) + RangeSum(row, k, hi)
    decreases hi - k
  {
    if k < hi {
      RangeSumSplit(row, lo, k, hi - 1);
    }
  }

  lemma {:induction false} RangeSumNonNegative(row: seq<real>, lo: int, hi: int)
    requires 0 <= lo && hi <= |row|
    requires forall b :: 0 <= b < |row| ==> row[b] >= 0.0
    ensures RangeSum(row, lo, hi) >= 0.0
    decreases hi - lo
  {
    if lo < hi {
      RangeSumNonNegative(row, lo, hi - 1);
    }
  }

  /** Over non-negative cells, a sub-range never sums to more than the range around it. */
  lemma RangeSumWithin(row: seq<real>, lo1: int, hi1: int, lo2: int, hi2: int)
    requires 0 <= lo2 <= lo1 && hi1 <= hi2 <= |row|
    requires forall b :: 0 <= b < |row| ==> row[b] >= 0.0
    ensures RangeSum(row, lo1, hi1) <= RangeSum(row, lo2, hi2)
  {
    if lo1 < hi1 {
      RangeSumSplit(row, lo2, lo1, hi2);
      RangeSumSplit(row, lo1, hi1, hi2);
      RangeSumNonNegative(row, lo2, lo1);
      RangeSumNonNegative(row, hi1, hi2);
    } else {
      RangeSumNonNegative(row, lo2, hi2);
    }
  }

  lemma {:induction false} RangeSumIsRowTotal(row: seq<real>)
    ensures RangeSum(row, 0, |row|) == RowTotal(row)
  {
    if row != [] {
      RangeSumIsRowTotal(row[1..]);
      RangeSumSplit(row, 0, 1, |row|);
      RangeSumShift(row, 1, |row|);
    }
  }

  /** Dropping the first element shifts every range down by one. */
  lemma {:induction false} RangeSumShift(row: seq<real>, lo: int, hi: int)
    requires 1 <= lo && hi <= |row| && |row| > 0
    ensures RangeSum(row, lo, hi) == RangeSum(row[1..], lo - 1, hi - 1)
    decreases hi - lo
  {
    if lo < hi {
      RangeSumShift(row, lo, hi - 1);
    }
  }

  lemma {:induction false} BlockSumSplit(cells: seq<seq<real>>, w: nat, iLo: int, k: int, iHi: int, jLo: int, jHi: int)
    requires IsRect(cells, w) && 0 <= iLo <= k <= iHi <= |cells| && 0 <= jLo && jHi <= w
    ensures BlockSum(cells, w, iLo, iHi, jLo, jHi) == BlockSum(cells, w, iLo, k, jLo, jHi) + BlockSum(cells, w, k, iHi, jLo, jHi)
    decreases iHi - k
  {
    if k < iHi {
      BlockSumSplit(cells, w, iLo, k, iHi - 1, jLo, jHi);
    }
  }

  lemma {:induction false} BlockSumShift(cells: seq<seq<real>>, w: nat, iLo: int, iHi: int, jLo: int, jHi: int)
    requires IsRect(cells, w) && 1 <= iLo && iHi <= |cells| && |cells| > 0 && 0 <= jLo && jHi <= w
    ensures BlockSum(cells, w, iLo, iHi, jLo, jHi) == BlockSum(cells[1..], w, iLo - 1, iHi - 1, jLo, jHi)
    decreases iHi - iLo
  {
    if iLo < iHi {
      BlockSumShift(cells, w, iLo, iHi - 1, jLo, jHi);
    }
  }

  /** The window that covers the whole grid sums to the grid's total. */
  lemma {:induction false} FullBlockIsTotal(cells: seq<seq<real>>, w: nat)
    requires IsRect(cells, w)
    ensures BlockSum(cells, w, 0, |cells|, 0, w) == GridTotal(cells)
  {
    if cells != [] {
      FullBlockIsTotal(cells[1..], w);
      BlockSumSplit(cells, w, 0, 1, |cells|, 0, w);
      BlockSumShift(cells, w, 1, |cells|, 0, w);
      RangeSumIsRowTotal(cells[0]);
    }
  }

  lemma {:induction false} BlockSumNonNegative(cells: seq<seq<real>>, w: nat, iLo: int, iHi: int, jLo: int, jHi: int)
    requires IsRect(cells, w) && 0 <= iLo && iHi <= |cells| && 0 <= jLo && jHi <= w
    requires forall a, b :: 0 <= a < |cells| && 0 <= b < w ==> cells[a][b] >= 0.0
    ensures BlockSum(cells, w, iLo, iHi, jLo, jHi) >= 0.0
    decreases iHi - iLo
  {
    if iLo < iHi {
      BlockSumNonNegative(cells, w, iLo, iHi - 1, jLo, jHi);
      RangeSumNonNegative(cells[iHi - 1], jLo, jHi);
    }
  }

  /** Shrinking only the columns of a block, over non-negative cells, never increases its sum. */
  lemma {:induction false} BlockSumNarrower(cells: seq<seq<real>>, w: nat, iLo: int, iHi: int, jLo1: int, jHi1: int, jLo2: int, jHi2: int)
    requires IsRect(cells, w) && 0 <= iLo && iHi <= |cells|
    requires 0 <= jLo2 <= jLo1 && jHi1 <= jHi2 <= w
    requires forall a, b :: 0 <= a < |cells| && 0 <= b < w ==> cells[a][b] >= 0.0
    ensures BlockSum(cells, w, iLo, iHi, jLo1, jHi1) <= BlockSum(cells, w, iLo, iHi, jLo2, jHi2)
    decreases iHi - iLo
  {
    if iLo < iHi {
      BlockSumNarrower(cells, w, iLo, iHi - 1, jLo1, jHi1, jLo2, jHi2);
      RangeSumWithin(cells[iHi - 1], jLo1, jHi1, jLo2, jHi2);
    }
  }

  /** Over non-negative cells, a block inside another block never sums to more. */
  lemma BlockSumWithin(cells: seq<seq<real>>, w: nat, inner: Window, outer: Window)
    requires IsRect(cells, w)
    requires 0 <= outer.i.lo <= inner.i.lo && inner.i.hi <= outer.i.hi <= |cells|
    requires 0 <= outer.j.lo <= inner.j.lo && inner.j.hi <= outer.j.hi <= w
    requires forall a, b :: 0 <= a < |cells| && 0 <= b < w ==> cells[a][b] >= 0.0
    ensures BlockSum(cells, w, inner.i.lo, inner.i.hi, inner.j.lo, inner.j.hi)
         <= BlockSum(cells, w, outer.i.lo, outer.i.hi, outer.j.lo, outer.j.hi)
  {
    var (i1, i2, j1, j2) := (inner.i, outer.i, inner.j, outer.j);
    if i1.lo < i1.hi {
      BlockSumSplit(cells, w, i2.lo, i1.lo, i2.hi, j2.lo, j2.hi);
      BlockSumSplit(cells, w, i1.lo, i1.hi, i2.hi, j2.lo, j2.hi);
      BlockSumNonNegative(cells, w, i2.lo, i1.lo, j2.lo, j2.hi);
      BlockSumNonNegative(cells, w, i1.hi, i2.hi, j2.lo, j2.hi);
      BlockSumNarrower(cells, w, i1.lo, i1.hi, j1.lo, j1.hi, j2.lo, j2.hi);
    } else {
      BlockSumNonNegative(cells, w, i2.lo, i2.hi, j2.lo, j2.hi);
    }
  }

  /** Changing one cell changes a range's sum by the change, if and only if the cell is in the range. */
  lemma {:induction false} RangeSumUpdate(row: seq<real>, lo: int, hi: int, b: int, v: real)
    requires 0 <= lo && hi <= |row| && 0 <= b < |row|
    ensures RangeSum(row[b := v], lo, hi) == RangeSum(row, lo, hi) + (if lo <= b < hi then v - row[b] else 0.0)
    decreases hi - lo
  {
    if lo < hi {
      RangeSumUpdate(row, lo, hi - 1, b, v);
    }
  }

  /** A block sum counts each cell inside the block once and no cell outside it. */
  lemma {:induction false} BlockSumUpdate(cells: seq<seq<real>>, w: nat, win: Window, a: int, b: int, v: real)
    requires IsRect(cells, w) && 0 <= win.i.lo && win.i.hi <= |cells| && 0 <= win.j.lo && win.j.hi <= w
    requires 0 <= a < |cells| && 0 <= b < w
    ensures IsRect(cells[a := cells[a][b := v]], w)
    ensures BlockSum(cells[a := cells[a][b := v]], w, win.i.lo, win.i.hi, win.j.lo, win.j.hi)
         == BlockSum(cells, w, win.i.lo, win.i.hi, win.j.lo, win.j.hi) + (if InWindow(win, a, b) then v - cells[a][b] else 0.0)
    decreases win.i.hi - win.i.lo
  {
    var cells' := cells[a := cells[a][b := v]];
    if win.i.lo < win.i.hi {
      var shorter := Window(Span(win.i.lo, win.i.hi - 1), win.j);
      BlockSumUpdate(cells, w, shorter, a, b, v);
      if win.i.hi - 1 == a {
        RangeSumUpdate(cells[a], win.j.lo, win.j.hi, b, v);
      } else {
        assert cells'[win.i.hi - 1] == cells[win.i.hi - 1];
      }
    }
  }

  // ---------------------------------------------------------------------------
  // find_affected_population

  /**
   * `find_affected_population`: the population of the cells inside the
   * clamped window around the centre's cell.  An empty window, on either
   * axis, holds nobody; over a grid of non-negative counts the result lies
   * between 0 and the whole grid's total.
   */
  function AffectedPopulation(g: Grid, centre: Point, r: nat): (p: real)
    requires ValidGrid(g)
    ensures var w := AffectedWindow(g, centre, r);
            (w.i.lo >= w.i.hi || w.j.lo >= w.j.hi) ==> p == 0.0
    ensures NonNegativeGrid(g) ==> 0.0 <= p <= Total(g)
  {
    var w := AffectedWindow(g, centre, r);
    var p := BlockSum(g.cells, g.cols, w.i.lo, w.i.hi, w.j.lo, w.j.hi);
    assert NonNegativeGrid(g) ==> 0.0 <= p <= Total(g) by {
      if NonNegativeGrid(g) {
        BlockAtMostTotal(g, w.i.lo, w.i.hi, w.j.lo, w.j.hi);
      }
    }
    p
  }

  /** Any block of a grid of non-negative counts holds between 0 and the grid's total. */
  lemma BlockAtMostTotal(g: Grid, iLo: int, iHi: int, jLo: int, jHi: int)
    requires ValidGrid(g) && NonNegativeGrid(g)
    requires 0 <= iLo && iHi <= g.rows && 0 <= jLo && jHi <= g.cols
    ensures 0.0 <= BlockSum(g.cells, g.cols, iLo, iHi, jLo, jHi) <= Total(g)
  {
    BlockSumNonNegative(g.cells, g.cols, iLo, iHi, jLo, jHi);
    BlockSumNonNegative(g.cells, g.cols, 0, g.rows, 0, g.cols);
    FullBlockIsTotal(g.cells, g.cols);
    if iLo < iHi && jLo < jHi {
      BlockSumWithin(g.cells, g.cols, Window(Span(iLo, iHi), Span(jLo, jHi)), Window(Span(0, g.rows), Span(0, g.cols)));
    }
  }

  /**
   * Over non-negative counts, a wider half-width never lowers the corrected
   * window sum.  The sum as the source slices it can fall instead; see
   * AsWrittenNotMonotoneInHalfWidth.
   */
  lemma AffectedGrowsWithHalfWidth(g: Grid, centre: Point, r1: nat, r2: nat)
    requires ValidGrid(g) && NonNegativeGrid(g) && r1 <= r2
    ensures AffectedPopulation(g, centre, r1) <= AffectedPopulation(g, centre, r2)
  {
    var w1, w2 := AffectedWindow(g, centre, r1), AffectedWindow(g, centre, r2);
    AxisSpanGrows(centre.x, g.rows, r1, r2);
    AxisSpanGrows(centre.y, g.cols, r1, r2);
    if w1.i.lo < w1.i.hi && w1.j.lo < w1.j.hi {
      BlockSumWithin(g.cells, g.cols, w1, w2);
    } else {
      BlockSumNonNegative(g.cells, g.cols, w2.i.lo, w2.i.hi, w2.j.lo, w2.j.hi);
    }
  }

  /**
   * Exactly the cells inside the window count towards the corrected sum: raising one cell's
   * population by some amount raises the affected population by that
   * amount when the cell lies in the window, and leaves it alone otherwise.
   */
  lemma AffectedCountsExactlyTheWindow(g: Grid, centre: Point, r: nat, a: nat, b: nat, v: real)
    requires ValidGrid(g) && a < g.rows && b < g.cols
    ensures ValidGrid(g.(cells := g.cells[a := g.cells[a][b := v]]))
    ensures AffectedPopulation(g.(cells := g.cells[a := g.cells[a][b := v]]), centre, r)
         == AffectedPopulation(g, centre, r)
            + (if InWindow(AffectedWindow(g, centre, r), a, b) then v - g.cells[a][b] else 0.0)
  {
    BlockSumUpdate(g.cells, g.cols, AffectedWindow(g, centre, r), a, b, v);
  }

  // ---------------------------------------------------------------------------
  // The slice as the source writes it

  /**
   * Where NumPy puts a slice bound `b` on an axis of length `len` (step 1):
   * a negative bound counts back from the far end, and every bound is
   * clipped to [0, len].
   */
  function SliceBound(b: int, len: nat): (k: nat)
    ensures k <= len
    ensures 0 <= b <= len ==> k == b
    ensures b < 0 && len + b >= 0 ==> k == len + b
    ensures b > len ==> k == len
    ensures len + b < 0 ==> k == 0
  {
    if b < 0 then Max(0, len + b) else Min(b, len)
  }

  /**
   * `find_affected_population` exactly as written: the window's ends are
   * passed to NumPy slicing, so an end below 0 wraps around to the far edge.
   */
  function AffectedPopulationAsWritten(g: Grid, centre: Point, r: nat): (p: real)
    requires ValidGrid(g)
    ensures NonNegativeGrid(g) ==> 0.0 <= p <= Total(g)
  {
    var w := AffectedWindow(g, centre, r);
    var (iLo, iHi) := (SliceBound(w.i.lo, g.rows), SliceBound(w.i.hi, g.rows));
    var (jLo, jHi) := (SliceBound(w.j.lo, g.cols), SliceBound(w.j.hi, g.cols));
    var p := BlockSum(g.cells, g.cols, iLo, iHi, jLo, jHi);
    assert NonNegativeGrid(g) ==> 0.0 <= p <= Total(g) by {
      if NonNegativeGrid(g) {
        BlockAtMostTotal(g, iLo, iHi, jLo, jHi);
      }
    }
    p
  }

  /** Three rows by one column, five people in each cell. */
  const StripGrid: Grid := Grid(3, 1, [[5.0], [5.0], [5.0]])

  /**
   * A centre three cells west of the grid with half-width 0 has a window
   * [0, -2) on the first axis, which lies wholly outside the grid; the
   * slice `[0:-2]` nevertheless takes the first row.
   */
  lemma AsWrittenCountsRowsOutsideTheWindow()
    ensures ValidGrid(StripGrid)
    ensures AffectedWindow(StripGrid, Point(-300.0, 0.0), 0) == Window(Span(0, -2), Span(0, 1))
    ensures AffectedPopulation(StripGrid, Point(-300.0, 0.0), 0) == 0.0
    ensures AffectedPopulationAsWritten(StripGrid, Point(-300.0, 0.0), 0) == 5.0
  {
  }

  /**
   * As the source slices it, a wider half-width can lower the sum: with the
   * centre three cells west of the grid, half-width 1 gives the end -1 and
   * the slice `[0:-1]` takes two rows, while half-width 2 gives the end 0
   * and the slice `[0:0]` takes none.
   */
  lemma AsWrittenNotMonotoneInHalfWidth()
    ensures ValidGrid(StripGrid)
    ensures AffectedPopulationAsWritten(StripGrid, Point(-300.0, 0.0), 1) == 10.0
    ensures AffectedPopulationAsWritten(StripGrid, Point(-300.0, 0.0), 2) == 0.0
  {
  }

  /**
   * The slice and the window agree whenever neither end of the window is
   * negative, which is always so for a centre at non-negative coordinates.
   */
  lemma AsWrittenAgreesWhenEndsNonNegative(g: Grid, centre: Point, r: nat)
    requires ValidGrid(g)
    requires AffectedWindow(g, centre, r).i.hi >= 0 && AffectedWindow(g, centre, r).j.hi >= 0
    ensures AffectedPopulationAsWritten(g, centre, r) == AffectedPopulation(g, centre, r)
  {
  }

  lemma NonNegativeCentreEndsNonNegative(g: Grid, centre: Point, r: nat)
    requires centre.x >= 0.0 && centre.y >= 0.0
    ensures AffectedWindow(g, centre, r).i.hi >= 0 && AffectedWindow(g, centre, r).j.hi >= 0
  {
  }
}
