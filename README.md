# Outbreak analyser: a Dafny model of its geometric core

`outbreak_analyser.py` estimates where an airborne outbreak started and how many people live
near it. It reads a case list and a population grid of 100 m cells. It then:

1. compares every reported case with every other case (`calculate_distance_matrix`);
2. takes the pair of cases that lie farthest apart, with NumPy's `argmax` deciding ties, and calls
   the location of the first case of that pair the *outbreak centre* (`find_outbreak_centre`);
3. turns the largest distance into a half-width `r` in cells;
4. adds up the population in the square of cells within `r` cells of the centre's cell, clipped to
   the grid (`find_affected_population`);
5. compares that sum with the population of the whole grid.

This project models steps 1–4 and the grid total of step 5 as Dafny functions, and proves what
they promise.

* `numeric.dfy` (module `Numeric`): Python's `max`, `min` and `int()` on floats, which truncates
  toward zero. It also holds the division facts behind NumPy's `unravel_index`.
* `outbreak_centre.dfy` (module `OutbreakCentre`): case rows, the squared distance matrix, NumPy's
  row-major `ravel`, `argmax` and `unravel_index`, and the outbreak centre.
* `affected_population.dfy` (module `AffectedPopulation`): the population grid, the half-width,
  the clamped window, window sums and the grid total. It also holds a model of the slice exactly as
  NumPy evaluates it (see Findings).

Modelling choices:

* Coordinates and population counts are `real`, because the source loads both as floats.
* Distances are kept squared. The real square root, which `np.sqrt` approximates, is strictly
  increasing on non-negative numbers, so it changes no comparison.
  `OutbreakCentre.ArgMaxFirstUnderMonotone` proves that any such map leaves the first argmax where
  it was. The float64 square root is only non-decreasing: two distinct squared distances can round
  to the same float, and the float argmax may then pick an earlier entry than the model.
* `int(max_distance / 100)` is modelled by `AffectedPopulation.HalfWidth` on the squared distance.
  It returns the `r` with (100·r)² ≤ d < (100·(r+1))². `AffectedPopulation` itself takes `r` as a
  parameter.
* The first grid index `i` is bounded by `shape[0]` and comes from the centre's X. The second
  index `j` is bounded by `shape[1]` and comes from Y. Both axes use the same `r`. The source calls
  `shape[0]` `east_west_cells` (outbreak_analyser.py:142), yet its plot draws X along the
  horizontal axis, labelled East-West (outbreak_analyser.py:73-75), and `imshow` puts the column
  index there. The window is therefore transposed relative to the plot. The model follows the
  window code and makes no claim about which compass direction each axis is.
* `int()` truncates toward zero, so the cells just west and just east of the origin land on the
  same index: `AffectedPopulation.TruncationMergesCellsAroundOrigin` shows a centre at X = -50 with
  half-width 0 giving an empty span. This is why `UnclampedSpanIsCentred` needs a non-negative
  coordinate.
* The file header says the pathogen spreads evenly in all directions, forming a circle
  (outbreak_analyser.py:26). The code sums a square of (2r+1)×(2r+1) cells, and the model sums that
  square.
* The docstring of `find_outbreak_centre` says the centre is found "based on the maximum distance
  between cases" (outbreak_analyser.py:117). The code returns the location of one case: the row of
  the first largest entry of the distance matrix. `OutbreakCentre.CentreEndsAFarthestPair` states
  what that means: the centre is one end of a farthest pair.

## Model

| member | source | states |
|---|---|---|
| `OutbreakCentre.SqDist` | outbreak_analyser.py:112 | The squared distance is never negative and is 0 from a point to itself. |
| `OutbreakCentre.DistanceMatrix` | outbreak_analyser.py:110-113 | The matrix is n×n. Entry (i, j) is the squared distance between the locations of cases i and j, where `Location` reads a case's X from column 1 and its Y from column 2. It is symmetric, non-negative and 0 on the diagonal. |
| `OutbreakCentre.DistanceMatrixUsesOnlyLocations` | outbreak_analyser.py:110-111 | Two case tables that agree on columns 1 and 2 give the same matrix. No other column is read. |
| `OutbreakCentre.Ravel` | outbreak_analyser.py:126 | Flattening an n-row matrix of width w gives n·w entries. |
| `OutbreakCentre.RavelAt` | outbreak_analyser.py:126 | Flat index k holds entry (k / w, k % w), which is row-major order. |
| `OutbreakCentre.RavelEntry` | outbreak_analyser.py:126 | Entry (i, j) of the matrix sits at flat index i·w + j, inside the flattened sequence. |
| `OutbreakCentre.ArgMaxFirst` | outbreak_analyser.py:126 | `argmax` returns an index in range. No element exceeds the element there, and every earlier element is strictly smaller. |
| `OutbreakCentre.Unravel` | outbreak_analyser.py:126 | `unravel_index` on shape (n, n) gives a row and a column below n, and row·n + column is the flat index. |
| `OutbreakCentre.RowMajorIsFlatOrder` | outbreak_analyser.py:126 | Entry (a, b) comes before (i, j) row by row exactly when a·n + b < i·n + j. |
| `OutbreakCentre.FirstMaxEntry` | outbreak_analyser.py:126 | `unravel_index(argmax(m))` is the first largest entry in row-major order. No entry exceeds it, and every earlier entry is strictly smaller. |
| `OutbreakCentre.FirstMaxEntryUnique` | outbreak_analyser.py:126 | Only one entry has that property, so it fully describes what NumPy returns. |
| `OutbreakCentre.CentreRowBeforeColumn` | outbreak_analyser.py:125-127 | In the first largest entry (i, j) the row index is at most the column index, and strictly smaller when the distance is positive. The centre's row i is therefore the first case of the farthest pair. |
| `OutbreakCentre.FindOutbreakCentre` | outbreak_analyser.py:115-128 | The centre is the location of row i, where (i, j) is the first largest entry of the distance matrix. The location is `Location`, columns 1 and 2 of the row (the slice `1:3`). At least one case is needed. |
| `OutbreakCentre.CentreIsACaseLocation` | outbreak_analyser.py:127 | The centre's X and Y equal columns 1 and 2 of some input case's row. |
| `OutbreakCentre.MaxSqDistance` | outbreak_analyser.py:169 | `np.max` of the matrix: no pair of cases is farther apart, and some pair is exactly that far apart. |
| `OutbreakCentre.CentreEndsAFarthestPair` | outbreak_analyser.py:125-127 | Some case lies exactly the maximum distance from the centre, so the centre is one end of a farthest pair. |
| `OutbreakCentre.CoincidentCasesCentre` | outbreak_analyser.py:125-127 | If every case has the same location, every distance is 0 and the centre is the first case's location. |
| `OutbreakCentre.ArgMaxFirstUnderMonotone` | outbreak_analyser.py:112 | A strictly increasing map of non-negative values, such as the real square root, leaves the first argmax unchanged. |
| `OutbreakCentre.KeepsOrder` | outbreak_analyser.py:112 | A map strictly increasing on non-negative values keeps both `<=` and `<` between them, in both directions. |
| `Numeric.Trunc` | outbreak_analyser.py:150-154 | Python's `int()` on a float rounds toward zero. The result lies within 1 of the input and on the zero side of it. |
| `Numeric.TruncMonotone` | outbreak_analyser.py:150-154 | Truncation preserves order. |
| `Numeric.DivBelow` | outbreak_analyser.py:126 | A flat index below n·w splits as (k / w)·w + k % w with row k / w below n, which `unravel_index` relies on. |
| `Numeric.Max` | outbreak_analyser.py:150 | The result is at least both arguments and is one of them. |
| `Numeric.Min` | outbreak_analyser.py:151 | The result is at most both arguments and is one of them. |
| `AffectedPopulation.HalfWidth` | outbreak_analyser.py:147-148 | `int(sqrt(d) / 100)` is the r with (100·r)² ≤ d < (100·(r+1))². |
| `AffectedPopulation.HalfWidthFrom` | outbreak_analyser.py:147 | A search from r upward stops at the last r whose r cells still fit within the distance. |
| `AffectedPopulation.AxisSpan` | outbreak_analyser.py:150-154 | On each axis the window starts at 0 or later and ends at the axis length or earlier. |
| `AffectedPopulation.AffectedWindow` | outbreak_analyser.py:142-154 | `0 <= start_i`, `end_i <= shape[0]`, `0 <= start_j` and `end_j <= shape[1]`. |
| `AffectedPopulation.CellIndex` | outbreak_analyser.py:145 | A non-negative coordinate lies in cell k when 100·k ≤ c < 100·(k+1). |
| `AffectedPopulation.AxisSpanOfNonNegative` | outbreak_analyser.py:145-154 | For a non-negative coordinate, truncating then clamping gives `max(0, k - r)` and `min(len, k + r + 1)` for the cell index k. |
| `AffectedPopulation.UnclampedSpanIsCentred` | outbreak_analyser.py:150-154 | When no clamping happens, the window on an axis is [k - r, k + r + 1): 2r+1 cells centred on the centre's cell k. |
| `AffectedPopulation.TruncationMergesCellsAroundOrigin` | outbreak_analyser.py:150-154 | A centre at X = -50 with half-width 0 gives the empty span [0, 0): truncation toward zero sends -0.5 and 0.5 both to 0. |
| `AffectedPopulation.AxisSpanGrows` | outbreak_analyser.py:147-154 | A larger half-width never gives a smaller window on either axis. |
| `AffectedPopulation.BlockSum` | outbreak_analyser.py:156 | The sum over rows [iLo, iHi) and columns [jLo, jHi) is 0 when the column range is empty. |
| `AffectedPopulation.Total` | outbreak_analyser.py:175 | `np.sum(population_matrix)` equals the block sum over every row and every column of the grid. |
| `AffectedPopulation.BlockSumUpdate` | outbreak_analyser.py:156 | Changing cell (a, b) changes the block sum over [iLo, iHi) × [jLo, jHi) by exactly the change when the cell lies in the block, and not at all otherwise. |
| `AffectedPopulation.FullBlockIsTotal` | outbreak_analyser.py:175 | The window covering every cell adds up to `np.sum(population_matrix)`. |
| `AffectedPopulation.BlockSumWithin` | outbreak_analyser.py:156 | Over non-negative counts, a block inside another block never holds more people. |
| `AffectedPopulation.BlockAtMostTotal` | outbreak_analyser.py:156 | Over non-negative counts, any in-range block holds between 0 and the grid total. |
| `AffectedPopulation.AffectedPopulation` | outbreak_analyser.py:130-158 | The result is 0 when the window is empty on either axis. Over non-negative counts it lies between 0 and the grid total. |
| `AffectedPopulation.AffectedGrowsWithHalfWidth` | outbreak_analyser.py:147-156 | Over non-negative counts, a wider half-width never lowers the corrected window sum. The sum as the source slices it can fall instead (`AsWrittenNotMonotoneInHalfWidth`). |
| `AffectedPopulation.AffectedCountsExactlyTheWindow` | outbreak_analyser.py:156 | Changing one cell by some amount changes the corrected window sum by that amount if and only if the cell is in the window [start_i, end_i) × [start_j, end_j). |
| `AffectedPopulation.SliceBound` | outbreak_analyser.py:156 | NumPy keeps a slice bound inside [0, len] as it is. A negative bound counts back from the far end. A bound above len is clipped to len, and a negative bound reaching past the start is clipped to 0. |
| `AffectedPopulation.AffectedPopulationAsWritten` | outbreak_analyser.py:150-156 | The sum as NumPy slices it still lies between 0 and the grid total (non-negative counts). |
| `AffectedPopulation.AsWrittenCountsRowsOutsideTheWindow` | outbreak_analyser.py:151-156 | A centre at X = -300 gives `end_i = -2`. The window holds nobody, yet the slice `[0:-2]` adds up the first row. |
| `AffectedPopulation.AsWrittenNotMonotoneInHalfWidth` | outbreak_analyser.py:147-156 | As written, a wider half-width can lower the sum: on the 3×1 grid of 5s with the centre at X = -300, r = 1 gives `end_i = -1` and the slice `[0:-1]` sums to 10, while r = 2 gives `end_i = 0` and the sum 0. |
| `AffectedPopulation.AsWrittenAgreesWhenEndsNonNegative` | outbreak_analyser.py:150-156 | When neither window end is negative, the slice sums exactly the window. |
| `AffectedPopulation.NonNegativeCentreEndsNonNegative` | outbreak_analyser.py:151-154 | A centre at non-negative coordinates never gives a negative window end. |

## Left out

- `load_data` (outbreak_analyser.py:39-52) reads CSV files from disk; the case table and the grid are inputs here.
- `plot_population` (outbreak_analyser.py:55-98) draws and saves an image with matplotlib. This is user interface and file output.
- The percentage, the `round` calls and the console output (outbreak_analyser.py:177-183) are float formatting and printing.
- The module-level script (outbreak_analyser.py:160-186) only calls the modelled functions one after another. The centre, the largest distance, the half-width, the affected population and the total are each modelled.
- Floating-point rounding: coordinates, distances and counts are exact reals, and `np.sqrt` is replaced by squared distances. Float64 `sqrt` can map two distinct squared distances to the same value, so the float argmax can differ from the model's on near-ties.
- `OutbreakCentre.FindOutbreakCentre`: an empty case list is excluded by its precondition. In the source, `argmax` raises `ValueError` there.
- `OutbreakCentre.MaxSqDistance`: an empty case list is excluded by its precondition. In the source, `np.max` raises `ValueError` there.
- `OutbreakCentre.DistanceMatrix`: rows with fewer than three columns are excluded by its precondition. In the source, the column index raises `IndexError` there.
- `AffectedPopulation.AffectedPopulation`: this is the corrected window sum (see Findings). The NumPy wrap-around of a negative end is modelled separately, by `AffectedPopulationAsWritten`.

## Findings

| source | as written | input that shows it | evidently intended | confidence | as-written member | corrected member |
|---|---|---|---|---|---|---|
| outbreak_analyser.py:151-156 | `end_i = min(east_west_cells, int(...))` can be negative when the centre lies far west of the grid (likewise `end_j` to the south). NumPy then reads the slice end as counting back from the far edge, so rows or columns outside the window are added. | A 3×1 grid with 5 people per cell, centre (-300, 0), half-width 0. The window is rows [0, -2), which contains no row, yet `population_matrix[0:-2, 0:1]` sums to 5. On the same grid the sum also falls as the half-width grows: 10 at r = 1 (slice `[0:-1]`) but 0 at r = 2 (slice `[0:0]`), shown by `AffectedPopulation.AsWrittenNotMonotoneInHalfWidth`. | A window lying wholly outside the grid holds nobody, and only cells with start ≤ index < end count, so a wider window never holds fewer people. | not executed; only reachable when case coordinates are negative | `AffectedPopulation.AsWrittenCountsRowsOutsideTheWindow` | `AffectedPopulation.AffectedCountsExactlyTheWindow` |
