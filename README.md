# Grid FAST feature selection, modelled in Dafny

This project models `Grider_FAST`, the grid feature selector of the loop-fusion
front end. Its two members are:

- `compare_response` orders two keypoints by descending detector response.
- `perform_griding` sizes its cells `cols/grid_x` × `rows/grid_y` pixels and
  computes a per-cell quota `num_features/(grid_x*grid_y) + 1`. It then walks the cell origins, column
  after column and top to bottom within each column. Each cell that fits inside
  the image goes to the FAST corner detector, and the detections are sorted by
  descending response. The first `min(quota, candidates)` of them are moved
  from the cell's frame into the image's frame and appended to the caller's
  output vector.

Three modules:

- `KeyPoints` (`keypoint.dfy`) holds:
  - the keypoint record;
  - the comparator and its strict-weak-order property;
  - the sort, a method proved to return a sorted permutation;
  - `IsTopK`, which says what it means to keep the best `limit` candidates
    (equal responses may be broken either way, as `std::sort` is not stable);
  - the output vector `KeyPointVector`, a class that is only ever appended to.
- `Grid` (`grid.dfy`) holds the cell geometry:
  - C++ truncating division `CDiv` and the cell-size assertions `ValidGrid`;
  - the walk the two loops perform (`ColumnScan`, `GridScan`);
  - its closed form `VisitedCells`: columns `i < cols/size_x`, rows
    `j < rows/size_y`, cell `(i*size_x, j*size_y, size_x, size_y)`.
- `GriderFast` (`grider_fast.dfy`) holds:
  - the quota, including the cast to 64-bit `size_t`;
  - the moved keypoints;
  - the imperative selector `PerformGriding`, with its loops as methods
    carrying loop invariants;
  - the lemmas about its output.

The corner detector is a parameter `fast : (Rect, threshold, nonmaxSuppression)
-> seq<KeyPoint>`. The image pixels are captured inside it.
`PerformGriding` returns a ghost `kept`: for each visited cell, the candidates
that cell contributed. Its contract is relational:

- every `kept[k]` is a best-quota selection of `fast(cell k)`;
- the vector's new contents are its old contents followed by each visited
  cell's `kept[k]`, shifted by that cell's origin, cell after cell in visiting
  order.

The code visits `cols/size_x` columns and `rows/size_y` rows of cells. That can
be more than `grid_x` by `grid_y`: with 11 columns of pixels and `grid_x = 4`,
cells are 2 wide and five columns of cells are visited. Only a strip narrower
than one cell, on the right and at the bottom, is never scanned. So the
scanned area does not end at `grid_x * size_x`: it ends at
`(cols/size_x) * size_x`, less than one cell short of the image edge
(`VisitedGridSize`, `MoreColumnsThanGridExample`).

## Model

| member | source | states |
|---|---|---|
| KeyPoints.CompareResponse | loop_fusion/src/utility/Grider_FAST.h:51-53 | the comparator: `first` goes before `second` iff its response is strictly larger; it never relates a point to itself |
| KeyPoints.CompareResponseIsStrictWeakOrder | loop_fusion/src/utility/Grider_FAST.h:51-53 | the comparator holds iff `a.response > b.response`; it is irreflexive, asymmetric and transitive, and two points are unordered exactly when their responses are equal |
| KeyPoints.SortByResponse | loop_fusion/src/utility/Grider_FAST.h:91 | the sort returns a permutation (same multiset) of the detections, in non-increasing response order |
| KeyPoints.InsertKeepsSorted | loop_fusion/src/utility/Grider_FAST.h:91 | inserting a point before the first weaker one keeps the sequence sorted and adds exactly that point |
| KeyPoints.TopKOfSorted | loop_fusion/src/utility/Grider_FAST.h:91-102 | the first `min(limit, n)` points of any sorted permutation of the candidates are a best-`limit` selection: that many points, sorted, drawn from the candidates, and none weaker than a dropped candidate, whatever order ties got |
| KeyPoints.TopKUnderQuotaKeepsAll | loop_fusion/src/utility/Grider_FAST.h:102 | when the quota is at least the number of candidates, every candidate is kept |
| KeyPoints.KeyPointVector.constructor | loop_fusion/src/utility/Grider_FAST.h:61 | a new output vector is empty |
| KeyPoints.KeyPointVector.PushBack | loop_fusion/src/utility/Grider_FAST.h:106 | appending adds exactly one point at the end and keeps the rest |
| Grid.CDiv | loop_fusion/src/utility/Grider_FAST.h:65-66 | C++ `int` division: the quotient's magnitude is the floor of `Abs(a) / Abs(b)`, and it is non-negative when the operands' signs agree and non-positive when they differ (truncation toward zero) |
| Grid.ColumnScan | loop_fusion/src/utility/Grider_FAST.h:77-81 | the inner loop's walk from `y`: empty iff the cell at `y` does not fit; otherwise it starts with `Rect(x, y, size_x, size_y)` and its last cell, still in column `x`, ends inside the image |
| Grid.GridScanEmptyIff | loop_fusion/src/utility/Grider_FAST.h:76-81 | the outer loop's walk `GridScan` from `x`: empty iff the column at `x` sticks out of the image or a cell is taller than the image |
| Grid.ValidGridIff | loop_fusion/src/utility/Grider_FAST.h:65-70 | both cell-size assertions hold iff `0 < grid_x <= cols` and `0 < grid_y <= rows`; then the C++ quotient is the ordinary one |
| Grid.SizeIff | loop_fusion/src/utility/Grider_FAST.h:65-70 | along one dimension, `extent / g` (C++ division) is positive iff `0 < g <= extent`, negative grid counts included |
| Grid.FitsIff | loop_fusion/src/utility/Grider_FAST.h:76-80 | `k` cells of width `s` fit in `extent` iff `k <= extent / s` |
| Grid.FittingCell | loop_fusion/src/utility/Grider_FAST.h:80-84 | the loop body works on the cell at `(x, y)` iff `x + size_x <= cols` and `y + size_y <= rows`, and that cell is `Rect(x, y, size_x, size_y)` |
| Grid.ColumnTailStep | loop_fusion/src/utility/Grider_FAST.h:77-81 | one pass of the inner loop visits the fitting cell at `y`, if any, and leaves the column from `y + size_y` |
| Grid.GridScanStep | loop_fusion/src/utility/Grider_FAST.h:76-81 | one pass of the outer loop visits the whole column at `x` when it fits and nothing otherwise, and leaves the columns from `x + size_x` |
| Grid.ColumnScanIsColumn | loop_fusion/src/utility/Grider_FAST.h:77-81 | the inner loop's walk from row `j` is exactly the rest of column `i` of the grid |
| Grid.GridScanIsColumns | loop_fusion/src/utility/Grider_FAST.h:76-81 | the outer loop's walk from column `i` is exactly columns `i ..` of the grid |
| Grid.ScanVisitsGrid | loop_fusion/src/utility/Grider_FAST.h:76-81 | the two loops visit exactly the cells of `VisitedCells`, in that order |
| Grid.VisitedGridSize | loop_fusion/src/utility/Grider_FAST.h:65-81 | `cols/size_x` × `rows/size_y` cells are visited; that is at least `grid_x` × `grid_y`, and the unscanned strips are narrower than one cell |
| Grid.VisitedCellAt | loop_fusion/src/utility/Grider_FAST.h:76-84 | cell `(i, j)` is the `i*nRows + j`-th visited, so all of a column comes before the next column, and it is `Rect(i*size_x, j*size_y, size_x, size_y)` |
| Grid.VisitedCellsInBounds | loop_fusion/src/utility/Grider_FAST.h:80-84 | every visited cell has size `size_x` × `size_y` and lies inside the covered part of the image |
| Grid.MoreColumnsThanGridExample | loop_fusion/src/utility/Grider_FAST.h:65-81 | with 11 columns of pixels and `grid_x = 4`, five columns of cells are visited, the last at `x = 8` |
| GriderFast.SizeT | loop_fusion/src/utility/Grider_FAST.h:102 | the `(size_t)` cast: the result is below 2^64, equal to the value when it is in range, and the value plus 2^64 when it is negative (down to −2^64) |
| GriderFast.Quota | loop_fusion/src/utility/Grider_FAST.h:73 | the per-cell quota `num_features / (grid_x * grid_y) + 1` with C++ division; at least 1 for a non-negative budget over a positive grid |
| GriderFast.QuotaCoversFeatures | loop_fusion/src/utility/Grider_FAST.h:73 | for `num_features >= 0` the quota is at least 1, unchanged by the `size_t` cast, and the least per-cell count whose total exceeds `num_features` |
| GriderFast.QuotaNegativeFeatures | loop_fusion/src/utility/Grider_FAST.h:73 | for `num_features < 0` the quota is 1, 0 or negative according to `-num_features` against `grid_x*grid_y`; 0 keeps nothing and a negative quota wraps to a huge `size_t` |
| GriderFast.Offset | loop_fusion/src/utility/Grider_FAST.h:103-105 | a moved point differs from the candidate by exactly the cell origin in `x` and `y`, and in no other field |
| GriderFast.OffsetAllKeepsOrder | loop_fusion/src/utility/Grider_FAST.h:103-105 | moving the kept points keeps their response order |
| GriderFast.FlattenAppend | loop_fusion/src/utility/Grider_FAST.h:106 | appending the blocks of two runs of cells gives the first run's output followed by the second's |
| GriderFast.GridSelectionAppend | loop_fusion/src/utility/Grider_FAST.h:91-102 | per-cell best-quota selections of two runs of cells combine into the selection of the joined run |
| GriderFast.GridSelectionPrefix | loop_fusion/src/utility/Grider_FAST.h:91-102 | the selection of a run restricts to any prefix of it |
| GriderFast.RunStep | loop_fusion/src/utility/Grider_FAST.h:76-107 | after a run of cells is processed, the processed prefix, the selection and the output vector all grow by that run |
| GriderFast.AppendBest | loop_fusion/src/utility/Grider_FAST.h:84-107 | for one cell, exactly a best-quota selection of the detections, shifted by the cell origin and in sorted order, is appended, and nothing else |
| GriderFast.VisitCell | loop_fusion/src/utility/Grider_FAST.h:79-107 | the body of the inner loop: a cell sticking out of the image adds nothing, and any other cell adds its best-quota selection |
| GriderFast.ScanColumn | loop_fusion/src/utility/Grider_FAST.h:77-110 | the inner loop processes every cell of the column at `x` top to bottom when the column fits, and nothing when it does not |
| GriderFast.ScanGrid | loop_fusion/src/utility/Grider_FAST.h:76-111 | the outer loop processes the columns left to right, appending each column's output in turn |
| GriderFast.PerformGriding | loop_fusion/src/utility/Grider_FAST.h:61-111 | the vector's old contents stay as a prefix; after them come, cell by cell in visiting order, a best-`size_t(quota)` selection of each visited cell's detections, moved to the cell's origin |
| GriderFast.KeptCountBound | loop_fusion/src/utility/Grider_FAST.h:102 | no more than the quota is taken from any cell |
| GriderFast.EmittedLength | loop_fusion/src/utility/Grider_FAST.h:102 | exactly `min(quota, candidates)` points are appended per cell |
| GriderFast.OutputBound | loop_fusion/src/utility/Grider_FAST.h:73-102 | with `num_features >= 0` at most `quota * (cols/size_x) * (rows/size_y)` points are appended |
| GriderFast.CellBlock | loop_fusion/src/utility/Grider_FAST.h:91-106 | cell `k`'s block follows the blocks of the cells before it. It holds `min(quota, candidates)` points in non-increasing response order, each at least as strong as every candidate of that cell that was dropped |
| GriderFast.EmittedProvenance | loop_fusion/src/utility/Grider_FAST.h:84-106 | every appended point is a kept detection of some visited cell, moved to that cell's origin |
| GriderFast.EmittedInCell | loop_fusion/src/utility/Grider_FAST.h:84-105 | if the detector reports points inside the cell's own frame, every appended point lies in `[x, x+size_x) × [y, y+size_y)` of its cell |
| GriderFast.EmittedInScannedArea | loop_fusion/src/utility/Grider_FAST.h:76-105 | for such a detector every appended point lies in the part of the image the grid covers, and so inside the image |

## Left out

- The corner detector's internals (`cv::FAST`: scoring and non-maximum suppression) are an opaque parameter; the model only assumes it is a function of the cell, the threshold and the flag.
- `cv::Mat` pixel storage and the ROI sub-image view; only the rectangle arithmetic is modelled.
- Floating point: keypoint coordinates and responses are reals, so the `(float)x` casts round nothing and NaN responses do not occur.
- The two `assert`s on the cell size are a precondition (`ValidGrid`) of `PerformGriding`, not an abort. `ValidGrid` also rules out `grid_x == 0` and `grid_y == 0`, which in C++ divide by zero at lines 65-66, before the asserts are reached.
- In a build with `NDEBUG` the asserts are compiled out. Then `grid_x > cols` gives `size_x == 0`, `x += size_x` at line 76 never advances, and the outer loop never ends (likewise `y` at line 77). The model does not cover that input: `ScanGrid`'s `decreases img.cols - x` and `ScanColumn`'s `decreases img.rows - y` rely on the `ValidGrid` precondition.
- 32-bit signed overflow is not modelled; all arithmetic is unbounded. This covers `grid_x * grid_y` and the quota's `+ 1` at line 73 (at `num_features = INT_MAX` with a 1×1 grid the C++ quota wraps to `INT_MIN`, whose `size_t` is 2^64 − 2^31, where the model has 2^31; both keep every candidate), the bound tests `x + size_x` / `y + size_y` at line 80, and the steps `x += size_x` / `y += size_y` at lines 76-77.
- A failure of the corner detector (a thrown `cv::Exception`) is not modelled: `Detector` is a total function. In C++ the exception would leave `pts` holding the points of the cells already processed.
- SortByResponse: works on a sequence value, not in place on the vector, and its body is an insertion sort; callers rely only on its contract (a sorted permutation), so the order `std::sort` gives to equal responses is left open, as in the source.
- The loop nest is split into the methods ScanGrid (outer loop), ScanColumn (inner loop), VisitCell (loop body) and AppendBest (per-cell work); their composition is the C++ `perform_griding`.
- The commented-out debug printing and the include lines are not modelled.
