/** The geometry of the grid: cell sizes from integer division, the cells
    the two nested loops visit, and what that set of cells looks like. */
module Grid {

  /** The image, reduced to its dimensions; its pixels are only ever seen by
      the corner detector. */
  datatype Image = Image(cols: nat, rows: nat)

  /** A region of interest: origin and extent. */
  datatype Rect = Rect(x: int, y: int, width: int, height: int)

  function Abs(a: int): nat
  {
    if a < 0 then -a else a
  }

  lemma DivNonNeg(n: nat, d: int)
    requires d > 0
    ensures n / d >= 0
  {
  }

  /** C++ integer division, which truncates toward zero: the quotient's
      magnitude is the floor of the magnitudes' quotient, and its sign is
      the product of the operands' signs (or it is zero). */
  function CDiv(a: int, b: int): (r: int)
    requires b != 0
    ensures Abs(r) == Abs(a) / Abs(b)
    ensures (a < 0) == (b < 0) ==> r >= 0
    ensures (a < 0) != (b < 0) ==> r <= 0
  {
    DivNonNeg(Abs(a), Abs(b));
    var q := Abs(a) / Abs(b);
    if (a < 0) == (b < 0) then q else -q
  }

  /** The two assertions on the cell size: `cols / grid_x` and
      `rows / grid_y` (C++ division) must both be strictly positive. */
  predicate ValidGrid(img: Image, gridX: int, gridY: int)
  {
    gridX != 0 && gridY != 0 && CDiv(img.cols, gridX) > 0 && CDiv(img.rows, gridY) > 0
  }

  /** For a positive step `s`, `k` whole steps fit in `extent` exactly when
      `k <= extent / s`. */
  lemma FitsIff(k: int, s: int, extent: nat)
    requires k >= 0 && s > 0
    ensures k * s <= extent <==> k <= extent / s
  {
    var q := extent / s;
    assert q * s <= extent < q * s + s;
    if k <= q {
      MulMono(k, q, s);
    } else {
      MulMono(q + 1, k, s);
      assert (q + 1) * s == q * s + s;
    }
  }

  /** The cell-size assertions pass exactly when both grid counts are positive
      and no larger than the image dimension they divide; in that case C++
      division and Dafny's agree on the cell size. */
  lemma ValidGridIff(img: Image, gridX: int, gridY: int)
    ensures ValidGrid(img, gridX, gridY) <==> 0 < gridX <= img.cols && 0 < gridY <= img.rows
    ensures ValidGrid(img, gridX, gridY) ==>
              CDiv(img.cols, gridX) == img.cols / gridX && CDiv(img.rows, gridY) == img.rows / gridY
  {
    SizeIff(img.cols, gridX);
    SizeIff(img.rows, gridY);
  }

  /** Along one dimension: the C++ quotient `extent / g` is positive exactly
      when `0 < g <= extent`, and then it is the ordinary quotient. */
  lemma SizeIff(extent: nat, g: int)
    ensures g != 0 ==> (CDiv(extent, g) > 0 <==> 0 < g <= extent)
    ensures 0 < g ==> CDiv(extent, g) == extent / g
  {
    if g > 0 {
      assert CDiv(extent, g) == extent / g by {
        assert Abs(extent) == extent && Abs(g) == g;
      }
      FitsIff(1, g, extent);
    } else if g < 0 {
      assert CDiv(extent, g) <= 0 by {
        assert Abs(extent) == extent && Abs(g) == -g;
        assert extent / -g >= 0;
      }
    }
  }

  /** The cells of column `i`, top to bottom: rows `0 .. nRows-1`. */
  function ColumnCells(i: int, nRows: nat, sizeX: int, sizeY: int): seq<Rect>
  {
    seq(nRows, j => Rect(i * sizeX, j * sizeY, sizeX, sizeY))
  }

  /** Columns `i .. nCols-1` of cells, column after column. */
  function Columns(i: nat, nCols: nat, nRows: nat, sizeX: int, sizeY: int): seq<Rect>
    decreases nCols - i
  {
    if i >= nCols then []
    else ColumnCells(i, nRows, sizeX, sizeY) + Columns(i + 1, nCols, nRows, sizeX, sizeY)
  }

  /** How many whole cells of `size` pixels fit across `extent` pixels. */
  function CellsAcross(extent: nat, size: int): nat
    requires size > 0
  {
    extent / size
  }

  /** The cells the selector hands to the detector, in the order it visits
      them: the cell in column `i` and row `j` has its origin at
      `(i*size_x, j*size_y)`, for every `i < cols/size_x` and
      `j < rows/size_y`, column after column. */
  function VisitedCells(img: Image, gridX: int, gridY: int): seq<Rect>
    requires ValidGrid(img, gridX, gridY)
  {
    var sizeX, sizeY := CDiv(img.cols, gridX), CDiv(img.rows, gridY);
    Columns(0, CellsAcross(img.cols, sizeX), CellsAcross(img.rows, sizeY), sizeX, sizeY)
  }

  /** The walk down one column as the inner loop performs it: origins `y`,
      `y + size_y`, ... for as long as the cell stays inside the image. */
  function ColumnScan(x: int, y: int, rows: nat, sizeX: int, sizeY: int): (r: seq<Rect>)
    requires sizeY > 0
    ensures r == [] <==> y + sizeY > rows
    ensures r != [] ==> r[0] == Rect(x, y, sizeX, sizeY) && r[|r| - 1].x == x && r[|r| - 1].y + sizeY <= rows
    decreases rows - y
  {
    if y + sizeY > rows then []
    else [Rect(x, y, sizeX, sizeY)] + ColumnScan(x, y + sizeY, rows, sizeX, sizeY)
  }

  /** The walk across the columns as the outer loop performs it. */
  function GridScan(x: int, cols: nat, rows: nat, sizeX: int, sizeY: int): (r: seq<Rect>)
    requires sizeX > 0 && sizeY > 0
    decreases cols - x
  {
    if x + sizeX > cols then []
    else ColumnScan(x, 0, rows, sizeX, sizeY) + GridScan(x + sizeX, cols, rows, sizeX, sizeY)
  }

  /** The outer loop visits nothing exactly when its first column sticks out
      of the image or no cell fits in the height of the image. */
  lemma {:induction false} GridScanEmptyIff(x: int, cols: nat, rows: nat, sizeX: int, sizeY: int)
    requires sizeX > 0 && sizeY > 0
    ensures GridScan(x, cols, rows, sizeX, sizeY) == [] <==> x + sizeX > cols || sizeY > rows
    decreases cols - x
  {
    if x + sizeX <= cols {
      GridScanEmptyIff(x + sizeX, cols, rows, sizeX, sizeY);
    }
  }

  /** The cell the loop body works on at origin (`x`, `y`): the one cell when
      it lies inside the image, nothing when the body skips it. */
  function FittingCell(x: int, y: int, cols: nat, rows: nat, sizeX: int, sizeY: int): (r: seq<Rect>)
    ensures |r| <= 1
    ensures r != [] <==> x + sizeX <= cols && y + sizeY <= rows
    ensures r != [] ==> r[0] == Rect(x, y, sizeX, sizeY)
  {
    if x + sizeX > cols || y + sizeY > rows then [] else [Rect(x, y, sizeX, sizeY)]
  }

  /** What the inner loop still visits in the column at `x` from row `y` on:
      nothing at all when the column sticks out of the image. */
  function ColumnTail(x: int, y: int, cols: nat, rows: nat, sizeX: int, sizeY: int): seq<Rect>
    requires sizeY > 0
  {
    if x + sizeX > cols then [] else ColumnScan(x, y, rows, sizeX, sizeY)
  }

  /** One iteration of the inner loop visits the cell at `y`, if it fits, and
      leaves the rest of the column from `y + sizeY`. */
  lemma ColumnTailStep(x: int, y: int, cols: nat, rows: nat, sizeX: int, sizeY: int)
    requires sizeY > 0
    ensures ColumnTail(x, y, cols, rows, sizeX, sizeY)
            == FittingCell(x, y, cols, rows, sizeX, sizeY) + ColumnTail(x, y + sizeY, cols, rows, sizeX, sizeY)
  {
    if x + sizeX <= cols && y + sizeY > rows {
      assert ColumnScan(x, y + sizeY, rows, sizeX, sizeY) == [];
    }
  }

  /** Once `y` has left the image, nothing of the column is left. */
  lemma ColumnTailDone(x: int, y: int, cols: nat, rows: nat, sizeX: int, sizeY: int)
    requires sizeY > 0 && y >= rows
    ensures ColumnTail(x, y, cols, rows, sizeX, sizeY) == []
  {
  }

  /** One iteration of the outer loop visits the column at `x` (all of it, or
      nothing when it sticks out) and leaves the columns from `x + sizeX`. */
  lemma GridScanStep(x: int, cols: nat, rows: nat, sizeX: int, sizeY: int)
    requires sizeX > 0 && sizeY > 0
    ensures GridScan(x, cols, rows, sizeX, sizeY)
            == ColumnTail(x, 0, cols, rows, sizeX, sizeY) + GridScan(x + sizeX, cols, rows, sizeX, sizeY)
  {
    if x + sizeX > cols {
      assert GridScan(x + sizeX, cols, rows, sizeX, sizeY) == [];
    }
  }

  /** Once `x` has left the image, no column is left. */
  lemma GridScanDone(x: int, cols: nat, rows: nat, sizeX: int, sizeY: int)
    requires sizeX > 0 && sizeY > 0 && x >= cols
    ensures GridScan(x, cols, rows, sizeX, sizeY) == []
  {
  }

  /** The inner loop's walk from row `j` is the rest of column `i` of the grid. */
  lemma {:induction false} ColumnScanIsColumn(i: int, j: nat, rows: nat, sizeX: int, sizeY: int)
    requires sizeY > 0 && j <= rows / sizeY
    ensures ColumnScan(i * sizeX, j * sizeY, rows, sizeX, sizeY) == ColumnCells(i, rows / sizeY, sizeX, sizeY)[j..]
    decreases rows / sizeY - j
  {
    var nRows := rows / sizeY;
    FitsIff(j + 1, sizeY, rows);
    assert j * sizeY + sizeY == (j + 1) * sizeY;
    if j < nRows {
      ColumnScanIsColumn(i, j + 1, rows, sizeX, sizeY);
      var col := ColumnCells(i, nRows, sizeX, sizeY);
      assert col[j..] == [col[j]] + col[j + 1..];
    }
  }

  /** The outer loop's walk from column `i` is columns `i ..` of the grid. */
  lemma {:induction false} GridScanIsColumns(i: nat, cols: nat, rows: nat, sizeX: int, sizeY: int)
    requires sizeX > 0 && sizeY > 0 && i <= cols / sizeX
    ensures GridScan(i * sizeX, cols, rows, sizeX, sizeY) == Columns(i, cols / sizeX, rows / sizeY, sizeX, sizeY)
    decreases cols / sizeX - i
  {
    FitsIff(i + 1, sizeX, cols);
    assert i * sizeX + sizeX == (i + 1) * sizeX;
    if i < cols / sizeX {
      GridScanIsColumns(i + 1, cols, rows, sizeX, sizeY);
      ColumnScanIsColumn(i, 0, rows, sizeX, sizeY);
      assert 0 * sizeY == 0;
    }
  }

  /** The two loops visit exactly the cells of VisitedCells, in that order. */
  lemma ScanVisitsGrid(img: Image, gridX: int, gridY: int)
    requires ValidGrid(img, gridX, gridY)
    ensures GridScan(0, img.cols, img.rows, CDiv(img.cols, gridX), CDiv(img.rows, gridY))
            == VisitedCells(img, gridX, gridY)
  {
    GridScanIsColumns(0, img.cols, img.rows, CDiv(img.cols, gridX), CDiv(img.rows, gridY));
    assert 0 * CDiv(img.cols, gridX) == 0;
  }

  lemma {:induction false} ColumnsLength(i: nat, nCols: nat, nRows: nat, sizeX: int, sizeY: int)
    requires i <= nCols
    ensures |Columns(i, nCols, nRows, sizeX, sizeY)| == (nCols - i) * nRows
    decreases nCols - i
  {
    if i < nCols {
      ColumnsLength(i + 1, nCols, nRows, sizeX, sizeY);
      assert (nCols - i) * nRows == (nCols - (i + 1)) * nRows + nRows;
    }
  }

  /** Index arithmetic of the column-major layout. */
  lemma MulStep(a: nat, n: nat, m: nat, j: nat)
    requires a < n && j < m
    ensures a * m + j < n * m
    ensures a > 0 ==> a * m + j == (a - 1) * m + j + m
  {
    assert n * m == a * m + m + (n - a - 1) * m;
    assert (n - a - 1) * m >= 0;
  }

  lemma {:induction false} ColumnsAt(i0: nat, nCols: nat, nRows: nat, sizeX: int, sizeY: int, i: nat, j: nat)
    requires i0 <= i < nCols && j < nRows
    ensures (i - i0) * nRows + j < |Columns(i0, nCols, nRows, sizeX, sizeY)|
    ensures Columns(i0, nCols, nRows, sizeX, sizeY)[(i - i0) * nRows + j] == Rect(i * sizeX, j * sizeY, sizeX, sizeY)
    decreases i - i0
  {
    ColumnsLength(i0, nCols, nRows, sizeX, sizeY);
    MulStep(i - i0, nCols - i0, nRows, j);
    var here, rest := ColumnCells(i0, nRows, sizeX, sizeY), Columns(i0 + 1, nCols, nRows, sizeX, sizeY);
    assert Columns(i0, nCols, nRows, sizeX, sizeY) == here + rest;
    if i > i0 {
      ColumnsAt(i0 + 1, nCols, nRows, sizeX, sizeY, i, j);
      assert (i - i0) * nRows + j == |here| + ((i - (i0 + 1)) * nRows + j);
    } else {
      assert (i - i0) * nRows + j == j;
    }
  }

  lemma MulMono(a: int, b: int, s: nat)
    requires a <= b
    ensures a * s <= b * s
  {
    assert b * s - a * s == (b - a) * s;
  }

  /** Every cell of column `i` has the cell size, its origin at `i*size_x`,
      and lies in `[0, nRows*size_y)` vertically. */
  lemma ColumnCellsWithin(i: int, nRows: nat, sizeX: nat, sizeY: nat)
    ensures forall c :: c in ColumnCells(i, nRows, sizeX, sizeY) ==>
              c.width == sizeX && c.height == sizeY && c.x == i * sizeX &&
              0 <= c.y && c.y + sizeY <= nRows * sizeY
  {
    forall c | c in ColumnCells(i, nRows, sizeX, sizeY)
      ensures 0 <= c.y && c.y + sizeY <= nRows * sizeY
    {
      var j :| 0 <= j < nRows && ColumnCells(i, nRows, sizeX, sizeY)[j] == c;
      MulMono(0, j, sizeY);
      MulMono(j + 1, nRows, sizeY);
    }
  }

  /** Every cell of columns `i0 ..` has the cell size and lies in
      `[i0*size_x, nCols*size_x) × [0, nRows*size_y)`. */
  lemma {:induction false} ColumnsWithin(i0: nat, nCols: nat, nRows: nat, sizeX: nat, sizeY: nat)
    ensures forall c :: c in Columns(i0, nCols, nRows, sizeX, sizeY) ==>
              c.width == sizeX && c.height == sizeY &&
              i0 * sizeX <= c.x && c.x + sizeX <= nCols * sizeX &&
              0 <= c.y && c.y + sizeY <= nRows * sizeY
    decreases nCols - i0
  {
    if i0 < nCols {
      ColumnsWithin(i0 + 1, nCols, nRows, sizeX, sizeY);
      ColumnCellsWithin(i0, nRows, sizeX, sizeY);
      MulMono(i0 + 1, nCols, sizeX);
      MulMono(i0, i0 + 1, sizeX);
    }
  }

  /** Along one dimension: with `s = extent / g` for `0 < g <= extent`, the
      loop fits `extent / s >= g` cells, and leaves less than one cell over. */
  lemma CellsAlong(extent: nat, g: int)
    requires 0 < g <= extent
    ensures extent / g > 0
    ensures var s := extent / g;
            extent / s >= g && (extent / s) * s <= extent < (extent / s) * s + s
  {
    FitsIff(1, g, extent);
    var s := extent / g;
    FitsIff(g, s, extent);
    assert g * s <= extent;
  }

  /** The size of the visited grid: `cols/size_x` columns and `rows/size_y`
      rows of cells. That is at least `grid_x` by `grid_y` and can be more;
      what is left uncovered on the right and at the bottom is a strip
      narrower than one cell. */
  lemma VisitedGridSize(img: Image, gridX: int, gridY: int)
    requires ValidGrid(img, gridX, gridY)
    ensures var sizeX, sizeY := CDiv(img.cols, gridX), CDiv(img.rows, gridY);
            var nCols, nRows := CellsAcross(img.cols, sizeX), CellsAcross(img.rows, sizeY);
            && |VisitedCells(img, gridX, gridY)| == nCols * nRows
            && nCols >= gridX && nRows >= gridY
            && nCols * sizeX <= img.cols < nCols * sizeX + sizeX
            && nRows * sizeY <= img.rows < nRows * sizeY + sizeY
  {
    ValidGridIff(img, gridX, gridY);
    var sizeX, sizeY := CDiv(img.cols, gridX), CDiv(img.rows, gridY);
    ColumnsLength(0, CellsAcross(img.cols, sizeX), CellsAcross(img.rows, sizeY), sizeX, sizeY);
    CellsAlong(img.cols, gridX);
    CellsAlong(img.rows, gridY);
  }

  /** The cell in column `i` and row `j` of the visited grid is visited as the
      `i*nRows + j`-th cell: all cells of a column come before any cell of the
      next, and within a column they go top to bottom. */
  lemma VisitedCellAt(img: Image, gridX: int, gridY: int, i: nat, j: nat)
    requires ValidGrid(img, gridX, gridY)
    requires i < CellsAcross(img.cols, CDiv(img.cols, gridX)) && j < CellsAcross(img.rows, CDiv(img.rows, gridY))
    ensures var sizeX, sizeY := CDiv(img.cols, gridX), CDiv(img.rows, gridY);
            var nRows := CellsAcross(img.rows, sizeY);
            && i * nRows + j < |VisitedCells(img, gridX, gridY)|
            && VisitedCells(img, gridX, gridY)[i * nRows + j] == Rect(i * sizeX, j * sizeY, sizeX, sizeY)
  {
    var sizeX, sizeY := CDiv(img.cols, gridX), CDiv(img.rows, gridY);
    ColumnsAt(0, CellsAcross(img.cols, sizeX), CellsAcross(img.rows, sizeY), sizeX, sizeY, i, j);
  }

  /** Every visited cell lies wholly inside the image, and inside the part of
      it that the grid covers. */
  lemma VisitedCellsInBounds(img: Image, gridX: int, gridY: int)
    requires ValidGrid(img, gridX, gridY)
    ensures var sizeX, sizeY := CDiv(img.cols, gridX), CDiv(img.rows, gridY);
            var nCols, nRows := CellsAcross(img.cols, sizeX), CellsAcross(img.rows, sizeY);
            forall c :: c in VisitedCells(img, gridX, gridY) ==>
              c.width == sizeX && c.height == sizeY &&
              0 <= c.x && c.x + c.width <= nCols * sizeX <= img.cols &&
              0 <= c.y && c.y + c.height <= nRows * sizeY <= img.rows
  {
    var sizeX, sizeY := CDiv(img.cols, gridX), CDiv(img.rows, gridY);
    ColumnsWithin(0, CellsAcross(img.cols, sizeX), CellsAcross(img.rows, sizeY), sizeX, sizeY);
    FitsIff(CellsAcross(img.cols, sizeX), sizeX, img.cols);
    FitsIff(CellsAcross(img.rows, sizeY), sizeY, img.rows);
  }

  /** An 11-pixel-wide image split into 4 columns has cells 2 pixels wide, so
      the loop visits 5 columns of cells, not 4: the fifth starts at x = 8,
      beyond `grid_x * size_x`. Only x = 10 is never scanned. */
  lemma MoreColumnsThanGridExample()
    ensures ValidGrid(Image(11, 1), 4, 1)
    ensures |VisitedCells(Image(11, 1), 4, 1)| == 5
    ensures VisitedCells(Image(11, 1), 4, 1)[4] == Rect(8, 0, 2, 1)
  {
    assert CDiv(11, 4) == 2 && CDiv(1, 1) == 1;
    assert ColumnCells(4, 1, 2, 1) == [Rect(8, 0, 2, 1)];
    assert Columns(4, 5, 1, 2, 1) == [Rect(8, 0, 2, 1)];
    assert |Columns(3, 5, 1, 2, 1)| == 2;
    assert |Columns(2, 5, 1, 2, 1)| == 3;
    assert |Columns(1, 5, 1, 2, 1)| == 4;
    assert |Columns(0, 5, 1, 2, 1)| == 5;
  }
}
