/** The grid feature selector: split the image into cells, run the corner
    detector on every cell that fits inside the image, keep the strongest
    detections of each cell up to a per-cell quota, move them from the cell's
    frame into the image's frame, and append them to the caller's vector. */
module GriderFast {
  import opened KeyPoints
  import opened Grid

  /** The C++ `int` parameters. */
  type Int32 = x: int | -0x8000_0000 <= x < 0x8000_0000

  /** The corner detector, applied to one cell of the image: the cell
      rectangle, the threshold and the non-maximum-suppression flag give the
      detected keypoints, in the cell's own frame. The image pixels are
      captured by the function. */
  type Detector = (Rect, int, bool) -> seq<KeyPoint>

  /** The conversion of an `int` to `size_t` (64 bits): negative values wrap. */
  function SizeT(v: int): (r: nat)
    ensures r < 0x1_0000_0000_0000_0000
    ensures 0 <= v < 0x1_0000_0000_0000_0000 ==> r == v
    ensures -0x1_0000_0000_0000_0000 <= v < 0 ==> r == v + 0x1_0000_0000_0000_0000
  {
    v % 0x1_0000_0000_0000_0000
  }

  /** The per-cell quota `num_features / (grid_x * grid_y) + 1`, with C++
      division. */
  function Quota(numFeatures: int, gridX: int, gridY: int): (r: int)
    requires gridX != 0 && gridY != 0
    ensures numFeatures >= 0 && gridX > 0 && gridY > 0 ==> r >= 1
  {
    CDiv(numFeatures, gridX * gridY) + 1
  }

  /** Facts about dividing a count `n` among `c` cells. */
  lemma DivRanges(n: nat, c: int)
    requires c > 0
    ensures (n / c) * c <= n < (n / c) * c + c
    ensures n / c <= n
    ensures n / c == 0 <==> n < c
    ensures n / c == 1 <==> c <= n < 2 * c
    ensures n / c >= 2 <==> 2 * c <= n
  {
    QuotientRanges(n, c, n / c);
  }

  /** The same facts for any `d` with `d*c <= n < (d+1)*c`. */
  lemma QuotientRanges(n: nat, c: int, d: int)
    requires c > 0 && d >= 0 && d * c <= n < d * c + c
    ensures d <= n
    ensures d == 0 <==> n < c
    ensures d == 1 <==> c <= n < 2 * c
    ensures d >= 2 <==> 2 * c <= n
  {
    if d == 0 {
      assert d * c == 0;
    } else if d == 1 {
      assert d * c == c;
    } else {
      assert d * c >= 2 * c by {
        assert (d - 2) * c >= 0;
      }
    }
    assert d <= n by {
      assert (c - 1) * d >= 0;
    }
  }

  lemma ProductPositive(a: int, b: int)
    requires a > 0 && b > 0
    ensures a * b > 0
  {
    assert (a - 1) * b >= 0;
  }

  /** For a non-negative feature budget the quota is at least one, survives
      the `size_t` conversion unchanged, and is the least whole number of
      points per cell that gives the grid more than `num_features` points. */
  lemma QuotaCoversFeatures(numFeatures: Int32, gridX: int, gridY: int)
    requires gridX > 0 && gridY > 0 && numFeatures >= 0
    ensures var q, cells := Quota(numFeatures, gridX, gridY), gridX * gridY;
            && q >= 1
            && SizeT(q) == q
            && (q - 1) * cells <= numFeatures < q * cells
  {
    var cells := gridX * gridY;
    ProductPositive(gridX, gridY);
    DivRanges(numFeatures, cells);
    var d := numFeatures / cells;
    assert Quota(numFeatures, gridX, gridY) == d + 1 by {
      assert Abs(numFeatures as int) == numFeatures as int && Abs(cells) == cells;
    }
    assert (d + 1) * cells == d * cells + cells;
  }

  /** For a negative feature budget the quota is at most one: it is one while
      `|num_features| < grid_x * grid_y`, zero up to twice that, and negative
      beyond. Zero keeps nothing; a negative quota wraps to a `size_t` above
      2^64 - 2^31, which in effect keeps every candidate. */
  lemma QuotaNegativeFeatures(numFeatures: Int32, gridX: int, gridY: int)
    requires gridX > 0 && gridY > 0 && numFeatures < 0
    ensures var q, cells := Quota(numFeatures, gridX, gridY), gridX * gridY;
            && q <= 1
            && (q == 1 <==> -(numFeatures as int) < cells)
            && (q == 0 <==> cells <= -(numFeatures as int) < 2 * cells)
            && (q < 0 <==> 2 * cells <= -(numFeatures as int))
            && (q == 0 ==> SizeT(q) == 0)
            && (q < 0 ==> SizeT(q) >= 0x1_0000_0000_0000_0000 - 0x8000_0000)
  {
    var cells := gridX * gridY;
    ProductPositive(gridX, gridY);
    var n := -(numFeatures as int);
    DivRanges(n, cells);
    assert Quota(numFeatures, gridX, gridY) == 1 - n / cells;
  }

  /** A keypoint moved by `(dx, dy)`; every other field is unchanged. */
  function Offset(p: KeyPoint, dx: int, dy: int): (q: KeyPoint)
    ensures q.(x := p.x, y := p.y) == p
    ensures q.x - p.x == dx as real && q.y - p.y == dy as real
  {
    p.(x := p.x + dx as real, y := p.y + dy as real)
  }

  function OffsetAll(ps: seq<KeyPoint>, dx: int, dy: int): seq<KeyPoint>
  {
    seq(|ps|, k requires 0 <= k < |ps| => Offset(ps[k], dx, dy))
  }

  /** Moving keypoints keeps their responses, hence their order. */
  lemma OffsetAllKeepsOrder(ps: seq<KeyPoint>, dx: int, dy: int)
    requires SortedByResponse(ps)
    ensures SortedByResponse(OffsetAll(ps, dx, dy))
  {
    var qs := OffsetAll(ps, dx, dy);
    forall i, j | 0 <= i < j < |qs| ensures qs[i].response >= qs[j].response {
      assert qs[i].response == ps[i].response && qs[j].response == ps[j].response;
    }
  }

  /** The blocks of a sequence of blocks, one after the other. */
  function Flatten(blocks: seq<seq<KeyPoint>>): seq<KeyPoint>
  {
    if blocks == [] then []
    else Flatten(blocks[..|blocks| - 1]) + blocks[|blocks| - 1]
  }

  lemma FlattenSnoc(blocks: seq<seq<KeyPoint>>, b: seq<KeyPoint>)
    ensures Flatten(blocks + [b]) == Flatten(blocks) + b
  {
    assert (blocks + [b])[..|blocks|] == blocks;
  }

  lemma {:induction false} FlattenAppend(a: seq<seq<KeyPoint>>, b: seq<seq<KeyPoint>>)
    ensures Flatten(a + b) == Flatten(a) + Flatten(b)
    decreases |b|
  {
    if b == [] {
      assert a + b == a;
    } else {
      var n := |b| - 1;
      calc {
        Flatten(a + b);
        == { assert a + b == (a + b[..n]) + [b[n]]; FlattenSnoc(a + b[..n], b[n]); }
        Flatten(a + b[..n]) + b[n];
        == { FlattenAppend(a, b[..n]); }
        (Flatten(a) + Flatten(b[..n])) + b[n];
        == { ConcatAssoc(Flatten(a), Flatten(b[..n]), b[n]); }
        Flatten(a) + (Flatten(b[..n]) + b[n]);
        == { assert b == b[..n] + [b[n]]; FlattenSnoc(b[..n], b[n]); }
        Flatten(a) + Flatten(b);
      }
    }
  }

  /** The block each cell contributes: the points kept for it, moved to the
      cell's origin. */
  function Blocks(cells: seq<Rect>, kept: seq<seq<KeyPoint>>): seq<seq<KeyPoint>>
    requires |cells| == |kept|
  {
    seq(|cells|, k requires 0 <= k < |cells| => OffsetAll(kept[k], cells[k].x, cells[k].y))
  }

  /** What the selector appends for the cells `cells` when it keeps `kept[k]`
      (in the cell's frame) from cell `k`: each cell's points moved to the
      cell's origin, cell after cell. */
  function Emitted(cells: seq<Rect>, kept: seq<seq<KeyPoint>>): seq<KeyPoint>
    requires |cells| == |kept|
  {
    Flatten(Blocks(cells, kept))
  }

  /** Appending one more cell and its selection extends the output by that
      cell's points. */
  lemma EmittedSnoc(cells: seq<Rect>, kept: seq<seq<KeyPoint>>, c: Rect, ks: seq<KeyPoint>)
    requires |cells| == |kept|
    ensures Emitted(cells + [c], kept + [ks]) == Emitted(cells, kept) + OffsetAll(ks, c.x, c.y)
  {
    assert Blocks(cells + [c], kept + [ks]) == Blocks(cells, kept) + [OffsetAll(ks, c.x, c.y)];
    FlattenSnoc(Blocks(cells, kept), OffsetAll(ks, c.x, c.y));
  }

  /** The output of two runs of cells, one after the other. */
  lemma EmittedAppend(cells: seq<Rect>, kept: seq<seq<KeyPoint>>, more: seq<Rect>, moreKept: seq<seq<KeyPoint>>)
    requires |cells| == |kept| && |more| == |moreKept|
    ensures Emitted(cells + more, kept + moreKept) == Emitted(cells, kept) + Emitted(more, moreKept)
  {
    assert Blocks(cells + more, kept + moreKept) == Blocks(cells, kept) + Blocks(more, moreKept);
    FlattenAppend(Blocks(cells, kept), Blocks(more, moreKept));
  }

  /** `kept[k]` is a best-`limit` selection from what the detector reports for
      cell `k`, for every cell. */
  predicate GridSelection(cells: seq<Rect>, fast: Detector, threshold: int, nonmaxSuppression: bool,
                          limit: nat, kept: seq<seq<KeyPoint>>)
  {
    |kept| == |cells| &&
    forall k {:trigger IsTopK(fast(cells[k], threshold, nonmaxSuppression), limit, kept[k])} ::
      0 <= k < |cells| ==> IsTopK(fast(cells[k], threshold, nonmaxSuppression), limit, kept[k])
  }

  lemma GridSelectionAppend(cells: seq<Rect>, fast: Detector, threshold: int, nonmaxSuppression: bool,
                            limit: nat, kept: seq<seq<KeyPoint>>, more: seq<Rect>, moreKept: seq<seq<KeyPoint>>)
    requires GridSelection(cells, fast, threshold, nonmaxSuppression, limit, kept)
    requires GridSelection(more, fast, threshold, nonmaxSuppression, limit, moreKept)
    ensures GridSelection(cells + more, fast, threshold, nonmaxSuppression, limit, kept + moreKept)
  {
    forall k | 0 <= k < |cells| + |more|
      ensures IsTopK(fast((cells + more)[k], threshold, nonmaxSuppression), limit, (kept + moreKept)[k])
    {
      if k < |cells| {
        assert (cells + more)[k] == cells[k] && (kept + moreKept)[k] == kept[k];
      } else {
        assert (cells + more)[k] == more[k - |cells|] && (kept + moreKept)[k] == moreKept[k - |cells|];
      }
    }
  }

  lemma GridSelectionSnoc(cells: seq<Rect>, fast: Detector, threshold: int, nonmaxSuppression: bool,
                          limit: nat, kept: seq<seq<KeyPoint>>, c: Rect, ks: seq<KeyPoint>)
    requires GridSelection(cells, fast, threshold, nonmaxSuppression, limit, kept)
    requires IsTopK(fast(c, threshold, nonmaxSuppression), limit, ks)
    ensures GridSelection(cells + [c], fast, threshold, nonmaxSuppression, limit, kept + [ks])
  {
    forall k | 0 <= k < |cells| + 1
      ensures IsTopK(fast((cells + [c])[k], threshold, nonmaxSuppression), limit, (kept + [ks])[k])
    {
      if k < |cells| {
        assert (cells + [c])[k] == cells[k] && (kept + [ks])[k] == kept[k];
      }
    }
  }

  lemma GridSelectionPrefix(cells: seq<Rect>, fast: Detector, threshold: int, nonmaxSuppression: bool,
                            limit: nat, kept: seq<seq<KeyPoint>>, n: nat)
    requires GridSelection(cells, fast, threshold, nonmaxSuppression, limit, kept)
    requires n <= |cells|
    ensures GridSelection(cells[..n], fast, threshold, nonmaxSuppression, limit, kept[..n])
  {
    forall k | 0 <= k < n
      ensures IsTopK(fast(cells[..n][k], threshold, nonmaxSuppression), limit, kept[..n][k])
    {
      assert cells[..n][k] == cells[k] && kept[..n][k] == kept[k];
    }
  }

  lemma ConcatAssoc<T>(a: seq<T>, b: seq<T>, c: seq<T>)
    ensures a + (b + c) == (a + b) + c
  {
  }

  /** Moving a run `front` from the front of the unvisited part of `whole`
      to the end of the visited part. */
  lemma SplitAppend<T>(whole: seq<T>, n: nat, front: seq<T>, back: seq<T>)
    requires n <= |whole| && whole[n..] == front + back
    ensures n + |front| <= |whole| && whole[..n] + front == whole[..n + |front|]
    ensures whole[n + |front|..] == back
  {
    assert whole[n..][..|front|] == front;
  }

  /** One step of either loop: when the unvisited part of `all` starts with
      the run of cells the step just processed, the visited part grows by that
      run, and so do the selection and the output. */
  lemma RunStep(all: seq<Rect>, n: nat, next: seq<Rect>,
                   start: seq<KeyPoint>, before: seq<KeyPoint>, after: seq<KeyPoint>,
                   kept: seq<seq<KeyPoint>>, fast: Detector, threshold: int,
                   nonmaxSuppression: bool, limit: nat, column: seq<Rect>, colKept: seq<seq<KeyPoint>>)
    requires n <= |all| && all[n..] == column + next
    requires GridSelection(all[..n], fast, threshold, nonmaxSuppression, limit, kept)
    requires before == start + Emitted(all[..n], kept)
    requires GridSelection(column, fast, threshold, nonmaxSuppression, limit, colKept)
    requires after == before + Emitted(column, colKept)
    ensures n + |column| <= |all| && all[n + |column|..] == next
    ensures GridSelection(all[..n + |column|], fast, threshold, nonmaxSuppression, limit, kept + colKept)
    ensures after == start + Emitted(all[..n + |column|], kept + colKept)
  {
    SplitAppend(all, n, column, next);
    GridSelectionAppend(all[..n], fast, threshold, nonmaxSuppression, limit, kept, column, colKept);
    EmittedAppend(all[..n], kept, column, colKept);
    ConcatAssoc(start, Emitted(all[..n], kept), Emitted(column, colKept));
  }

  /** The work done for one cell `roi` inside the image: detect, rank by
      response, and append the first `limit` (or all, if fewer) moved by the
      cell's origin. `best` is what was kept, in the cell's frame. */
  method AppendBest(pts: KeyPointVector, fast: Detector, roi: Rect, threshold: int,
                    nonmaxSuppression: bool, limit: nat)
    returns (ghost best: seq<KeyPoint>)
    modifies pts
    ensures IsTopK(fast(roi, threshold, nonmaxSuppression), limit, best)
    ensures pts.items == old(pts.items) + OffsetAll(best, roi.x, roi.y)
  {
    var ptsNew := fast(roi, threshold, nonmaxSuppression);
    var sorted := SortByResponse(ptsNew);
    var i := 0;
    while i < limit && i < |sorted|
      invariant 0 <= i <= |sorted| && i <= limit
      invariant pts.items == old(pts.items) + OffsetAll(sorted[..i], roi.x, roi.y)
    {
      var ptCor := sorted[i];
      ptCor := ptCor.(x := ptCor.x + roi.x as real, y := ptCor.y + roi.y as real);
      pts.PushBack(ptCor);
      i := i + 1;
    }
    TopKOfSorted(ptsNew, sorted, limit);
    best := sorted[..i];
  }

  /** The body of the inner loop at origin (`x`, `y`): a cell that sticks
      out of the image is skipped, any other is processed by AppendBest.
      `visited` is the cell processed, if any, and `picked` what was kept
      from it. */
  method VisitCell(img: Image, pts: KeyPointVector, x: int, y: int, sizeX: int, sizeY: int, limit: nat,
                   threshold: int, nonmaxSuppression: bool, fast: Detector)
    returns (ghost visited: seq<Rect>, ghost picked: seq<seq<KeyPoint>>)
    modifies pts
    ensures visited == FittingCell(x, y, img.cols, img.rows, sizeX, sizeY)
    ensures GridSelection(visited, fast, threshold, nonmaxSuppression, limit, picked)
    ensures pts.items == old(pts.items) + Emitted(visited, picked)
  {
    if x + sizeX > img.cols || y + sizeY > img.rows {
      visited, picked := [], [];
      assert Blocks(visited, picked) == [];
      assert pts.items == pts.items + [];
    } else {
      var roi := Rect(x, y, sizeX, sizeY);
      ghost var best := AppendBest(pts, fast, roi, threshold, nonmaxSuppression, limit);
      visited, picked := [roi], [best];
      EmittedSnoc([], [], roi, best);
      assert Blocks([], []) == [];
    }
  }

  /** One pass of the inner loop, down the column of cells at `x`: when the
      column fits in the image, every cell of it is processed, top to bottom;
      otherwise every cell is skipped. */
  method ScanColumn(img: Image, pts: KeyPointVector, x: int, sizeX: int, sizeY: int, limit: nat,
                    threshold: int, nonmaxSuppression: bool, fast: Detector)
    returns (ghost column: seq<Rect>, ghost kept: seq<seq<KeyPoint>>)
    requires sizeY > 0
    modifies pts
    ensures column == ColumnTail(x, 0, img.cols, img.rows, sizeX, sizeY)
    ensures GridSelection(column, fast, threshold, nonmaxSuppression, limit, kept)
    ensures pts.items == old(pts.items) + Emitted(column, kept)
  {
    column := ColumnTail(x, 0, img.cols, img.rows, sizeX, sizeY);
    kept := [];
    ghost var n := 0;
    var y := 0;
    while y < img.rows
      invariant 0 <= n <= |column|
      invariant column[n..] == ColumnTail(x, y, img.cols, img.rows, sizeX, sizeY)
      invariant GridSelection(column[..n], fast, threshold, nonmaxSuppression, limit, kept)
      invariant pts.items == old(pts.items) + Emitted(column[..n], kept)
      decreases img.rows - y
    {
      ghost var before := pts.items;
      ghost var visited, picked := VisitCell(img, pts, x, y, sizeX, sizeY, limit, threshold,
                                             nonmaxSuppression, fast);
      ColumnTailStep(x, y, img.cols, img.rows, sizeX, sizeY);
      RunStep(column, n, ColumnTail(x, y + sizeY, img.cols, img.rows, sizeX, sizeY), old(pts.items), before,
              pts.items, kept, fast, threshold, nonmaxSuppression, limit, visited, picked);
      kept := kept + picked;
      n := n + |visited|;
      y := y + sizeY;
    }
    ColumnTailDone(x, y, img.cols, img.rows, sizeX, sizeY);
    assert column[..n] == column;
  }

  /** The outer loop, across the columns of cells, left to right, for cells
      of `sizeX` by `sizeY` pixels: every column is scanned in turn. */
  method ScanGrid(img: Image, pts: KeyPointVector, sizeX: int, sizeY: int, limit: nat,
                  threshold: int, nonmaxSuppression: bool, fast: Detector)
    returns (ghost kept: seq<seq<KeyPoint>>)
    requires sizeX > 0 && sizeY > 0
    modifies pts
    ensures GridSelection(GridScan(0, img.cols, img.rows, sizeX, sizeY), fast, threshold, nonmaxSuppression,
                          limit, kept)
    ensures pts.items == old(pts.items) + Emitted(GridScan(0, img.cols, img.rows, sizeX, sizeY), kept)
  {
    ghost var all := GridScan(0, img.cols, img.rows, sizeX, sizeY);
    ghost var n := 0;
    kept := [];
    var x := 0;
    while x < img.cols
      invariant 0 <= n <= |all|
      invariant all[n..] == GridScan(x, img.cols, img.rows, sizeX, sizeY)
      invariant GridSelection(all[..n], fast, threshold, nonmaxSuppression, limit, kept)
      invariant pts.items == old(pts.items) + Emitted(all[..n], kept)
      decreases img.cols - x
    {
      ghost var before := pts.items;
      ghost var column, colKept := ScanColumn(img, pts, x, sizeX, sizeY, limit, threshold, nonmaxSuppression, fast);
      GridScanStep(x, img.cols, img.rows, sizeX, sizeY);
      RunStep(all, n, GridScan(x + sizeX, img.cols, img.rows, sizeX, sizeY), old(pts.items), before, pts.items,
              kept, fast, threshold, nonmaxSuppression, limit, column, colKept);
      kept := kept + colKept;
      n := n + |column|;
      x := x + sizeX;
    }
    GridScanDone(x, img.cols, img.rows, sizeX, sizeY);
    assert all[..n] == all;
  }

  /** Feature selection over a grid (the C++ `perform_griding`): for
      every cell the loops visit, column after column and top to bottom
      within a column, the detector's points for that cell are ranked by
      response and the best `size_t(quota)` of them, moved to the cell's
      origin, are appended to `pts`. `kept` names what was kept from each
      cell, in the cell's frame; ties in response may be broken either way. */
  method PerformGriding(img: Image, pts: KeyPointVector, numFeatures: Int32, gridX: Int32, gridY: Int32,
                        threshold: Int32, nonmaxSuppression: bool, fast: Detector)
    returns (ghost kept: seq<seq<KeyPoint>>)
    requires ValidGrid(img, gridX, gridY)
    modifies pts
    ensures GridSelection(VisitedCells(img, gridX, gridY), fast, threshold, nonmaxSuppression,
                          SizeT(Quota(numFeatures, gridX, gridY)), kept)
    ensures pts.items == old(pts.items) + Emitted(VisitedCells(img, gridX, gridY), kept)
  {
    var sizeX := CDiv(img.cols, gridX);
    var sizeY := CDiv(img.rows, gridY);
    var numFeaturesGrid := Quota(numFeatures, gridX, gridY);
    kept := ScanGrid(img, pts, sizeX, sizeY, SizeT(numFeaturesGrid), threshold, nonmaxSuppression, fast);
    ScanVisitsGrid(img, gridX, gridY);
  }

  /** The number of points the selector takes from the cells `cells`: from
      each, the quota or every candidate, whichever is fewer. */
  function KeptCount(cells: seq<Rect>, fast: Detector, threshold: int, nonmaxSuppression: bool,
                     limit: nat): nat
  {
    if cells == [] then 0
    else
      var n := |cells| - 1;
      KeptCount(cells[..n], fast, threshold, nonmaxSuppression, limit)
        + Min(limit, |fast(cells[n], threshold, nonmaxSuppression)|)
  }

  /** At most the quota from each cell. */
  lemma {:induction false} KeptCountBound(cells: seq<Rect>, fast: Detector, threshold: int,
                                          nonmaxSuppression: bool, limit: nat)
    ensures KeptCount(cells, fast, threshold, nonmaxSuppression, limit) <= limit * |cells|
    decreases |cells|
  {
    if cells != [] {
      var n := |cells| - 1;
      KeptCountBound(cells[..n], fast, threshold, nonmaxSuppression, limit);
      assert limit * |cells| == limit * n + limit;
    }
  }

  /** How much is appended: exactly `min(quota, candidates)` points per
      cell. */
  lemma EmittedLength(cells: seq<Rect>, fast: Detector, threshold: int,
                      nonmaxSuppression: bool, limit: nat, kept: seq<seq<KeyPoint>>)
    requires GridSelection(cells, fast, threshold, nonmaxSuppression, limit, kept)
    ensures |Emitted(cells, kept)| == KeptCount(cells, fast, threshold, nonmaxSuppression, limit)
  {
    forall k | 0 <= k < |cells|
      ensures |Blocks(cells, kept)[k]| == Min(limit, |fast(cells[k], threshold, nonmaxSuppression)|)
    {
      assert IsTopK(fast(cells[k], threshold, nonmaxSuppression), limit, kept[k]);
    }
    FlattenLength(cells, fast, threshold, nonmaxSuppression, limit, Blocks(cells, kept));
  }

  lemma {:induction false} FlattenLength(cells: seq<Rect>, fast: Detector, threshold: int,
                                         nonmaxSuppression: bool, limit: nat, blocks: seq<seq<KeyPoint>>)
    requires |blocks| == |cells|
    requires forall k :: 0 <= k < |cells| ==> |blocks[k]| == Min(limit, |fast(cells[k], threshold, nonmaxSuppression)|)
    ensures |Flatten(blocks)| == KeptCount(cells, fast, threshold, nonmaxSuppression, limit)
    decreases |cells|
  {
    if cells != [] {
      var n := |cells| - 1;
      FlattenLength(cells[..n], fast, threshold, nonmaxSuppression, limit, blocks[..n]);
    }
  }

  /** With a non-negative feature budget, one run of the selector appends at
      most `quota * (cols/size_x) * (rows/size_y)` points. */
  lemma OutputBound(img: Image, gridX: Int32, gridY: Int32, numFeatures: Int32, threshold: Int32,
                    nonmaxSuppression: bool, fast: Detector, kept: seq<seq<KeyPoint>>)
    requires ValidGrid(img, gridX, gridY) && numFeatures >= 0
    requires GridSelection(VisitedCells(img, gridX, gridY), fast, threshold, nonmaxSuppression,
                           SizeT(Quota(numFeatures, gridX, gridY)), kept)
    ensures var sizeX, sizeY := CDiv(img.cols, gridX), CDiv(img.rows, gridY);
            |Emitted(VisitedCells(img, gridX, gridY), kept)|
              <= Quota(numFeatures, gridX, gridY) * (CellsAcross(img.cols, sizeX) * CellsAcross(img.rows, sizeY))
  {
    ValidGridIff(img, gridX, gridY);
    QuotaCoversFeatures(numFeatures, gridX, gridY);
    VisitedGridSize(img, gridX, gridY);
    EmittedLength(VisitedCells(img, gridX, gridY), fast, threshold, nonmaxSuppression,
                  SizeT(Quota(numFeatures, gridX, gridY)), kept);
    KeptCountBound(VisitedCells(img, gridX, gridY), fast, threshold, nonmaxSuppression,
                   SizeT(Quota(numFeatures, gridX, gridY)));
  }

  /** The block cell `k` contributes, right after the blocks of the cells
      before it: exactly `min(quota, candidates)` points, in non-increasing
      response order, none weaker than a candidate of that cell left out. */
  lemma CellBlock(cells: seq<Rect>, fast: Detector, threshold: int, nonmaxSuppression: bool,
                  limit: nat, kept: seq<seq<KeyPoint>>, k: nat)
    requires GridSelection(cells, fast, threshold, nonmaxSuppression, limit, kept)
    requires k < |cells|
    ensures var cand, block := fast(cells[k], threshold, nonmaxSuppression),
                               OffsetAll(kept[k], cells[k].x, cells[k].y);
            && Emitted(cells[..k + 1], kept[..k + 1]) == Emitted(cells[..k], kept[..k]) + block
            && |block| == Min(limit, |cand|)
            && SortedByResponse(block)
            && forall q :: q in block ==>
                 forall d :: d in multiset(cand) - multiset(kept[k]) ==> q.response >= d.response
  {
    var cand, block := fast(cells[k], threshold, nonmaxSuppression), OffsetAll(kept[k], cells[k].x, cells[k].y);
    assert cells[..k + 1] == cells[..k] + [cells[k]] && kept[..k + 1] == kept[..k] + [kept[k]];
    EmittedSnoc(cells[..k], kept[..k], cells[k], kept[k]);
    assert IsTopK(cand, limit, kept[k]);
    OffsetAllKeepsOrder(kept[k], cells[k].x, cells[k].y);
    forall q, d | q in block && d in multiset(cand) - multiset(kept[k])
      ensures q.response >= d.response
    {
      var i :| 0 <= i < |block| && block[i] == q;
      assert kept[k][i] in kept[k];
    }
  }

  /** Every point of a moved selection is a kept candidate, moved. */
  lemma BlockProvenance(ks: seq<KeyPoint>, cand: seq<KeyPoint>, c: Rect, q: KeyPoint)
    requires multiset(ks) <= multiset(cand)
    requires q in OffsetAll(ks, c.x, c.y)
    ensures exists p :: p in ks && p in cand && q == Offset(p, c.x, c.y)
  {
    var i :| 0 <= i < |ks| && OffsetAll(ks, c.x, c.y)[i] == q;
    assert ks[i] in multiset(ks);
  }

  /** Every appended point is a point the detector reported for one of the
      cells, and that the selection kept, moved to that cell's origin. */
  lemma {:induction false} EmittedProvenance(cells: seq<Rect>, fast: Detector, threshold: int,
                                             nonmaxSuppression: bool, limit: nat, kept: seq<seq<KeyPoint>>,
                                             q: KeyPoint)
    requires GridSelection(cells, fast, threshold, nonmaxSuppression, limit, kept)
    requires q in Emitted(cells, kept)
    ensures exists k, p :: 0 <= k < |cells| && p in kept[k] && p in fast(cells[k], threshold, nonmaxSuppression)
                           && q == Offset(p, cells[k].x, cells[k].y)
    decreases |cells|
  {
    var n := |cells| - 1;
    assert cells == cells[..n] + [cells[n]] && kept == kept[..n] + [kept[n]];
    EmittedSnoc(cells[..n], kept[..n], cells[n], kept[n]);
    if q in Emitted(cells[..n], kept[..n]) {
      GridSelectionPrefix(cells, fast, threshold, nonmaxSuppression, limit, kept, n);
      EmittedProvenance(cells[..n], fast, threshold, nonmaxSuppression, limit, kept[..n], q);
      var k, p :| 0 <= k < n && p in kept[..n][k] && p in fast(cells[..n][k], threshold, nonmaxSuppression)
                  && q == Offset(p, cells[..n][k].x, cells[..n][k].y);
      assert cells[..n][k] == cells[k] && kept[..n][k] == kept[k];
    } else {
      assert IsTopK(fast(cells[n], threshold, nonmaxSuppression), limit, kept[n]);
      BlockProvenance(kept[n], fast(cells[n], threshold, nonmaxSuppression), cells[n], q);
    }
  }

  /** The detector reports points inside the cell it is given, in the cell's
      own frame. */
  ghost predicate InCellFrame(fast: Detector)
  {
    forall r: Rect, t: int, b: bool, p: KeyPoint :: p in fast(r, t, b) ==>
      0.0 <= p.x < r.width as real && 0.0 <= p.y < r.height as real
  }

  /** For such a detector every appended point lies inside the cell it came
      from, in image coordinates. */
  lemma EmittedInCell(cells: seq<Rect>, fast: Detector, threshold: int, nonmaxSuppression: bool,
                      limit: nat, kept: seq<seq<KeyPoint>>, q: KeyPoint)
    requires GridSelection(cells, fast, threshold, nonmaxSuppression, limit, kept)
    requires InCellFrame(fast)
    requires q in Emitted(cells, kept)
    ensures exists k :: 0 <= k < |cells| &&
              cells[k].x as real <= q.x < (cells[k].x + cells[k].width) as real &&
              cells[k].y as real <= q.y < (cells[k].y + cells[k].height) as real
  {
    EmittedProvenance(cells, fast, threshold, nonmaxSuppression, limit, kept, q);
    var k, p :| 0 <= k < |cells| && p in kept[k] && p in fast(cells[k], threshold, nonmaxSuppression)
                && q == Offset(p, cells[k].x, cells[k].y);
    assert 0.0 <= p.x < cells[k].width as real && 0.0 <= p.y < cells[k].height as real;
  }

  /** For such a detector every point one run appends lies in the part of the
      image the grid covers, `[0, (cols/size_x)*size_x) × [0, (rows/size_y)*size_y)`,
      and so inside the image. */
  lemma EmittedInScannedArea(img: Image, gridX: int, gridY: int, fast: Detector, threshold: int,
                             nonmaxSuppression: bool, limit: nat, kept: seq<seq<KeyPoint>>, q: KeyPoint)
    requires ValidGrid(img, gridX, gridY)
    requires GridSelection(VisitedCells(img, gridX, gridY), fast, threshold, nonmaxSuppression, limit, kept)
    requires InCellFrame(fast)
    requires q in Emitted(VisitedCells(img, gridX, gridY), kept)
    ensures var sizeX, sizeY := CDiv(img.cols, gridX), CDiv(img.rows, gridY);
            && 0.0 <= q.x < (CellsAcross(img.cols, sizeX) * sizeX) as real <= img.cols as real
            && 0.0 <= q.y < (CellsAcross(img.rows, sizeY) * sizeY) as real <= img.rows as real
  {
    var cells := VisitedCells(img, gridX, gridY);
    EmittedInCell(cells, fast, threshold, nonmaxSuppression, limit, kept, q);
    var k :| 0 <= k < |cells| &&
             cells[k].x as real <= q.x < (cells[k].x + cells[k].width) as real &&
             cells[k].y as real <= q.y < (cells[k].y + cells[k].height) as real;
    VisitedCellsInBounds(img, gridX, gridY);
    assert cells[k] in cells;
  }
}
