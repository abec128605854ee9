/** The cloud view's packer: a 10 x 10 grid of cells, stored row-major in an array of 100
    entries, each holding the index of the asset that occupies it or `Empty`. Assets are placed
    one after another as a near-square block at the first free spot in row-major order, and when
    no such block fits, cell by cell into the first free cells. */
module CloudGrid {
  const GridSize: int := 10
  const TotalCells: int := 100
  /** An unoccupied cell (`null` in the page). */
  const Empty: int := -1

  function Min(a: int, b: int): int {
    if a <= b then a else b
  }

  function Max(a: int, b: int): int {
    if a >= b then a else b
  }

  /** The cell at row `r`, column `c`. */
  function Cell(cells: seq<int>, r: int, c: int): int
    requires |cells| == TotalCells && 0 <= r < GridSize && 0 <= c < GridSize
  {
    cells[r * GridSize + c]
  }

  // ----- counting cells -----

  /** How many entries of `s` equal `v`. */
  function Count(s: seq<int>, v: int): (n: nat)
    ensures n <= |s|
  {
    if s == [] then 0 else Count(s[..|s| - 1], v) + (if s[|s| - 1] == v then 1 else 0)
  }

  lemma CountStep(s: seq<int>, i: nat, v: int)
    requires i < |s|
    ensures Count(s[..i + 1], v) == Count(s[..i], v) + (if s[i] == v then 1 else 0)
  {
    assert s[..i + 1][..i] == s[..i];
  }

  lemma {:induction false} CountMonotone(s: seq<int>, j: nat, k: nat, v: int)
    requires j <= k <= |s|
    ensures Count(s[..j], v) <= Count(s[..k], v)
    decreases k - j
  {
    if j < k {
      CountStep(s, k - 1, v);
      CountMonotone(s, j, k - 1, v);
    }
  }

  /** Overwriting one `v` with another value removes exactly one `v`. */
  lemma {:induction false} CountUpdate(s: seq<int>, k: nat, x: int, v: int)
    requires k < |s| && s[k] == v && x != v
    ensures Count(s[k := x], v) == Count(s, v) - 1
  {
    var n := |s| - 1;
    if k == n {
      assert s[k := x][..n] == s[..n];
    } else {
      assert s[k := x][..n] == s[..n][k := x];
      CountUpdate(s[..n], k, x, v);
    }
  }

  /** The number of empty cells before an empty cell is its rank among the empty cells: below
      the total, and different for different empty cells. */
  lemma EmptyRank(s: seq<int>, i: nat, j: nat)
    requires i < |s| && j < |s| && s[i] == Empty && s[j] == Empty
    ensures Count(s[..i], Empty) < Count(s, Empty)
    ensures i < j ==> Count(s[..i], Empty) < Count(s[..j], Empty)
  {
    CountStep(s, i, Empty);
    CountMonotone(s, i + 1, |s|, Empty);
    assert s[..|s|] == s;
    if i < j {
      CountMonotone(s, i + 1, j, Empty);
    }
  }

  // ----- block dimensions -----

  /** `Math.ceil(Math.sqrt(n))`: the least `w` with `w * w >= n`. */
  function CeilSqrt(n: nat): (w: nat)
    ensures w * w >= n
    ensures w == 0 || (w - 1) * (w - 1) < n
  {
    CeilSqrtFrom(n, 0)
  }

  function CeilSqrtFrom(n: nat, w: nat): (r: nat)
    requires w == 0 || (w - 1) * (w - 1) < n
    ensures r * r >= n
    ensures r == 0 || (r - 1) * (r - 1) < n
    decreases n - w
  {
    if w * w >= n then w
    else
      assert w < n by {
        if w >= n {
          MulAtLeast(w, w, n);
        }
      }
      CeilSqrtFrom(n, w + 1)
  }

  lemma MulAtLeast(a: nat, b: nat, c: nat)
    requires a >= c && b >= 1
    ensures a * b >= c
  {
    assert a * b == a * (b - 1) + a;
  }

  /** `x * w <= y * w` whenever `x <= y` and `w >= 0`. */
  lemma MulMonotone(x: int, y: int, w: int)
    requires x <= y && w >= 0
    ensures x * w <= y * w
  {
    assert y * w == x * w + (y - x) * w;
  }

  datatype Dimensions = Dimensions(width: int, height: int)

  /** `findBestFitDimensions`: a near-square block of at least `area` cells, `width` the rounded-up
      square root and `height` the least number of rows of that width that hold `area` cells. */
  function FindBestFitDimensions(area: int): (d: Dimensions)
    requires area > 0
    ensures 1 <= d.height <= d.width
    ensures d.width * d.height >= area
    ensures d.width * (d.height - 1) < area
    ensures (d.width - 1) * (d.width - 1) < area
  {
    var w := CeilSqrt(area);
    var h := (area + w - 1) / w;
    assert w * h >= area && w * (h - 1) < area by {
      assert area + w - 1 == w * h + (area + w - 1) % w;
      assert w * (h - 1) == w * h - w;
    }
    assert h <= w by {
      if h > w {
        MulMonotone(w, h - 1, w);
        assert false;
      }
    }
    Dimensions(w, h)
  }

  // ----- rectangles -----

  /** Cell `i` lies in the block of `height` rows and `width` columns whose top-left cell is
      (`row`, `col`). */
  predicate InRect(i: int, row: int, col: int, width: int, height: int) {
    row <= i / GridSize < row + height && col <= i % GridSize < col + width
  }

  /** The position of cell `i` in the row-major scan of the block. */
  function Rank(i: int, row: int, col: int, width: int): int {
    (i / GridSize - row) * width + (i % GridSize - col)
  }

  /** Every cell of the block is empty. */
  predicate RectFree(cells: seq<int>, row: int, col: int, width: int, height: int)
    requires |cells| == TotalCells
  {
    forall i | 0 <= i < TotalCells && InRect(i, row, col, width, height) :: cells[i] == Empty
  }

  /** The block fits in the grid. */
  predicate InGrid(row: int, col: int, width: int, height: int) {
    0 <= row && 0 <= col && 0 <= width && 0 <= height && row + height <= GridSize && col + width <= GridSize
  }

  lemma CellIndex(r: int, c: int)
    requires 0 <= r < GridSize && 0 <= c < GridSize
    ensures 0 <= r * GridSize + c < TotalCells
    ensures (r * GridSize + c) / GridSize == r && (r * GridSize + c) % GridSize == c
  {
  }

  /** Different cells of a block have different ranks, and every rank is below the block's area. */
  lemma {:induction false} RankFacts(i: int, j: int, row: int, col: int, width: int, height: int)
    requires 0 <= i < TotalCells && 0 <= j < TotalCells
    requires InRect(i, row, col, width, height) && InRect(j, row, col, width, height)
    ensures 0 <= Rank(i, row, col, width) < width * height
    ensures Rank(i, row, col, width) == Rank(j, row, col, width) ==> i == j
  {
    var a, b := i / GridSize - row, i % GridSize - col;
    var a', b' := j / GridSize - row, j % GridSize - col;
    MulMonotone(0, a, width);
    MulMonotone(a, height - 1, width);
    assert (height - 1) * width + width == width * height;
    if a < a' {
      MulMonotone(a + 1, a', width);
      assert (a + 1) * width == a * width + width;
    } else if a' < a {
      MulMonotone(a' + 1, a, width);
      assert (a' + 1) * width == a' * width + width;
    }
  }

  /** `isSpaceAvailable`: scans the block and answers whether every cell of it is empty. */
  method IsSpaceAvailable(row: int, col: int, width: int, height: int, cells: array<int>) returns (ok: bool)
    requires cells.Length == TotalCells
    requires InGrid(row, col, width, height)
    ensures ok <==> RectFree(cells[..], row, col, width, height)
  {
    for r := row to row + height
      invariant forall i | 0 <= i < TotalCells && InRect(i, row, col, width, r - row) :: cells[i] == Empty
    {
      for c := col to col + width
        invariant forall i | 0 <= i < TotalCells && InRect(i, row, col, width, r - row) :: cells[i] == Empty
        invariant forall i | 0 <= i < TotalCells && i / GridSize == r && col <= i % GridSize < c :: cells[i] == Empty
      {
        var index := r * GridSize + c;
        CellIndex(r, c);
        if cells[index] != Empty {
          assert InRect(index, row, col, width, height);
          return false;
        }
      }
    }
    return true;
  }

  /** `fillSpaceWithAsset`: writes `asset` into the first `maxCells` cells of the block, row by
      row, and leaves every other cell alone. On a free block this uses up exactly as many empty
      cells as it writes. */
  method FillSpaceWithAsset(row: int, col: int, width: int, height: int, asset: nat, cells: array<int>, maxCells: int)
    requires cells.Length == TotalCells
    requires InGrid(row, col, width, height)
    modifies cells
    ensures forall i | 0 <= i < TotalCells ::
              cells[i] == if InRect(i, row, col, width, height) && Rank(i, row, col, width) < maxCells
                          then asset else old(cells[i])
    ensures RectFree(old(cells[..]), row, col, width, height) ==>
              Count(cells[..], Empty) == Count(old(cells[..]), Empty) - Min(Max(maxCells, 0), width * height)
  {
    ghost var before := cells[..];
    var filled := 0;
    var r := row;
    while r < row + height && filled < maxCells
      invariant row <= r <= row + height
      invariant 0 <= filled <= Max(maxCells, 0)
      invariant filled <= (r - row) * width
      invariant filled < maxCells ==> filled == (r - row) * width
      invariant forall i | 0 <= i < TotalCells ::
                  cells[i] == if InRect(i, row, col, width, height) && Rank(i, row, col, width) < filled
                              then asset else before[i]
      invariant RectFree(before, row, col, width, height) ==> Count(cells[..], Empty) == Count(before, Empty) - filled
    {
      filled := FillRectRow(row, col, width, height, asset, cells, maxCells, r, filled, before);
      assert (r + 1 - row) * width == (r - row) * width + width;
      r := r + 1;
    }
    forall i | 0 <= i < TotalCells && InRect(i, row, col, width, height)
      ensures Rank(i, row, col, width) < filled <==> Rank(i, row, col, width) < maxCells
    {
      RankFacts(i, i, row, col, width, height);
    }
    if filled < maxCells {
      assert (r - row) * width == width * height;
    } else {
      MulMonotone(r - row, height, width);
    }
  }

  /** The inner loop of `fillSpaceWithAsset`: writes `asset` along row `r` of the block until
      the row ends or `maxCells` cells have been written. */
  method FillRectRow(row: int, col: int, width: int, height: int, asset: nat, cells: array<int>, maxCells: int,
                     r: int, filled0: int, ghost before: seq<int>) returns (filled: int)
    requires cells.Length == TotalCells && |before| == TotalCells
    requires InGrid(row, col, width, height) && row <= r < row + height
    requires 0 <= filled0 < maxCells && filled0 == (r - row) * width
    requires forall i | 0 <= i < TotalCells ::
               cells[i] == if InRect(i, row, col, width, height) && Rank(i, row, col, width) < filled0
                           then asset else before[i]
    requires RectFree(before, row, col, width, height) ==> Count(cells[..], Empty) == Count(before, Empty) - filled0
    modifies cells
    ensures 0 <= filled <= maxCells
    ensures filled < maxCells ==> filled == (r + 1 - row) * width
    ensures filled <= (r + 1 - row) * width
    ensures forall i | 0 <= i < TotalCells ::
              cells[i] == if InRect(i, row, col, width, height) && Rank(i, row, col, width) < filled
                          then asset else before[i]
    ensures RectFree(before, row, col, width, height) ==> Count(cells[..], Empty) == Count(before, Empty) - filled
  {
    filled := filled0;
    var c := col;
    while c < col + width && filled < maxCells
      invariant col <= c <= col + width
      invariant 0 <= filled <= maxCells
      invariant filled == (r - row) * width + (c - col)
      invariant forall i | 0 <= i < TotalCells ::
                  cells[i] == if InRect(i, row, col, width, height) && Rank(i, row, col, width) < filled
                              then asset else before[i]
      invariant RectFree(before, row, col, width, height) ==> Count(cells[..], Empty) == Count(before, Empty) - filled
    {
      var index := r * GridSize + c;
      CellIndex(r, c);
      assert InRect(index, row, col, width, height) && Rank(index, row, col, width) == filled;
      FillStep(cells[..], before, index, asset, filled, row, col, width, height);
      cells[index] := asset;
      filled := filled + 1;
      c := c + 1;
    }
  }

  /** One write of the fill loop: the cell of rank `filled` was still untouched, so on a free
      block it was empty, and it is the only cell whose rank is `filled`. */
  lemma FillStep(cur: seq<int>, before: seq<int>, index: int, asset: nat, filled: int,
                 row: int, col: int, width: int, height: int)
    requires |cur| == TotalCells && |before| == TotalCells && 0 <= index < TotalCells
    requires InRect(index, row, col, width, height) && Rank(index, row, col, width) == filled
    requires forall i | 0 <= i < TotalCells ::
               cur[i] == if InRect(i, row, col, width, height) && Rank(i, row, col, width) < filled
                         then asset else before[i]
    requires RectFree(before, row, col, width, height) ==> Count(cur, Empty) == Count(before, Empty) - filled
    ensures forall i | 0 <= i < TotalCells ::
              cur[index := asset][i] == if InRect(i, row, col, width, height) && Rank(i, row, col, width) < filled + 1
                                        then asset else before[i]
    ensures RectFree(before, row, col, width, height) ==> Count(cur[index := asset], Empty) == Count(before, Empty) - (filled + 1)
  {
    forall i | 0 <= i < TotalCells && i != index && InRect(i, row, col, width, height)
      ensures Rank(i, row, col, width) != filled
    {
      RankFacts(i, index, row, col, width, height);
    }
    if RectFree(before, row, col, width, height) {
      CountUpdate(cur, index, asset, Empty);
    }
  }

  // ----- placing one asset -----

  /** `fallbackPlacement`: scans the rows left to right, skipping occupied runs, and writes
      `asset` into the first `cellCount` empty cells in row-major order (all of them when there
      are fewer); occupied cells are never touched. */
  method FallbackPlacement(asset: nat, cellCount: int, cells: array<int>)
    requires cells.Length == TotalCells
    modifies cells
    ensures forall i | 0 <= i < TotalCells ::
              cells[i] == if old(cells[i]) == Empty && Count(old(cells[..])[..i], Empty) < cellCount
                          then asset else old(cells[i])
    ensures Count(cells[..], Empty) == Count(old(cells[..]), Empty) - Min(Max(cellCount, 0), Count(old(cells[..]), Empty))
  {
    ghost var before := cells[..];
    if cellCount <= 0 {
      forall i | 0 <= i < TotalCells ensures cells[i] == before[i] { }
      return;
    }
    var placed := 0;
    var r := 0;
    while r < GridSize && placed < cellCount
      invariant 0 <= r <= GridSize
      invariant placed == Min(cellCount, Count(before[..r * GridSize], Empty))
      invariant FallbackState(cells[..], before, asset, placed)
    {
      placed := FallbackRow(asset, cellCount, cells, r, placed, before);
      r := r + 1;
    }
    if placed == cellCount {
      CountMonotone(before, r * GridSize, TotalCells, Empty);
    }
    assert before[..TotalCells] == before;
    forall i | 0 <= i < TotalCells && before[i] == Empty
      ensures Count(before[..i], Empty) < placed <==> Count(before[..i], Empty) < cellCount
    {
      EmptyRank(before, i, i);
    }
  }

  /** One row of the fallback scan: alternately skip a run of occupied cells and fill a run of
      empty ones, until the row ends or `cellCount` cells have been placed. */
  method FallbackRow(asset: nat, cellCount: int, cells: array<int>, r: int, placed0: int, ghost before: seq<int>)
      returns (placed: int)
    requires cells.Length == TotalCells && 0 <= r < GridSize
    requires FallbackState(cells[..], before, asset, placed0)
    requires placed0 < cellCount
    requires placed0 == Min(cellCount, Count(before[..r * GridSize], Empty))
    modifies cells
    ensures placed == Min(cellCount, Count(before[..(r + 1) * GridSize], Empty))
    ensures FallbackState(cells[..], before, asset, placed)
  {
    placed := placed0;
    var c := 0;
    while c < GridSize && placed < cellCount
      invariant 0 <= c <= GridSize + 1 && placed <= cellCount
      invariant placed == Min(cellCount, Count(before[..r * GridSize + Min(c, GridSize)], Empty))
      invariant FallbackState(cells[..], before, asset, placed)
      decreases GridSize - c
    {
      var rowEnded;
      c, placed, rowEnded := ScanRun(asset, cellCount, cells, r, c, placed, before);
      if rowEnded {
        break;
      }
    }
    RowDone(before, r, c, placed, cellCount);
  }

  /** One pass of the row scan's outer `while`: skip occupied cells, stop at the end of the row
      (`rowEnded`), otherwise fill the run of empty cells and step over the cell after it. */
  method ScanRun(asset: nat, cellCount: int, cells: array<int>, r: int, c0: int, placed0: int, ghost before: seq<int>)
      returns (c: int, placed: int, rowEnded: bool)
    requires cells.Length == TotalCells && 0 <= r < GridSize && 0 <= c0 < GridSize
    requires FallbackState(cells[..], before, asset, placed0)
    requires placed0 < cellCount
    requires placed0 == Count(before[..r * GridSize + c0], Empty)
    modifies cells
    ensures c0 < c <= GridSize + 1 && placed0 <= placed <= cellCount
    ensures placed == Min(cellCount, Count(before[..r * GridSize + Min(c, GridSize)], Empty))
    ensures FallbackState(cells[..], before, asset, placed)
    ensures rowEnded ==> c >= GridSize
  {
    c := SkipOccupied(asset, cellCount, cells, r, c0, placed0, before);
    if c >= GridSize {
      return c, placed0, true;
    }
    c, placed := FillRun(asset, cellCount, cells, r, c, placed0, before);
    RunEnd(cells[..], before, asset, r, c, placed, cellCount);
    c := c + 1;
    rowEnded := false;
  }

  /** After a run has been filled, `c++` steps over the cell that stopped it. That cell was
      occupied unless the run stopped because every cell had been placed. */
  lemma RunEnd(cur: seq<int>, before: seq<int>, asset: nat, r: int, c: int, placed: int, cellCount: int)
    requires FallbackState(cur, before, asset, placed)
    requires 0 <= r < GridSize && 0 <= c <= GridSize && placed <= cellCount
    requires placed == Count(before[..r * GridSize + c], Empty)
    requires c < GridSize && placed < cellCount ==> cur[r * GridSize + c] != Empty
    ensures placed == Min(cellCount, Count(before[..r * GridSize + Min(c + 1, GridSize)], Empty))
  {
    if c < GridSize && placed < cellCount {
      CellIndex(r, c);
      SkipStep(cur, before, r * GridSize + c, asset, placed);
    } else if c < GridSize {
      CountMonotone(before, r * GridSize + c, r * GridSize + c + 1, Empty);
    }
  }

  /** The fallback scan leaves a row either at its end or with every cell placed. */
  lemma RowDone(before: seq<int>, r: int, c: int, placed: int, cellCount: int)
    requires |before| == TotalCells && 0 <= r < GridSize && 0 <= c <= GridSize + 1
    requires placed <= cellCount && (c >= GridSize || placed >= cellCount)
    requires placed == Min(cellCount, Count(before[..r * GridSize + Min(c, GridSize)], Empty))
    ensures placed == Min(cellCount, Count(before[..(r + 1) * GridSize], Empty))
  {
    var seen := r * GridSize + Min(c, GridSize);
    if placed < cellCount {
      assert seen == (r + 1) * GridSize;
    } else {
      CountMonotone(before, seen, (r + 1) * GridSize, Empty);
    }
  }

  /** `while (c < gridSize && cells[r * gridSize + c] !== null) c++`: moves past occupied cells. */
  method SkipOccupied(asset: nat, cellCount: int, cells: array<int>, r: int, c0: int, placed: int, ghost before: seq<int>)
      returns (c: int)
    requires cells.Length == TotalCells && 0 <= r < GridSize && 0 <= c0 <= GridSize
    requires FallbackState(cells[..], before, asset, placed)
    requires placed < cellCount && placed == Count(before[..r * GridSize + c0], Empty)
    ensures c0 <= c <= GridSize
    ensures placed == Count(before[..r * GridSize + c], Empty)
    ensures c < GridSize ==> cells[r * GridSize + c] == Empty
    ensures cells[..] == old(cells[..])
  {
    c := c0;
    while c < GridSize && cells[r * GridSize + c] != Empty
      invariant c0 <= c <= GridSize
      invariant placed == Count(before[..r * GridSize + c], Empty)
    {
      CellIndex(r, c);
      SkipStep(cells[..], before, r * GridSize + c, asset, placed);
      c := c + 1;
    }
  }

  /** The inner `while` of the fallback scan: fills consecutive empty cells of row `r` until an
      occupied cell, the end of the row, or `cellCount` placed cells. */
  method FillRun(asset: nat, cellCount: int, cells: array<int>, r: int, c0: int, placed0: int, ghost before: seq<int>)
      returns (c: int, placed: int)
    requires cells.Length == TotalCells && 0 <= r < GridSize && 0 <= c0 <= GridSize
    requires FallbackState(cells[..], before, asset, placed0)
    requires placed0 <= cellCount && placed0 == Count(before[..r * GridSize + c0], Empty)
    modifies cells
    ensures c0 <= c <= GridSize && placed0 <= placed <= cellCount
    ensures placed == Count(before[..r * GridSize + c], Empty)
    ensures FallbackState(cells[..], before, asset, placed)
    ensures c < GridSize && placed < cellCount ==> cells[r * GridSize + c] != Empty
  {
    c, placed := c0, placed0;
    while c < GridSize && cells[r * GridSize + c] == Empty && placed < cellCount
      invariant c0 <= c <= GridSize
      invariant placed0 <= placed <= cellCount
      invariant placed == Count(before[..r * GridSize + c], Empty)
      invariant FallbackState(cells[..], before, asset, placed)
    {
      var index := r * GridSize + c;
      CellIndex(r, c);
      CountStep(before, index, Empty);
      ghost var cur := cells[..];
      FallbackStep(cur, before, index, asset, placed);
      cells[index] := asset;
      assert cells[..] == cur[index := asset];
      placed := placed + 1;
      c := c + 1;
    }
  }

  /** Passing over an occupied cell during the fallback scan: the cell was occupied before the
      scan, so the number of empty cells seen does not change. */
  lemma SkipStep(cur: seq<int>, before: seq<int>, index: int, asset: nat, placed: int)
    requires FallbackState(cur, before, asset, placed)
    requires 0 <= index < TotalCells && cur[index] != Empty
    requires Count(before[..index], Empty) == placed
    ensures Count(before[..index + 1], Empty) == placed
  {
    CountStep(before, index, Empty);
  }

  /** The grid during the fallback scan: the `placed` empty cells of lowest rank hold `asset`,
      everything else is as it was, and `placed` empty cells have been used up. */
  ghost predicate FallbackState(cur: seq<int>, before: seq<int>, asset: nat, placed: int)
  {
    |cur| == TotalCells && |before| == TotalCells && 0 <= placed
    && (forall i {:trigger cur[i]} | 0 <= i < TotalCells ::
          cur[i] == if before[i] == Empty && Count(before[..i], Empty) < placed then asset else before[i])
    && Count(cur, Empty) == Count(before, Empty) - placed
  }

  /** One write of the fallback scan: the empty cell of rank `placed` is the only one of that
      rank and is still empty. */
  lemma FallbackStep(cur: seq<int>, before: seq<int>, index: int, asset: nat, placed: int)
    requires FallbackState(cur, before, asset, placed)
    requires 0 <= index < TotalCells && cur[index] == Empty
    requires Count(before[..index], Empty) == placed
    ensures before[index] == Empty
    ensures FallbackState(cur[index := asset], before, asset, placed + 1)
  {
    forall i | 0 <= i < TotalCells && i != index && before[i] == Empty
      ensures Count(before[..i], Empty) != placed
    {
      if i < index {
        EmptyRank(before, i, index);
      } else {
        EmptyRank(before, index, i);
      }
    }
    CountUpdate(cur, index, asset, Empty);
  }

  /** The block of `width` x `height` cells with top-left cell (`row`, `col`) lies in the grid
      and is free. */
  predicate Fits(cells: seq<int>, row: int, col: int, width: int, height: int)
    requires |cells| == TotalCells
  {
    InGrid(row, col, width, height) && RectFree(cells, row, col, width, height)
  }

  /** The block is free somewhere in the grid. */
  ghost predicate HasFit(cells: seq<int>, width: int, height: int)
    requires |cells| == TotalCells
  {
    exists row, col :: Fits(cells, row, col, width, height)
  }

  /** (`row`, `col`) is the first origin, in row-major order, at which the block is free. */
  ghost predicate FirstFit(cells: seq<int>, row: int, col: int, width: int, height: int)
    requires |cells| == TotalCells
  {
    && Fits(cells, row, col, width, height)
    && forall r, c | Fits(cells, r, c, width, height) :: row < r || (row == r && col <= c)
  }

  /** `after` is `before` with the first `maxCells` cells of the block, in row order, set to
      `asset`: what `fillSpaceWithAsset` leaves. */
  ghost predicate BlockFilled(before: seq<int>, after: seq<int>, asset: int, row: int, col: int,
                              width: int, height: int, maxCells: int)
  {
    && |before| == TotalCells && |after| == TotalCells
    && forall i | 0 <= i < TotalCells ::
         after[i] == if InRect(i, row, col, width, height) && Rank(i, row, col, width) < maxCells
                     then asset else before[i]
  }

  /** `after` is `before` with its empty cells of rank below `cellCount`, in row-major order, set
      to `asset`: what `fallbackPlacement` leaves. */
  ghost predicate FallbackFilled(before: seq<int>, after: seq<int>, asset: int, cellCount: int)
  {
    && |before| == TotalCells && |after| == TotalCells
    && forall i | 0 <= i < TotalCells ::
         after[i] == if before[i] == Empty && Count(before[..i], Empty) < cellCount then asset else before[i]
  }

  /** The two nested `for` loops of `placeAssetInGrid`: the first origin in row-major order at
      which the block is free, if there is one. */
  method FindFirstFit(width: int, height: int, cells: array<int>) returns (found: bool, row: int, col: int)
    requires cells.Length == TotalCells && width >= 0 && height >= 0
    ensures found ==> FirstFit(cells[..], row, col, width, height)
    ensures !found ==> !HasFit(cells[..], width, height)
  {
    row, col := 0, 0;
    while row <= GridSize - height
      invariant 0 <= row
      invariant forall r, c | Fits(cells[..], r, c, width, height) :: row <= r
    {
      col := 0;
      while col <= GridSize - width
        invariant 0 <= col
        invariant forall r, c | Fits(cells[..], r, c, width, height) :: row < r || (row == r && col <= c)
      {
        found := IsSpaceAvailable(row, col, width, height, cells);
        if found {
          return;
        }
        col := col + 1;
      }
      row := row + 1;
    }
    found := false;
  }

  /** `placeAssetInGrid`: nothing for a non-positive count; otherwise the near-square block is
      tried at every position in row-major order and filled at the first free one, and when none
      is free the fallback scan takes over. Either way only empty cells are written, they receive
      `asset`, and exactly `cellCount` of them are used up, or all of them when fewer are left. */
  method PlaceAssetInGrid(asset: nat, cellCount: int, cells: array<int>)
    requires cells.Length == TotalCells
    modifies cells
    ensures cellCount <= 0 ==> cells[..] == old(cells[..])
    ensures cellCount > 0 ==>
              var d := FindBestFitDimensions(cellCount);
              HasFit(old(cells[..]), d.width, d.height) ==>
                exists row, col :: FirstFit(old(cells[..]), row, col, d.width, d.height)
                                   && BlockFilled(old(cells[..]), cells[..], asset, row, col, d.width, d.height, cellCount)
    ensures cellCount > 0 ==>
              var d := FindBestFitDimensions(cellCount);
              !HasFit(old(cells[..]), d.width, d.height) ==> FallbackFilled(old(cells[..]), cells[..], asset, cellCount)
    ensures forall i | 0 <= i < TotalCells :: old(cells[i]) != Empty ==> cells[i] == old(cells[i])
    ensures forall i | 0 <= i < TotalCells :: cells[i] == old(cells[i]) || cells[i] == asset
    ensures Count(cells[..], Empty) == Count(old(cells[..]), Empty) - Min(Max(cellCount, 0), Count(old(cells[..]), Empty))
  {
    if cellCount <= 0 {
      return;
    }
    var dimensions := FindBestFitDimensions(cellCount);
    ghost var before := cells[..];
    var found, row, col := FindFirstFit(dimensions.width, dimensions.height, cells);
    if found {
      FillSpaceWithAsset(row, col, dimensions.width, dimensions.height, asset, cells, cellCount);
      assert BlockFilled(before, cells[..], asset, row, col, dimensions.width, dimensions.height, cellCount);
    } else {
      FallbackPlacement(asset, cellCount, cells);
      assert FallbackFilled(before, cells[..], asset, cellCount);
    }
  }

  // ----- reading blocks back -----

  /** `isAssetStart`: the cell holds the top-left corner of a run of `asset`, neither the cell
      above nor the cell to the left holding the same asset. */
  predicate IsAssetStart(index: int, asset: int, cells: seq<int>)
    requires |cells| == TotalCells && 0 <= index < TotalCells
  {
    var row := index / GridSize;
    var col := index % GridSize;
    (row == 0 || cells[index - GridSize] != asset) && (col == 0 || cells[index - 1] != asset)
  }

  /** The first cell in row-major order holding an asset is a start, so every placed asset gets at
      least one block rendered. */
  lemma FirstCellIsStart(index: int, asset: int, cells: seq<int>)
    requires |cells| == TotalCells && 0 <= index < TotalCells
    requires cells[index] == asset
    requires forall j | 0 <= j < index :: cells[j] != asset
    ensures IsAssetStart(index, asset, cells)
  {
  }

  /** Some cell of row `r` between columns `col` and `col + width` holds `asset`. */
  predicate RowTouches(cells: seq<int>, r: int, col: int, width: int, asset: int)
    requires |cells| == TotalCells && 0 <= r < GridSize && InGrid(0, col, width, 0)
  {
    exists c | col <= c < col + width :: Cell(cells, r, c) == asset
  }

  /** `calculateAssetDimensions`: the width is the length of the run of `asset` that starts at the
      cell and goes right; the height is the number of consecutive rows, from the cell's row down,
      that hold `asset` somewhere in the columns of that run. */
  method CalculateAssetDimensions(startIndex: int, asset: int, cells: array<int>) returns (width: int, height: int)
    requires cells.Length == TotalCells && 0 <= startIndex < TotalCells
    ensures InGrid(startIndex / GridSize, startIndex % GridSize, width, height)
    ensures forall c | startIndex % GridSize <= c < startIndex % GridSize + width ::
              Cell(cells[..], startIndex / GridSize, c) == asset
    ensures startIndex % GridSize + width < GridSize ==>
              Cell(cells[..], startIndex / GridSize, startIndex % GridSize + width) != asset
    ensures forall r | startIndex / GridSize <= r < startIndex / GridSize + height ::
              RowTouches(cells[..], r, startIndex % GridSize, width, asset)
    ensures startIndex / GridSize + height < GridSize ==>
              !RowTouches(cells[..], startIndex / GridSize + height, startIndex % GridSize, width, asset)
  {
    var startRow := startIndex / GridSize;
    var startCol := startIndex % GridSize;
    width := 0;
    height := 0;
    var col := startCol;
    while col < GridSize
      invariant startCol <= col <= GridSize && width == col - startCol
      invariant forall c | startCol <= c < col :: Cell(cells[..], startRow, c) == asset
    {
      if cells[startRow * GridSize + col] == asset {
        width := width + 1;
      } else {
        break;
      }
      col := col + 1;
    }
    var row := startRow;
    while row < GridSize
      invariant startRow <= row <= GridSize && height == row - startRow
      invariant forall r | startRow <= r < row :: RowTouches(cells[..], r, startCol, width, asset)
    {
      var hasAssetCell := false;
      var c := startCol;
      while c < startCol + width
        invariant startCol <= c <= startCol + width
        invariant forall c' | startCol <= c' < c :: Cell(cells[..], row, c') != asset
      {
        if cells[row * GridSize + c] == asset {
          assert Cell(cells[..], row, c) == asset;
          hasAssetCell := true;
          break;
        }
        c := c + 1;
      }
      if hasAssetCell {
        height := height + 1;
      } else {
        break;
      }
      row := row + 1;
    }
  }
}
