/** The tile grid builder and sample-size selection of TileUtils.kt.
    `initializeTileMap` cuts an image into a row-major grid of rectangles for each
    power-of-two sample size, stopping at the first size that needs a single tile;
    `findSampleSize` picks the power-of-two sample size for a scaled width ratio;
    `crossWith` is the strict rectangle intersection test. The source's
    `ceil(a / b.toFloat())` is exact integer ceiling division here. */
module TileUtils {
  import opened KotlinInt
  import opened Wrappers
  import opened Geometry

  /** A tile: the rectangle of the original image it covers and the sample size it
      is decoded at. */
  datatype Tile = Tile(srcRect: Rect, sampleSize: int)

  // ---------------------------------------------------------------------------
  // crossWith

  /** `Rect.crossWith(other)`: the two rectangles overlap in a region of positive
      area (sharing only an edge is not enough). */
  predicate CrossWith(a: Rect, b: Rect) {
    a.left < b.right && a.right > b.left && a.top < b.bottom && a.bottom > b.top
  }

  /** `crossWith` is symmetric, rectangles that only share an edge do not cross, and
      for non-empty rectangles it holds exactly when some pixel lies in both. */
  lemma CrossWithMeansCommonPixel(a: Rect, b: Rect)
    ensures CrossWith(a, b) <==> CrossWith(b, a)
    ensures a.right == b.left || a.bottom == b.top || a.left == b.right || a.top == b.bottom ==>
              !CrossWith(a, b)
    ensures a.left < a.right && a.top < a.bottom && b.left < b.right && b.top < b.bottom ==>
              (CrossWith(a, b) <==> exists x, y :: a.Contains(x, y) && b.Contains(x, y))
  {
    if a.left < a.right && a.top < a.bottom && b.left < b.right && b.top < b.bottom && CrossWith(a, b) {
      var x := Max(a.left, b.left);
      var y := Max(a.top, b.top);
      assert a.Contains(x, y) && b.Contains(x, y);
    }
  }

  // ---------------------------------------------------------------------------
  // Arithmetic facts about the grid

  lemma MulMonotone(a: int, b: int, t: int)
    requires a <= b && t >= 0
    ensures a * t <= b * t
  {
    assert b * t - a * t == (b - a) * t;
  }

  /** Column `c` of a grid with tile extent `tw` starts inside an extent `w` exactly
      when `c` is below the column count `ceil(w / tw)`. */
  lemma StartsInside(c: int, w: int, tw: int)
    requires c >= 0 && w > 0 && tw > 0
    ensures c < CeilDiv(w, tw) <==> c * tw < w
  {
    var n := CeilDiv(w, tw);
    if c < n {
      MulMonotone(c, n - 1, tw);
    } else {
      MulMonotone(n, c, tw);
    }
  }

  /** Row-major index arithmetic: `r * cols + c` is split back into `r` and `c`. */
  lemma RowMajorIndex(r: int, c: int, cols: int)
    requires cols > 0 && r >= 0 && 0 <= c < cols
    ensures (r * cols + c) / cols == r
    ensures (r * cols + c) % cols == c
  {
    var i := r * cols + c;
    var q, m := i / cols, i % cols;
    assert i == q * cols + m;
    assert (r - q) * cols == m - c;
    if r > q {
      MulMonotone(1, r - q, cols);
    } else if r < q {
      assert (q - r) * cols == c - m;
      MulMonotone(1, q - r, cols);
    }
  }

  /** An index below `rows * cols` has its row below `rows`. */
  lemma RowOfIndexInRange(i: int, rows: int, cols: int)
    requires cols > 0 && rows > 0 && 0 <= i < rows * cols
    ensures 0 <= i / cols < rows
  {
    var r := i / cols;
    assert r * cols <= i;
    if r >= rows {
      MulMonotone(rows, r, cols);
    }
  }

  /** A later index is in a later row, or in the same row and a later column. */
  lemma IndexOrder(i: int, j: int, cols: int)
    requires cols > 0 && 0 <= i < j
    ensures i / cols < j / cols || (i / cols == j / cols && i % cols < j % cols)
  {
    var ri, rj := i / cols, j / cols;
    assert i == ri * cols + i % cols;
    assert j == rj * cols + j % cols;
    if ri > rj {
      assert (rj + 1) * cols == rj * cols + cols;
      MulMonotone(rj + 1, ri, cols);
    }
  }

  /** Ceiling division grows with the numerator. */
  lemma CeilDivMonotone(a: int, b: int, s: int)
    requires 0 < a <= b && s > 0
    ensures CeilDiv(a, s) <= CeilDiv(b, s)
  {
    var ca, cb := CeilDiv(a, s), CeilDiv(b, s);
    if ca > cb {
      MulMonotone(cb, ca - 1, s);
    }
  }

  /** `ceil(a / s)` is 1 when `0 < a <= s`, and `ceil(a / 1)` is `a`. */
  lemma CeilDivSmall(a: int, s: int)
    requires 0 < a && s > 0
    ensures a <= s ==> CeilDiv(a, s) == 1
    ensures CeilDiv(a, 1) == a
    ensures CeilDiv(a, a) == 1
  {
    var c := CeilDiv(a, s);
    if a <= s {
      if c >= 2 {
        MulMonotone(1, c - 1, s);
      }
      if c <= 0 {
        MulMonotone(c, 0, s);
      }
    }
    var d := CeilDiv(a, a);
    if d >= 2 {
      MulMonotone(1, d - 1, a);
    }
    if d <= 0 {
      MulMonotone(d, 0, a);
    }
  }

  // ---------------------------------------------------------------------------
  // One level of the grid

  /** The shape of the grid at one sample size: the image extent, the source extent
      of a tile, and the sample size the tiles carry. */
  datatype GridShape = GridShape(width: int, height: int, tileWidth: int, tileHeight: int, sampleSize: int) {

    predicate Valid() {
      width > 0 && height > 0 && tileWidth > 0 && tileHeight > 0
    }

    /** Number of columns the row loop produces: `ceil(width / tileWidth)`. */
    function Columns(): (n: int)
      requires Valid()
      ensures n >= 1
    {
      CeilDiv(width, tileWidth)
    }

    function Rows(): (n: int)
      requires Valid()
      ensures n >= 1
    {
      CeilDiv(height, tileHeight)
    }

    /** The tile in row `r`, column `c`: right and bottom are clamped to the image. */
    function TileAt(r: int, c: int): Tile {
      Tile(Rect(c * tileWidth, r * tileHeight,
                Min((c + 1) * tileWidth, width), Min((r + 1) * tileHeight, height)),
           sampleSize)
    }

    /** The tile at row-major position `i`. */
    function TileOf(i: int): Tile
      requires Valid()
    {
      TileAt(i / Columns(), i % Columns())
    }
  }

  /** The tile list of one level, as the row loop builds it: `Columns() * Rows()`
      tiles, the `i`-th being the one at row `i / Columns()` and column `i % Columns()`. */
  ghost predicate IsGrid(shape: GridShape, tiles: seq<Tile>)
    requires shape.Valid()
  {
    |tiles| == shape.Columns() * shape.Rows()
    && forall i :: 0 <= i < |tiles| ==> tiles[i] == shape.TileOf(i)
  }

  /** The rows-then-columns loop of `initializeTileMap`: starting at `(0, 0)`, emit
      the tile with right and bottom clamped to the image; at the bottom-right corner
      stop, at the right edge go to the start of the next row, and otherwise move one
      tile to the right. */
  method BuildTiles(shape: GridShape) returns (tiles: seq<Tile>)
    requires shape.Valid()
    ensures IsGrid(shape, tiles)
  {
    var cols, rows := shape.Columns(), shape.Rows();
    var left, top := 0, 0;
    ghost var row, col := 0, 0;
    tiles := [];
    while true
      invariant 0 <= row < rows && 0 <= col < cols
      invariant left == col * shape.tileWidth && top == row * shape.tileHeight
      invariant |tiles| == row * cols + col
      invariant forall i :: 0 <= i < |tiles| ==> tiles[i] == shape.TileOf(i)
      decreases rows - row, cols - col
    {
      GridStep(shape, row, col);
      var right := Min(left + shape.tileWidth, shape.width);
      var bottom := Min(top + shape.tileHeight, shape.height);
      tiles := tiles + [Tile(Rect(left, top, right, bottom), shape.sampleSize)];
      if right >= shape.width && bottom >= shape.height {
        break;
      } else if right >= shape.width {
        left := 0;
        top := top + shape.tileHeight;
        row, col := row + 1, 0;
      } else {
        left := left + shape.tileWidth;
        col := col + 1;
      }
    }
  }

  /** What one step of the row loop needs: the tile it emits is the one at position
      `row * Columns() + col`, it reaches the right edge exactly in the last column
      and the bottom edge exactly in the last row, and the next position follows. */
  lemma GridStep(shape: GridShape, row: int, col: int)
    requires shape.Valid() && 0 <= row < shape.Rows() && 0 <= col < shape.Columns()
    ensures var tw, th := shape.tileWidth, shape.tileHeight;
      shape.TileOf(row * shape.Columns() + col)
        == Tile(Rect(col * tw, row * th, Min(col * tw + tw, shape.width), Min(row * th + th, shape.height)),
                shape.sampleSize)
    ensures col * shape.tileWidth + shape.tileWidth >= shape.width <==> col == shape.Columns() - 1
    ensures row * shape.tileHeight + shape.tileHeight >= shape.height <==> row == shape.Rows() - 1
    ensures (col + 1) * shape.tileWidth == col * shape.tileWidth + shape.tileWidth
    ensures (row + 1) * shape.tileHeight == row * shape.tileHeight + shape.tileHeight
    ensures (row + 1) * shape.Columns() == row * shape.Columns() + shape.Columns()
    ensures row * shape.Columns() + col + 1 == shape.Columns() * shape.Rows() <==>
              row == shape.Rows() - 1 && col == shape.Columns() - 1
  {
    var cols, rows := shape.Columns(), shape.Rows();
    RowMajorIndex(row, col, cols);
    assert (col + 1) * shape.tileWidth == col * shape.tileWidth + shape.tileWidth;
    assert (row + 1) * shape.tileHeight == row * shape.tileHeight + shape.tileHeight;
    StartsInside(col + 1, shape.width, shape.tileWidth);
    StartsInside(row + 1, shape.height, shape.tileHeight);
    LastIndex(row, col, rows, cols);
  }

  /** `row * cols + col` is the last position of a `rows x cols` grid exactly at the
      bottom-right cell. */
  lemma LastIndex(row: int, col: int, rows: int, cols: int)
    requires 0 <= row < rows && 0 <= col < cols
    ensures row * cols + col + 1 == cols * rows <==> row == rows - 1 && col == cols - 1
  {
    assert cols * rows == (rows - 1) * cols + cols;
    if row < rows - 1 {
      MulMonotone(row + 1, rows - 1, cols);
      assert (row + 1) * cols == row * cols + cols;
    } else {
      assert row * cols + col + 1 == cols * rows - cols + col + 1;
    }
  }

  /** Euclidean division of a non-negative `x` by a positive `t`. */
  lemma DivBounds(x: int, t: int)
    requires x >= 0 && t > 0
    ensures x / t >= 0
    ensures (x / t) * t <= x < (x / t) * t + t
    ensures (x / t + 1) * t == (x / t) * t + t
  {
    assert x == (x / t) * t + x % t;
  }

  // ---------------------------------------------------------------------------
  // What a grid guarantees

  /** Some tile of the list contains the pixel. */
  ghost predicate Covered(tiles: seq<Tile>, x: int, y: int) {
    exists i :: 0 <= i < |tiles| && tiles[i].srcRect.Contains(x, y)
  }

  /** `a` comes before `b` in row-major order. */
  predicate RowMajorBefore(a: Rect, b: Rect) {
    a.top < b.top || (a.top == b.top && a.left < b.left)
  }

  /** The tiles of one sample size partition the image `[0, width) x [0, height)`:
      each is non-empty, lies in the image and carries the sample size; no two cross
      and they are listed row-major; every pixel is covered; the last one ends at the
      bottom-right corner. */
  ghost predicate IsTiling(tiles: seq<Tile>, imageSize: IntSize, sampleSize: int) {
    |tiles| >= 1
    && (forall i :: 0 <= i < |tiles| ==>
          var r := tiles[i].srcRect;
          tiles[i].sampleSize == sampleSize
          && 0 <= r.left < r.right <= imageSize.width && 0 <= r.top < r.bottom <= imageSize.height)
    && (forall i, j :: 0 <= i < j < |tiles| ==>
          !CrossWith(tiles[i].srcRect, tiles[j].srcRect) && RowMajorBefore(tiles[i].srcRect, tiles[j].srcRect))
    && (forall x, y :: 0 <= x < imageSize.width && 0 <= y < imageSize.height ==> Covered(tiles, x, y))
    && tiles[|tiles| - 1].srcRect.right == imageSize.width
    && tiles[|tiles| - 1].srcRect.bottom == imageSize.height
  }

  /** Every tile, decoded at its sample size, fits the maximum tile size:
      `ceil(width / sampleSize) <= maxWidth`, and likewise for the height. */
  ghost predicate FitsTileMaxSize(tiles: seq<Tile>, tileMaxSize: IntSize) {
    forall i :: 0 <= i < |tiles| ==>
      var r := tiles[i].srcRect;
      r.left < r.right && r.top < r.bottom && tiles[i].sampleSize > 0
      && CeilDiv(r.Width(), tiles[i].sampleSize) <= tileMaxSize.width
      && CeilDiv(r.Height(), tiles[i].sampleSize) <= tileMaxSize.height
  }

  /** The tile at position `i` lies in row `i / Columns()` and column `i % Columns()`,
      both in range, and is a non-empty rectangle inside the image no larger than a
      full tile. */
  lemma TileOfInRange(shape: GridShape, i: int)
    requires shape.Valid() && 0 <= i < shape.Columns() * shape.Rows()
    ensures 0 <= i / shape.Columns() < shape.Rows() && 0 <= i % shape.Columns() < shape.Columns()
    ensures var r := shape.TileOf(i).srcRect;
      0 <= r.left < r.right <= shape.width && 0 <= r.top < r.bottom <= shape.height
      && r.Width() <= shape.tileWidth && r.Height() <= shape.tileHeight
  {
    var cols := shape.Columns();
    RowOfIndexInRange(i, shape.Rows(), cols);
    var row, col := i / cols, i % cols;
    StartsInside(col, shape.width, shape.tileWidth);
    StartsInside(row, shape.height, shape.tileHeight);
    MulMonotone(0, col, shape.tileWidth);
    MulMonotone(0, row, shape.tileHeight);
    assert (col + 1) * shape.tileWidth == col * shape.tileWidth + shape.tileWidth;
    assert (row + 1) * shape.tileHeight == row * shape.tileHeight + shape.tileHeight;
  }

  /** Two different positions of the grid hold tiles that do not cross, in
      row-major order. */
  lemma TilesOfDisjoint(shape: GridShape, i: int, j: int)
    requires shape.Valid() && 0 <= i < j < shape.Columns() * shape.Rows()
    ensures !CrossWith(shape.TileOf(i).srcRect, shape.TileOf(j).srcRect)
    ensures RowMajorBefore(shape.TileOf(i).srcRect, shape.TileOf(j).srcRect)
  {
    var cols := shape.Columns();
    IndexOrder(i, j, cols);
    var ri, ci, rj, cj := i / cols, i % cols, j / cols, j % cols;
    TileOfInRange(shape, i);
    TileOfInRange(shape, j);
    if ri == rj {
      MulMonotone(ci + 1, cj, shape.tileWidth);
      assert (ci + 1) * shape.tileWidth == ci * shape.tileWidth + shape.tileWidth;
    } else {
      MulMonotone(ri + 1, rj, shape.tileHeight);
      assert (ri + 1) * shape.tileHeight == ri * shape.tileHeight + shape.tileHeight;
    }
  }

  /** The pixel `(x, y)` lies in the tile at row `y / tileHeight`, column
      `x / tileWidth`. */
  lemma PixelCovered(shape: GridShape, x: int, y: int)
    requires shape.Valid() && 0 <= x < shape.width && 0 <= y < shape.height
    ensures var i := (y / shape.tileHeight) * shape.Columns() + x / shape.tileWidth;
      0 <= i < shape.Columns() * shape.Rows() && shape.TileOf(i).srcRect.Contains(x, y)
  {
    var cols, rows := shape.Columns(), shape.Rows();
    var c, r := x / shape.tileWidth, y / shape.tileHeight;
    DivBounds(x, shape.tileWidth);
    DivBounds(y, shape.tileHeight);
    StartsInside(c, shape.width, shape.tileWidth);
    StartsInside(r, shape.height, shape.tileHeight);
    GridStep(shape, r, c);
    LastIndex(r, c, rows, cols);
    var i := r * cols + c;
    assert i < cols * rows by {
      MulMonotone(r + 1, rows, cols);
    }
  }

  /** The last position holds the bottom-right tile, which ends at the image corner. */
  lemma LastTileAtCorner(shape: GridShape)
    requires shape.Valid()
    ensures var n := shape.Columns() * shape.Rows();
      n >= 1 && shape.TileOf(n - 1).srcRect.right == shape.width
      && shape.TileOf(n - 1).srcRect.bottom == shape.height
  {
    var cols, rows := shape.Columns(), shape.Rows();
    MulMonotone(1, rows, cols);
    assert cols * rows - 1 == (rows - 1) * cols + (cols - 1);
    RowMajorIndex(rows - 1, cols - 1, cols);
  }

  /** A grid is a tiling of the image. */
  lemma {:induction false} GridIsTiling(shape: GridShape, tiles: seq<Tile>)
    requires shape.Valid() && IsGrid(shape, tiles)
    ensures IsTiling(tiles, IntSize(shape.width, shape.height), shape.sampleSize)
  {
    var imageSize := IntSize(shape.width, shape.height);
    LastTileAtCorner(shape);
    forall i | 0 <= i < |tiles|
      ensures var r := tiles[i].srcRect;
        tiles[i].sampleSize == shape.sampleSize
        && 0 <= r.left < r.right <= imageSize.width && 0 <= r.top < r.bottom <= imageSize.height
    {
      TileOfInRange(shape, i);
    }
    forall i, j | 0 <= i < j < |tiles|
      ensures !CrossWith(tiles[i].srcRect, tiles[j].srcRect) && RowMajorBefore(tiles[i].srcRect, tiles[j].srcRect)
    {
      TilesOfDisjoint(shape, i, j);
    }
    forall x, y | 0 <= x < imageSize.width && 0 <= y < imageSize.height
      ensures Covered(tiles, x, y)
    {
      PixelCovered(shape, x, y);
      var i := (y / shape.tileHeight) * shape.Columns() + x / shape.tileWidth;
      assert tiles[i].srcRect.Contains(x, y);
    }
  }

  /** When `ceil(tileWidth / sampleSize)` and `ceil(tileHeight / sampleSize)` fit the
      maximum tile size, so does every tile of the grid. */
  lemma {:induction false} GridFitsTileMaxSize(shape: GridShape, tiles: seq<Tile>, tileMaxSize: IntSize)
    requires shape.Valid() && IsGrid(shape, tiles) && shape.sampleSize > 0
    requires CeilDiv(shape.tileWidth, shape.sampleSize) <= tileMaxSize.width
    requires CeilDiv(shape.tileHeight, shape.sampleSize) <= tileMaxSize.height
    ensures FitsTileMaxSize(tiles, tileMaxSize)
  {
    forall i | 0 <= i < |tiles|
      ensures var r := tiles[i].srcRect;
        r.left < r.right && r.top < r.bottom && tiles[i].sampleSize > 0
        && CeilDiv(r.Width(), tiles[i].sampleSize) <= tileMaxSize.width
        && CeilDiv(r.Height(), tiles[i].sampleSize) <= tileMaxSize.height
    {
      TileOfInRange(shape, i);
      var r := tiles[i].srcRect;
      CeilDivMonotone(r.Width(), shape.tileWidth, shape.sampleSize);
      CeilDivMonotone(r.Height(), shape.tileHeight, shape.sampleSize);
    }
  }

  // ---------------------------------------------------------------------------
  // initializeTileMap

  /** `count` tiles along an extent fit when a tile of `ceil(extent / count)` source
      pixels, decoded at `sampleSize`, is at most `maxTileExtent` pixels. */
  ghost predicate CountFits(extent: int, maxTileExtent: int, sampleSize: int, count: int) {
    extent > 0 && sampleSize > 0 && count >= 1
    && CeilDiv(CeilDiv(extent, count), sampleSize) <= maxTileExtent
  }

  /** The least fitting count from `from` upwards, trying one count after another;
      `extent` tiles of one pixel always fit. */
  ghost function LeastFitFrom(extent: int, maxTileExtent: int, sampleSize: int, from: int): (count: int)
    requires extent > 0 && sampleSize > 0 && 1 <= from <= extent
    ensures from <= count <= extent
    decreases extent - from
  {
    if from == extent || CountFits(extent, maxTileExtent, sampleSize, from) then from
    else LeastFitFrom(extent, maxTileExtent, sampleSize, from + 1)
  }

  /** The least number of tiles along an extent that fits: the reference for the
      `do ... while` loops of `initializeTileMap`. */
  ghost function LeastFit(extent: int, maxTileExtent: int, sampleSize: int): (count: int)
    requires extent > 0 && sampleSize > 0
    ensures 1 <= count <= extent
  {
    LeastFitFrom(extent, maxTileExtent, sampleSize, 1)
  }

  /** `count` is the least fitting count. */
  ghost predicate IsLeastFit(extent: int, maxTileExtent: int, sampleSize: int, count: int) {
    CountFits(extent, maxTileExtent, sampleSize, count)
    && forall k :: 1 <= k < count ==> !CountFits(extent, maxTileExtent, sampleSize, k)
  }

  /** The search from `from` finds the least fitting count when nothing below `from`
      fits. */
  lemma {:induction false} LeastFitFromIsLeast(extent: int, maxTileExtent: int, sampleSize: int, from: int)
    requires extent > 0 && maxTileExtent > 0 && sampleSize > 0 && 1 <= from <= extent
    requires forall k :: 1 <= k < from ==> !CountFits(extent, maxTileExtent, sampleSize, k)
    ensures IsLeastFit(extent, maxTileExtent, sampleSize, LeastFitFrom(extent, maxTileExtent, sampleSize, from))
    decreases extent - from
  {
    if from == extent {
      CeilDivSmall(extent, extent);
      CeilDivSmall(1, sampleSize);
    } else if !CountFits(extent, maxTileExtent, sampleSize, from) {
      LeastFitFromIsLeast(extent, maxTileExtent, sampleSize, from + 1);
    }
  }

  /** There is one least fitting count, and `LeastFit` is it. */
  lemma LeastFitIsUnique(extent: int, maxTileExtent: int, sampleSize: int, count: int)
    requires extent > 0 && maxTileExtent > 0 && sampleSize > 0
    ensures IsLeastFit(extent, maxTileExtent, sampleSize, LeastFit(extent, maxTileExtent, sampleSize))
    ensures IsLeastFit(extent, maxTileExtent, sampleSize, count) <==> count == LeastFit(extent, maxTileExtent, sampleSize)
  {
    LeastFitFromIsLeast(extent, maxTileExtent, sampleSize, 1);
  }

  /** One pass of the two `do ... while` loops splits an extent into a single tile
      exactly when one tile fits, i.e. when `ceil(extent / sampleSize)` is within the
      maximum; with more tiles the row loop emits more than one column. */
  lemma {:induction false} OneTileIffFits(extent: int, maxTileExtent: int, sampleSize: int, count: int)
    requires extent > 0 && maxTileExtent > 0 && sampleSize > 0
    requires IsLeastFit(extent, maxTileExtent, sampleSize, count) && count <= extent
    ensures CeilDiv(extent, CeilDiv(extent, count)) == 1 <==> CeilDiv(extent, sampleSize) <= maxTileExtent
  {
    CeilDivSmall(extent, sampleSize);
    var t := CeilDiv(extent, count);
    if count == 1 {
      assert t == extent;
      CeilDivSmall(extent, extent);
    } else {
      assert !CountFits(extent, maxTileExtent, sampleSize, 1);
      CeilDivShrinks(extent, count);
    }
  }

  /** Two or more tiles along an extent are each shorter than the extent. */
  lemma CeilDivShrinks(extent: int, count: int)
    requires 2 <= count <= extent
    ensures CeilDiv(extent, count) < extent
  {
    MulMonotone(2, count, CeilDiv(extent, count) - 1);
  }

  /** One of the two `do ... while` loops of `initializeTileMap`: the least number of
      tiles `count` along an extent such that a tile of `ceil(extent / count)` source
      pixels, decoded at `sampleSize`, is at most `maxTileExtent` pixels. */
  method SplitExtent(extent: int, maxTileExtent: int, sampleSize: int) returns (count: int, sourceTileExtent: int)
    requires extent > 0 && maxTileExtent > 0 && sampleSize > 0
    ensures 1 <= count <= extent
    ensures sourceTileExtent == CeilDiv(extent, count)
    ensures CeilDiv(sourceTileExtent, sampleSize) <= maxTileExtent
    ensures forall k :: 1 <= k < count ==> CeilDiv(CeilDiv(extent, k), sampleSize) > maxTileExtent
    ensures count == LeastFit(extent, maxTileExtent, sampleSize)
  {
    count := 0;
    sourceTileExtent := 0;
    while true
      invariant 0 <= count < extent
      invariant forall k :: 1 <= k <= count ==> CeilDiv(CeilDiv(extent, k), sampleSize) > maxTileExtent
      decreases extent - count
    {
      count := count + 1;
      sourceTileExtent := CeilDiv(extent, count);
      var sampleTileExtent := CeilDiv(sourceTileExtent, sampleSize);
      if sampleTileExtent <= maxTileExtent {
        break;
      }
      CeilDivSmall(extent, sampleSize);
      CeilDivSmall(1, sampleSize);
    }
    LeastFitIsUnique(extent, maxTileExtent, sampleSize, count);
  }

  /** Once the sample size reaches both image dimensions, the level is one tile: the
      first tile count tried along each axis already fits. */
  lemma {:induction false} LargeSampleSizeGivesOneTile(imageSize: IntSize, tileMaxSize: IntSize, sampleSize: int,
                                                      xTiles: int, sourceTileWidth: int,
                                                      yTiles: int, sourceTileHeight: int)
    requires imageSize.width > 0 && imageSize.height > 0 && tileMaxSize.width > 0 && tileMaxSize.height > 0
    requires sampleSize >= imageSize.width && sampleSize >= imageSize.height
    requires 1 <= xTiles && sourceTileWidth == CeilDiv(imageSize.width, xTiles)
    requires forall k :: 1 <= k < xTiles ==> CeilDiv(CeilDiv(imageSize.width, k), sampleSize) > tileMaxSize.width
    requires 1 <= yTiles && sourceTileHeight == CeilDiv(imageSize.height, yTiles)
    requires forall k :: 1 <= k < yTiles ==> CeilDiv(CeilDiv(imageSize.height, k), sampleSize) > tileMaxSize.height
    ensures var shape := GridShape(imageSize.width, imageSize.height, sourceTileWidth, sourceTileHeight, sampleSize);
      shape.Valid() && shape.Columns() * shape.Rows() == 1
  {
    CeilDivSmall(imageSize.width, sampleSize);
    CeilDivSmall(imageSize.height, sampleSize);
  }

  /** The sample sizes `1, 2, 4, ..., 2^(n-1)`. */
  function SampleSizesBelow(n: nat): set<int> {
    set j: nat | j < n :: Pow2(j)
  }

  /** Powers of two grow strictly: a higher exponent gives at least twice the value. */
  lemma {:induction false} Pow2Grows(a: nat, b: nat)
    requires a < b
    ensures 2 * Pow2(a) <= Pow2(b)
    decreases b
  {
    if a + 1 < b {
      Pow2Grows(a, b - 1);
    }
  }

  /** The grid `initializeTileMap` lays out at sample size `s`: the least fitting
      number of tiles along each axis, each tile `ceil(extent / count)` source pixels. */
  ghost function SourceGrid(imageSize: IntSize, tileMaxSize: IntSize, s: int): (shape: GridShape)
    requires imageSize.width > 0 && imageSize.height > 0 && s > 0
    ensures shape.Valid()
  {
    var w, h := imageSize.width, imageSize.height;
    GridShape(w, h, CeilDiv(w, LeastFit(w, tileMaxSize.width, s)), CeilDiv(h, LeastFit(h, tileMaxSize.height, s)), s)
  }

  /** The whole image, decoded at sample size `s`, fits the maximum tile size. */
  ghost predicate SingleTileFits(imageSize: IntSize, tileMaxSize: IntSize, s: int) {
    imageSize.width > 0 && imageSize.height > 0 && s > 0
    && CeilDiv(imageSize.width, s) <= tileMaxSize.width && CeilDiv(imageSize.height, s) <= tileMaxSize.height
  }

  /** One level of the map: the source's grid at sample size `s`, which tiles the
      image, each tile fitting the maximum tile size. */
  ghost predicate IsLevel(tiles: seq<Tile>, imageSize: IntSize, tileMaxSize: IntSize, s: int) {
    imageSize.width > 0 && imageSize.height > 0 && s > 0
    && IsGrid(SourceGrid(imageSize, tileMaxSize, s), tiles)
    && IsTiling(tiles, imageSize, s) && FitsTileMaxSize(tiles, tileMaxSize)
  }

  /** The map holds levels for exactly the sample sizes `1, ..., 2^(n-1)`, every one
      of them with more than one tile. */
  ghost predicate LevelsBelow(tileMap: map<int, seq<Tile>>, n: nat, imageSize: IntSize, tileMaxSize: IntSize) {
    tileMap.Keys == SampleSizesBelow(n)
    && forall j: nat :: j < n ==>
         |tileMap[Pow2(j)]| > 1 && IsLevel(tileMap[Pow2(j)], imageSize, tileMaxSize, Pow2(j))
  }

  /** Storing the level for `2^n` extends the map by one key and keeps the earlier
      levels. */
  lemma {:induction false} AddLevel(tileMap: map<int, seq<Tile>>, n: nat, tiles: seq<Tile>,
                                    imageSize: IntSize, tileMaxSize: IntSize)
    requires LevelsBelow(tileMap, n, imageSize, tileMaxSize)
    requires IsLevel(tiles, imageSize, tileMaxSize, Pow2(n))
    ensures var next := tileMap[Pow2(n) := tiles];
      next.Keys == SampleSizesBelow(n + 1)
      && next[Pow2(n)] == tiles
      && (forall j: nat :: j < n ==> next[Pow2(j)] == tileMap[Pow2(j)])
      && (|tiles| > 1 ==> LevelsBelow(next, n + 1, imageSize, tileMaxSize))
  {
    AddKey(tileMap, n, tiles);
    if |tiles| > 1 {
      LevelsGrow(tileMap, n, tiles, imageSize, tileMaxSize);
    }
  }

  /** Storing under `2^n` adds that key and leaves the lower ones alone. */
  lemma AddKey(tileMap: map<int, seq<Tile>>, n: nat, tiles: seq<Tile>)
    requires tileMap.Keys == SampleSizesBelow(n)
    ensures var next := tileMap[Pow2(n) := tiles];
      next.Keys == SampleSizesBelow(n + 1)
      && (forall j: nat :: j < n ==> next[Pow2(j)] == tileMap[Pow2(j)])
  {
    KeepsLowerLevels(tileMap, n, tiles);
    assert SampleSizesBelow(n + 1) == SampleSizesBelow(n) + {Pow2(n)};
  }

  /** A level with more than one tile extends the levels below `2^n` by one. */
  lemma LevelsGrow(tileMap: map<int, seq<Tile>>, n: nat, tiles: seq<Tile>,
                   imageSize: IntSize, tileMaxSize: IntSize)
    requires LevelsBelow(tileMap, n, imageSize, tileMaxSize)
    requires IsLevel(tiles, imageSize, tileMaxSize, Pow2(n)) && |tiles| > 1
    ensures LevelsBelow(tileMap[Pow2(n) := tiles], n + 1, imageSize, tileMaxSize)
  {
    var next := tileMap[Pow2(n) := tiles];
    AddKey(tileMap, n, tiles);
    forall j: nat | j < n + 1
      ensures |next[Pow2(j)]| > 1 && IsLevel(next[Pow2(j)], imageSize, tileMaxSize, Pow2(j))
    {
      if j < n {
        assert next[Pow2(j)] == tileMap[Pow2(j)];
      }
    }
  }

  /** The key `2^n` differs from every `2^j` with `j < n`. */
  lemma KeepsLowerLevels(tileMap: map<int, seq<Tile>>, n: nat, tiles: seq<Tile>)
    ensures forall j: nat :: j < n ==> Pow2(j) != Pow2(n)
  {
    forall j: nat | j < n
      ensures Pow2(j) != Pow2(n)
    {
      Pow2Grows(j, n);
    }
  }

  /** What `initializeTileMap` returns: levels for exactly the sample sizes
      `1, 2, ..., 2^n`, each a tiling of the image whose tiles fit the maximum tile
      size once sampled, with a single tile at `2^n` and more than one below it. */
  ghost predicate IsTileMap(tileMap: map<int, seq<Tile>>, n: nat, imageSize: IntSize, tileMaxSize: IntSize) {
    tileMap.Keys == SampleSizesBelow(n + 1)
    && |tileMap[Pow2(n)]| == 1
    && (forall j: nat :: j < n ==> |tileMap[Pow2(j)]| > 1)
    && (forall j: nat :: j <= n ==> IsLevel(tileMap[Pow2(j)], imageSize, tileMaxSize, Pow2(j)))
  }

  /** A final single-tile level for `2^n` completes the map. */
  lemma {:induction false} FinishLevels(tileMap: map<int, seq<Tile>>, n: nat, tiles: seq<Tile>,
                                        last: map<int, seq<Tile>>, imageSize: IntSize, tileMaxSize: IntSize)
    requires LevelsBelow(tileMap, n, imageSize, tileMaxSize)
    requires IsLevel(tiles, imageSize, tileMaxSize, Pow2(n)) && |tiles| == 1
    requires last == tileMap[Pow2(n) := tiles]
    ensures IsTileMap(last, n, imageSize, tileMaxSize)
  {
    AddLevel(tileMap, n, tiles, imageSize, tileMaxSize);
  }

  /** `initializeTileMap(imageSize, tileMaxSize)`: for sample sizes `1, 2, 4, ...`,
      split the image into the fewest columns and rows whose tiles fit `tileMaxSize`
      once sampled, store the row-major tile list under the sample size, and stop at
      the first sample size whose list holds a single tile. The result's keys are
      `1, 2, ..., 2^levels`; only the last maps to one tile. */
  method InitializeTileMap(imageSize: IntSize, tileMaxSize: IntSize)
    returns (tileMap: map<int, seq<Tile>>, levels: nat)
    requires imageSize.width > 0 && imageSize.height > 0
    requires tileMaxSize.width > 0 && tileMaxSize.height > 0
    ensures IsTileMap(tileMap, levels, imageSize, tileMaxSize)
    ensures SingleTileFits(imageSize, tileMaxSize, Pow2(levels))
    ensures forall j: nat :: j < levels ==> !SingleTileFits(imageSize, tileMaxSize, Pow2(j))
  {
    var w, h := imageSize.width, imageSize.height;
    tileMap := map[];
    var sampleSize := 1;
    levels := 0;
    while true
      invariant sampleSize == Pow2(levels) && sampleSize < 2 * Max(w, h)
      invariant LevelsBelow(tileMap, levels, imageSize, tileMaxSize)
      invariant forall j: nat :: j < levels ==> !SingleTileFits(imageSize, tileMaxSize, Pow2(j))
      decreases 2 * Max(w, h) - sampleSize
    {
      var tileList := BuildLevel(imageSize, tileMaxSize, sampleSize);
      if |tileList| == 1 {
        ghost var previous := tileMap;
        tileMap := tileMap[sampleSize := tileList];
        FinishLevels(previous, levels, tileList, tileMap, imageSize, tileMaxSize);
        break;
      }
      AddLevel(tileMap, levels, tileList, imageSize, tileMaxSize);
      tileMap := tileMap[sampleSize := tileList];
      sampleSize := sampleSize * 2;
      levels := levels + 1;
    }
  }

  /** One pass of the outer loop of `initializeTileMap`: the column and row counts,
      then the row-major tile list, for one sample size. Once the sample size reaches
      both image dimensions the list is a single tile. */
  method BuildLevel(imageSize: IntSize, tileMaxSize: IntSize, sampleSize: int) returns (tileList: seq<Tile>)
    requires imageSize.width > 0 && imageSize.height > 0
    requires tileMaxSize.width > 0 && tileMaxSize.height > 0 && sampleSize > 0
    ensures IsLevel(tileList, imageSize, tileMaxSize, sampleSize)
    ensures IsGrid(SourceGrid(imageSize, tileMaxSize, sampleSize), tileList)
    ensures |tileList| == 1 <==> SingleTileFits(imageSize, tileMaxSize, sampleSize)
    ensures sampleSize >= imageSize.width && sampleSize >= imageSize.height ==> |tileList| == 1
  {
    var w, h := imageSize.width, imageSize.height;
    var xTiles, sourceTileWidth := SplitExtent(w, tileMaxSize.width, sampleSize);
    var yTiles, sourceTileHeight := SplitExtent(h, tileMaxSize.height, sampleSize);
    var shape := GridShape(w, h, sourceTileWidth, sourceTileHeight, sampleSize);
    tileList := BuildTiles(shape);
    GridIsTiling(shape, tileList);
    GridFitsTileMaxSize(shape, tileList, tileMaxSize);
    OneTileIffFits(w, tileMaxSize.width, sampleSize, xTiles);
    OneTileIffFits(h, tileMaxSize.height, sampleSize, yTiles);
    if shape.Columns() > 1 || shape.Rows() > 1 {
      MulMonotone(1, shape.Columns(), shape.Rows());
      MulMonotone(1, shape.Rows(), shape.Columns());
    }
    if sampleSize >= w && sampleSize >= h {
      LargeSampleSizeGivesOneTile(imageSize, tileMaxSize, sampleSize, xTiles, sourceTileWidth,
                                  yTiles, sourceTileHeight);
    }
  }

  // ---------------------------------------------------------------------------
  // findSampleSize

  /** `s` is the sample size for `scaledWidthRatio`: the largest power of two that is
      at most the ratio, or 1 when the ratio is below 2. */
  ghost predicate IsSampleSizeFor(s: int, scaledWidthRatio: real) {
    IsPowerOfTwo(s) && (2 * s) as real > scaledWidthRatio && (s == 1 || s as real <= scaledWidthRatio)
  }

  /** `imageWidth / (drawableWidth * scale)`, the ratio `findSampleSize` works from,
      on real numbers. */
  function ScaledWidthRatio(imageWidth: int, drawableWidth: int, scale: real): real
    requires drawableWidth > 0 && scale > 0.0
  {
    imageWidth as real / (drawableWidth as real * scale)
  }

  /** The message of the aspect-ratio `require` of `findSampleSize`. */
  function AspectRatioMessage(imageWidth: int, imageHeight: int, drawableWidth: int, drawableHeight: int): string {
    "imageSize(" + IntToString(imageWidth) + "x" + IntToString(imageHeight)
    + ") and drawableSize(" + IntToString(drawableWidth) + "x" + IntToString(drawableHeight)
    + ") must have the same aspect ratio"
  }

  /** `findSampleSize`: fails the `require` when `canUseSubsampling` (the aspect-ratio
      check, passed in as its result) is false; otherwise doubles the sample size
      from 1 while the ratio is at least twice the current size. */
  method FindSampleSize(imageWidth: int, imageHeight: int, drawableWidth: int, drawableHeight: int,
                        scaledWidthRatio: real, canUseSubsampling: bool) returns (r: Result<int>)
    ensures r.Failure? <==> !canUseSubsampling
    ensures r.Failure? ==> r.error == AspectRatioMessage(imageWidth, imageHeight, drawableWidth, drawableHeight)
    ensures r.Success? ==> IsSampleSizeFor(r.value, scaledWidthRatio)
    ensures r.Success? && scaledWidthRatio < 2.0 ==> r.value == 1
  {
    if !canUseSubsampling {
      return Failure(AspectRatioMessage(imageWidth, imageHeight, drawableWidth, drawableHeight));
    }
    var sampleSize := 1;
    ghost var k: nat := 0;
    while scaledWidthRatio >= (sampleSize * 2) as real
      invariant sampleSize == Pow2(k)
      invariant sampleSize == 1 || sampleSize as real <= scaledWidthRatio
      decreases scaledWidthRatio.Floor - sampleSize
    {
      sampleSize := sampleSize * 2;
      k := k + 1;
    }
    return Success(sampleSize);
  }

  /** A larger ratio never gives a smaller sample size; in particular the sample size
      for a ratio is unique. */
  lemma SampleSizeMonotone(s1: int, ratio1: real, s2: int, ratio2: real)
    requires IsSampleSizeFor(s1, ratio1) && IsSampleSizeFor(s2, ratio2)
    requires ratio1 <= ratio2
    ensures s1 <= s2
  {
    if s1 > s2 {
      var a: nat :| Pow2(a) == s2;
      var b: nat :| Pow2(b) == s1;
      if b <= a {
        Pow2NonDecreasing(b, a);
      }
      Pow2Grows(a, b);
    }
  }

  /** A non-negative numerator divided by a larger positive divisor gives less. */
  lemma DividingByMoreGivesLess(x: real, d1: real, d2: real)
    requires x >= 0.0 && 0.0 < d1 <= d2
    ensures x / d2 <= x / d1
  {
    var a, b := x / d1, x / d2;
    assert a * d1 == x && b * d2 == x;
    assert a >= 0.0;
    assert a * d2 >= a * d1;
  }

  lemma {:induction false} Pow2NonDecreasing(a: nat, b: nat)
    requires a <= b
    ensures Pow2(a) <= Pow2(b)
  {
    if a < b {
      Pow2Grows(a, b);
    }
  }

  /** The sample size for a ratio is unique, and zooming in (a larger `scale`) never
      increases it. */
  lemma SampleSizeNonIncreasingInScale(imageWidth: int, drawableWidth: int, scale1: real, scale2: real,
                                       s1: int, s2: int)
    requires imageWidth >= 0 && drawableWidth > 0 && 0.0 < scale1 <= scale2
    requires IsSampleSizeFor(s1, ScaledWidthRatio(imageWidth, drawableWidth, scale1))
    requires IsSampleSizeFor(s2, ScaledWidthRatio(imageWidth, drawableWidth, scale2))
    ensures s2 <= s1
    ensures scale1 == scale2 ==> s1 == s2
  {
    var d1 := drawableWidth as real * scale1;
    var d2 := drawableWidth as real * scale2;
    DividingByMoreGivesLess(imageWidth as real, d1, d2);
    SampleSizeMonotone(s2, ScaledWidthRatio(imageWidth, drawableWidth, scale2),
                       s1, ScaledWidthRatio(imageWidth, drawableWidth, scale1));
    if scale1 == scale2 {
      SampleSizeMonotone(s1, ScaledWidthRatio(imageWidth, drawableWidth, scale1),
                         s2, ScaledWidthRatio(imageWidth, drawableWidth, scale2));
    }
  }
}
