/**
 The tile grid partitions the frame: comparing tile by tile counts every changed pixel of the frame
 exactly once.
 */
module GridProperties {
  import opened Common
  import opened Regions
  import opened PixelDiff
  import opened TileGrid

  /** The new frame has `height` rows, and the reference holds at least as much. */
  predicate WholeFrames(cmp: Comparison, height: nat) {
    |cmp.prev| >= |cmp.curr| == 4 * (cmp.width * height)
  }

  lemma RowIsHeld(cmp: Comparison, height: nat, x: nat, y: nat)
    requires WholeFrames(cmp, height) && x <= cmp.width && y < height
    ensures cmp.Holds(y * cmp.width + x)
  {
    MulMonotone(y + 1, height, cmp.width);
  }

  /** One more pixel in a row of a rectangle. */
  lemma {:induction false} NextPixel(cmp: Comparison, x: nat, y: nat, n: nat)
    requires x + n < cmp.width && cmp.Holds(y * cmp.width + (x + n) + 1)
    ensures |cmp.ChangedIn(Region(x, y, n + 1, 1))| == |cmp.ChangedIn(Region(x, y, n, 1))|
              + (if Differs(cmp.prev, cmp.curr, cmp.threshold, y * cmp.width + (x + n)) then 1 else 0)
  {
    var f := (px, py) => cmp.Changed(px, py);
    SelectSideBySide(f, Region(x, y, n + 1, 1), Region(x, y, n, 1), Region(x + n, y, 1, 1));
    SelectOne(f, x + n, y);
  }

  lemma {:induction false} RowCountFrom(cmp: Comparison, x: nat, y: nat, n: nat, lo: nat)
    requires x + n <= cmp.width && lo == y * cmp.width + x && cmp.Holds(lo + n)
    ensures CountDiffs(cmp.prev, cmp.curr, cmp.threshold, lo, lo + n) == |cmp.ChangedIn(Region(x, y, n, 1))|
    decreases n
  {
    if n == 0 {
      SelectEmpty((px, py) => cmp.Changed(px, py), Region(x, y, 0, 1));
    } else {
      RowCountFrom(cmp, x, y, n - 1, lo);
      assert y * cmp.width + (x + n - 1) == lo + n - 1;
      NextPixel(cmp, x, y, n - 1);
    }
  }

  lemma RowDiffCounts(cmp: Comparison, height: nat, x: nat, y: nat, n: nat)
    requires WholeFrames(cmp, height) && x + n <= cmp.width && y < height
    ensures cmp.RowDiff(x, y, n) == |cmp.ChangedIn(Region(x, y, n, 1))|
  {
    RowIsHeld(cmp, height, x + n, y);
    RowCountFrom(cmp, x, y, n, y * cmp.width + x);
  }

  /** `compare_tile` counts exactly the changed pixels of its rectangle. */
  lemma {:induction false} RectDiffCounts(cmp: Comparison, height: nat, r: Region)
    requires WholeFrames(cmp, height) && r.Within(FullFrame(cmp.width, height))
    ensures cmp.RectDiff(r) == |cmp.ChangedIn(r)|
    decreases r.height
  {
    if r.height == 0 {
      SelectEmpty((px, py) => cmp.Changed(px, py), r);
    } else {
      var above := r.(height := r.height - 1);
      RectDiffCounts(cmp, height, above);
      RowDiffCounts(cmp, height, r.x, above.Bottom(), r.width);
      SelectStacked((px, py) => cmp.Changed(px, py), r, above, Region(r.x, above.Bottom(), r.width, 1));
    }
  }

  lemma {:induction false} FrameDiffIsScalarCount(cmp: Comparison, height: nat, n: nat)
    requires WholeFrames(cmp, height) && n <= height
    ensures n * cmp.width >= 0 && cmp.Holds(n * cmp.width)
    ensures cmp.RectDiff(FullFrame(cmp.width, n)) == CountDiffs(cmp.prev, cmp.curr, cmp.threshold, 0, n * cmp.width)
    decreases n
  {
    MulMonotone(n, height, cmp.width);
    if n > 0 {
      FrameDiffIsScalarCount(cmp, height, n - 1);
      RowIsHeld(cmp, height, cmp.width, n - 1);
      assert n * cmp.width == (n - 1) * cmp.width + cmp.width;
      CountIsAdditive(cmp.prev, cmp.curr, cmp.threshold, 0, (n - 1) * cmp.width, n * cmp.width);
      assert FullFrame(cmp.width, n).(height := n - 1) == FullFrame(cmp.width, n - 1);
    }
  }

  // ---------------------------------------------------------------- the partition

  /** The comparisons of the first `n` tiles of tile row `ty`, added up. */
  function TileRowDiff(cmp: Comparison, ty: nat, n: nat, tileSize: nat, height: nat): nat {
    if n == 0 then 0
    else TileRowDiff(cmp, ty, n - 1, tileSize, height)
         + cmp.RectDiff(TileRegion(n - 1, ty, tileSize, cmp.width, height))
  }

  /** The comparisons of all tiles of the first `m` tile rows, added up. */
  function GridDiff(cmp: Comparison, m: nat, tilesX: nat, tileSize: nat, height: nat): nat {
    if m == 0 then 0
    else GridDiff(cmp, m - 1, tilesX, tileSize, height) + TileRowDiff(cmp, m - 1, tilesX, tileSize, height)
  }

  /** The strip of the frame covered by the first `n` tiles of tile row `ty`. */
  function Strip(ty: nat, n: nat, tileSize: nat, width: nat, height: nat): Region {
    TileRegion(0, ty, tileSize, width, height).(width := Min(n * tileSize, width))
  }

  lemma NextStrip(f: (int, int) -> bool, ty: nat, n: nat, tileSize: nat, width: nat, height: nat)
    ensures |Select(f, Strip(ty, n + 1, tileSize, width, height))|
         == |Select(f, Strip(ty, n, tileSize, width, height))| + |Select(f, TileRegion(n, ty, tileSize, width, height))|
  {
    var next, strip := Strip(ty, n + 1, tileSize, width, height), Strip(ty, n, tileSize, width, height);
    var tile := TileRegion(n, ty, tileSize, width, height);
    assert (n + 1) * tileSize == n * tileSize + tileSize;
    if n * tileSize <= width {
      SelectSideBySide(f, next, strip, tile);
    } else {
      SelectEmpty(f, tile);
      assert next == strip;
    }
  }

  /** An empty rectangle counts nothing, wherever it is. */
  lemma {:induction false} EmptyRectDiff(cmp: Comparison, r: Region)
    requires !NonEmpty(r)
    ensures cmp.RectDiff(r) == 0 && cmp.ChangedIn(r) == {}
    decreases r.height
  {
    SelectEmpty((px, py) => cmp.Changed(px, py), r);
    if r.height > 0 {
      EmptyRectDiff(cmp, r.(height := r.height - 1));
    }
  }

  lemma TileDiffCounts(cmp: Comparison, height: nat, tx: nat, ty: nat, tileSize: nat)
    requires WholeFrames(cmp, height)
    ensures cmp.RectDiff(TileRegion(tx, ty, tileSize, cmp.width, height))
         == |cmp.ChangedIn(TileRegion(tx, ty, tileSize, cmp.width, height))|
  {
    var r := TileRegion(tx, ty, tileSize, cmp.width, height);
    if NonEmpty(r) {
      TileWithinFrame(tx, ty, tileSize, cmp.width, height);
      RectDiffCounts(cmp, height, r);
    } else {
      EmptyRectDiff(cmp, r);
    }
  }

  lemma {:induction false} NextStripChanged(cmp: Comparison, ty: nat, n: nat, tileSize: nat, height: nat)
    ensures |cmp.ChangedIn(Strip(ty, n + 1, tileSize, cmp.width, height))|
         == |cmp.ChangedIn(Strip(ty, n, tileSize, cmp.width, height))|
            + |cmp.ChangedIn(TileRegion(n, ty, tileSize, cmp.width, height))|
  {
    NextStrip((px, py) => cmp.Changed(px, py), ty, n, tileSize, cmp.width, height);
  }

  lemma {:induction false} NextTile(cmp: Comparison, height: nat, ty: nat, n: nat, tileSize: nat)
    requires WholeFrames(cmp, height)
    requires TileRowDiff(cmp, ty, n, tileSize, height) == |cmp.ChangedIn(Strip(ty, n, tileSize, cmp.width, height))|
    ensures TileRowDiff(cmp, ty, n + 1, tileSize, height) == |cmp.ChangedIn(Strip(ty, n + 1, tileSize, cmp.width, height))|
  {
    TileDiffCounts(cmp, height, n, ty, tileSize);
    NextStripChanged(cmp, ty, n, tileSize, height);
  }

  lemma {:induction false} TileRowDiffCounts(cmp: Comparison, height: nat, ty: nat, n: nat, tileSize: nat)
    requires WholeFrames(cmp, height)
    ensures TileRowDiff(cmp, ty, n, tileSize, height) == |cmp.ChangedIn(Strip(ty, n, tileSize, cmp.width, height))|
    decreases n
  {
    if n == 0 {
      EmptyRectDiff(cmp, Strip(ty, 0, tileSize, cmp.width, height));
    } else {
      TileRowDiffCounts(cmp, height, ty, n - 1, tileSize);
      NextTile(cmp, height, ty, n - 1, tileSize);
    }
  }

  lemma NextTileRow(cmp: Comparison, m: nat, tileSize: nat, height: nat, top: Region, strip: Region, next: Region)
    requires top == FullFrame(cmp.width, Min(m * tileSize, height))
    requires next == FullFrame(cmp.width, Min((m + 1) * tileSize, height))
    requires strip == Region(0, m * tileSize, cmp.width, Min(tileSize, SaturatingSub(height, m * tileSize)))
    ensures |cmp.ChangedIn(next)| == |cmp.ChangedIn(top)| + |cmp.ChangedIn(strip)|
  {
    assert (m + 1) * tileSize == m * tileSize + tileSize;
    var f := (px, py) => cmp.Changed(px, py);
    if m * tileSize <= height {
      SelectStacked(f, next, top, strip);
    } else {
      SelectEmpty(f, strip);
    }
  }

  lemma CeilCovers(n: nat, d: nat)
    requires d > 0
    ensures n <= DivCeil(n, d) * d
  {
    CeilIsLeastCover(n, d, DivCeil(n, d));
  }

  lemma {:induction false} NextGridRow(cmp: Comparison, height: nat, m: nat, tilesX: nat, tileSize: nat)
    requires WholeFrames(cmp, height) && cmp.width <= tilesX * tileSize
    requires GridDiff(cmp, m, tilesX, tileSize, height)
          == |cmp.ChangedIn(FullFrame(cmp.width, Min(m * tileSize, height)))|
    ensures GridDiff(cmp, m + 1, tilesX, tileSize, height)
         == |cmp.ChangedIn(FullFrame(cmp.width, Min((m + 1) * tileSize, height)))|
  {
    TileRowDiffCounts(cmp, height, m, tilesX, tileSize);
    NextTileRow(cmp, m, tileSize, height, FullFrame(cmp.width, Min(m * tileSize, height)),
                Strip(m, tilesX, tileSize, cmp.width, height), FullFrame(cmp.width, Min((m + 1) * tileSize, height)));
  }

  lemma {:induction false} GridDiffCounts(cmp: Comparison, height: nat, m: nat, tilesX: nat, tileSize: nat)
    requires WholeFrames(cmp, height) && cmp.width <= tilesX * tileSize
    ensures GridDiff(cmp, m, tilesX, tileSize, height)
         == |cmp.ChangedIn(FullFrame(cmp.width, Min(m * tileSize, height)))|
    decreases m
  {
    if m == 0 {
      EmptyRectDiff(cmp, FullFrame(cmp.width, 0));
    } else {
      GridDiffCounts(cmp, height, m - 1, tilesX, tileSize);
      NextGridRow(cmp, height, m - 1, tilesX, tileSize);
    }
  }

  /** The sum of `compare_tile` over all tiles is the scalar count of the two whole frames. */
  lemma GridPartitionsFrame(cmp: Comparison, height: nat, tileSize: nat)
    requires WholeFrames(cmp, height) && tileSize > 0
    ensures GridDiff(cmp, DivCeil(height, tileSize), DivCeil(cmp.width, tileSize), tileSize, height)
         == DiffCount(cmp.prev, cmp.curr, cmp.threshold)
  {
    var tilesY := DivCeil(height, tileSize);
    var frame := FullFrame(cmp.width, height);
    CeilCovers(cmp.width, tileSize);
    GridDiffCounts(cmp, height, tilesY, DivCeil(cmp.width, tileSize), tileSize);
    assert FullFrame(cmp.width, Min(tilesY * tileSize, height)) == frame by {
      CeilCovers(height, tileSize);
    }
    RectDiffCounts(cmp, height, frame);
    FrameDiff(cmp, height);
  }

  lemma FrameDiff(cmp: Comparison, height: nat)
    requires WholeFrames(cmp, height)
    ensures cmp.RectDiff(FullFrame(cmp.width, height)) == DiffCount(cmp.prev, cmp.curr, cmp.threshold)
  {
    FrameDiffIsScalarCount(cmp, height, height);
    assert cmp.width * height == height * cmp.width;
  }
}
