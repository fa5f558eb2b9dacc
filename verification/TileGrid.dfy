/**
 The tile grid laid over a frame and the per-tile comparison (src/damage/mod.rs:457-484, 631-684,
 706-735).
 */
module TileGrid {
  import opened Common
  import opened Regions
  import opened PixelDiff

  /** `div_ceil`: how many steps of `d` it takes to get past `n`. */
  function DivCeil(n: nat, d: nat): nat
    requires d > 0
  {
    if n == 0 then 0 else if n <= d then 1 else 1 + DivCeil(n - d, d)
  }

  /** Tile (`tx`, `ty`), clipped to the frame. */
  function TileRegion(tx: nat, ty: nat, tileSize: nat, width: nat, height: nat): Region {
    var x, y := tx * tileSize, ty * tileSize;
    Region(x, y, Min(tileSize, SaturatingSub(width, x)), Min(tileSize, SaturatingSub(height, y)))
  }

  predicate NonEmpty(r: Region) {
    r.width > 0 && r.height > 0
  }

  /** Which tiles are selected, by column and row. */
  type Selection = (nat, nat) -> bool

  /** The selected tiles among the first `n` of tile row `ty`. */
  function RowRegions(sel: Selection, ty: nat, n: nat, tileSize: nat, width: nat, height: nat): seq<Region> {
    if n == 0 then []
    else
      var r := TileRegion(n - 1, ty, tileSize, width, height);
      RowRegions(sel, ty, n - 1, tileSize, width, height) + (if sel(n - 1, ty) && NonEmpty(r) then [r] else [])
  }

  /** The selected tiles of the first `m` tile rows, in row-major order. */
  function GridRegions(sel: Selection, m: nat, tilesX: nat, tileSize: nat, width: nat, height: nat): seq<Region> {
    if m == 0 then []
    else GridRegions(sel, m - 1, tilesX, tileSize, width, height)
         + RowRegions(sel, m - 1, tilesX, tileSize, width, height)
  }

  lemma {:induction false} FlatInRange(tx: nat, ty: nat, tilesX: nat, tilesY: nat)
    requires tx < tilesX && ty < tilesY
    ensures Flat(tx, ty, tilesX) < Flat(0, tilesY, tilesX)
    decreases ty
  {
    if ty > 0 {
      FlatInRange(tx, ty - 1, tilesX, tilesY - 1);
    }
  }

  lemma {:induction false} FlatIsInjective(tx: nat, ty: nat, tx': nat, ty': nat, tilesX: nat)
    requires tx < tilesX && tx' < tilesX && Flat(tx, ty, tilesX) == Flat(tx', ty', tilesX)
    ensures tx == tx' && ty == ty'
    decreases ty
  {
    if ty > 0 && ty' > 0 {
      FlatIsInjective(tx, ty - 1, tx', ty' - 1, tilesX);
    }
  }

  /** `flags` is the flat vector of the selection. */
  ghost predicate Flattens(flags: seq<bool>, sel: Selection, tilesX: nat, tilesY: nat) {
    forall tx: nat, ty: nat :: tx < tilesX && ty < tilesY ==>
      Flat(tx, ty, tilesX) < |flags| && flags[Flat(tx, ty, tilesX)] == sel(tx, ty)
  }

  lemma FlagOfTile(flags: seq<bool>, sel: Selection, tx: nat, ty: nat, tilesX: nat, tilesY: nat)
    requires Flattens(flags, sel, tilesX, tilesY) && tx < tilesX && ty < tilesY
    ensures 0 <= ty * tilesX + tx < |flags| && flags[ty * tilesX + tx] == sel(tx, ty)
  {
    FlatIsRowMajor(tx, ty, tilesX);
  }

  lemma {:induction false} NextTileInRow(above: seq<Region>, sel: Selection, ty: nat, tx: nat, tileSize: nat, width: nat, height: nat)
    ensures var r := TileRegion(tx, ty, tileSize, width, height);
            above + RowRegions(sel, ty, tx + 1, tileSize, width, height)
            == above + RowRegions(sel, ty, tx, tileSize, width, height)
               + (if sel(tx, ty) && NonEmpty(r) then [r] else [])
  {
  }

  /** `tiles_to_regions`. */
  method TilesToRegions(dirtyTiles: seq<bool>, tilesX: nat, tilesY: nat, tileSize: nat,
                        frameWidth: nat, frameHeight: nat, ghost sel: Selection)
    returns (regions: seq<Region>)
    requires Flattens(dirtyTiles, sel, tilesX, tilesY)
    ensures regions == GridRegions(sel, tilesY, tilesX, tileSize, frameWidth, frameHeight)
  {
    regions := [];
    for ty := 0 to tilesY
      invariant regions == GridRegions(sel, ty, tilesX, tileSize, frameWidth, frameHeight)
    {
      ghost var above := regions;
      for tx := 0 to tilesX
        invariant regions == above + RowRegions(sel, ty, tx, tileSize, frameWidth, frameHeight)
      {
        var idx := ty * tilesX + tx;
        FlagOfTile(dirtyTiles, sel, tx, ty, tilesX, tilesY);
        NextTileInRow(above, sel, ty, tx, tileSize, frameWidth, frameHeight);
        if dirtyTiles[idx] {
          var r := TileRegion(tx, ty, tileSize, frameWidth, frameHeight);
          if r.width > 0 && r.height > 0 {
            regions := regions + [r];
          }
        }
      }
    }
  }

  lemma {:induction false} RowRegionsMember(sel: Selection, ty: nat, n: nat, tileSize: nat, width: nat, height: nat, r: Region)
    ensures r in RowRegions(sel, ty, n, tileSize, width, height)
       <==> exists tx: nat :: tx < n && sel(tx, ty) && r == TileRegion(tx, ty, tileSize, width, height) && NonEmpty(r)
  {
    if n > 0 {
      RowRegionsMember(sel, ty, n - 1, tileSize, width, height, r);
    }
  }

  /** `r` is the rectangle of the selected tile (`tx`, `ty`). */
  predicate IsTile(sel: Selection, r: Region, tx: nat, ty: nat, tileSize: nat, width: nat, height: nat) {
    sel(tx, ty) && r == TileRegion(tx, ty, tileSize, width, height) && NonEmpty(r)
  }

  /** The listed regions are exactly the non-empty rectangles of selected tiles. */
  lemma {:induction false} GridRegionsMember(sel: Selection, m: nat, tilesX: nat, tileSize: nat, width: nat, height: nat, r: Region)
    ensures r in GridRegions(sel, m, tilesX, tileSize, width, height)
       <==> exists tx: nat, ty: nat :: tx < tilesX && ty < m && IsTile(sel, r, tx, ty, tileSize, width, height)
  {
    if m > 0 {
      GridRegionsMember(sel, m - 1, tilesX, tileSize, width, height, r);
      RowRegionsMember(sel, m - 1, tilesX, tileSize, width, height, r);
      if r in RowRegions(sel, m - 1, tilesX, tileSize, width, height) {
        var tx: nat :| tx < tilesX && sel(tx, m - 1) && r == TileRegion(tx, m - 1, tileSize, width, height) && NonEmpty(r);
        assert IsTile(sel, r, tx, m - 1, tileSize, width, height);
      }
    }
  }

  /** `a` comes before `b` when reading row by row. */
  predicate ReadsBefore(a: Region, b: Region) {
    a.y < b.y || (a.y == b.y && a.x < b.x)
  }

  lemma {:induction false} StrictlyMore(a: nat, b: nat, c: nat)
    requires a < b && c > 0
    ensures a * c < b * c
  {
    MulMonotone(a + 1, b, c);
  }

  lemma {:induction false} RowIsInReadingOrder(sel: Selection, ty: nat, n: nat, tileSize: nat, width: nat, height: nat, i: nat, j: nat)
    requires tileSize > 0 && i < j < |RowRegions(sel, ty, n, tileSize, width, height)|
    ensures ReadsBefore(RowRegions(sel, ty, n, tileSize, width, height)[i], RowRegions(sel, ty, n, tileSize, width, height)[j])
    decreases n
  {
    var before := RowRegions(sel, ty, n - 1, tileSize, width, height);
    if j < |before| {
      RowIsInReadingOrder(sel, ty, n - 1, tileSize, width, height, i, j);
    } else {
      RowRegionsMember(sel, ty, n - 1, tileSize, width, height, before[i]);
      var tx: nat :| tx < n - 1 && sel(tx, ty) && before[i] == TileRegion(tx, ty, tileSize, width, height) && NonEmpty(before[i]);
      StrictlyMore(tx, n - 1, tileSize);
    }
  }

  /** The regions are listed row by row, each row from left to right. */
  lemma {:induction false} GridIsInReadingOrder(sel: Selection, m: nat, tilesX: nat, tileSize: nat, width: nat, height: nat,
                                                i: nat, j: nat, grid: seq<Region>)
    requires tileSize > 0 && grid == GridRegions(sel, m, tilesX, tileSize, width, height) && i < j < |grid|
    ensures ReadsBefore(grid[i], grid[j])
    decreases m
  {
    var before, row := GridRegions(sel, m - 1, tilesX, tileSize, width, height), RowRegions(sel, m - 1, tilesX, tileSize, width, height);
    if j < |before| {
      GridIsInReadingOrder(sel, m - 1, tilesX, tileSize, width, height, i, j, before);
    } else if i >= |before| {
      RowIsInReadingOrder(sel, m - 1, tilesX, tileSize, width, height, i - |before|, j - |before|);
    } else {
      EarlierRowReadsBefore(sel, m - 1, tilesX, tileSize, width, height, before[i], row[j - |before|]);
    }
  }

  lemma {:induction false} EarlierRowReadsBefore(sel: Selection, m: nat, tilesX: nat, tileSize: nat, width: nat, height: nat,
                                                 a: Region, b: Region)
    requires tileSize > 0 && a in GridRegions(sel, m, tilesX, tileSize, width, height)
    requires b in RowRegions(sel, m, tilesX, tileSize, width, height)
    ensures ReadsBefore(a, b)
  {
    GridRegionsMember(sel, m, tilesX, tileSize, width, height, a);
    var tx: nat, ty: nat :| tx < tilesX && ty < m && IsTile(sel, a, tx, ty, tileSize, width, height);
    RowRegionsMember(sel, m, tilesX, tileSize, width, height, b);
    StrictlyMore(ty, m, tileSize);
  }

  lemma TileWithinFrame(tx: nat, ty: nat, tileSize: nat, width: nat, height: nat)
    requires NonEmpty(TileRegion(tx, ty, tileSize, width, height))
    ensures TileRegion(tx, ty, tileSize, width, height).Within(FullFrame(width, height))
  {
  }

  /** Division brackets its dividend. */
  lemma DivBrackets(a: nat, d: nat)
    requires d > 0
    ensures (a / d) * d <= a < (a / d) * d + d
  {
  }

  /** `DivCeil` is the least `q` with `n <= q * d`. */
  lemma {:induction false} CeilIsLeastCover(n: nat, d: nat, q: nat)
    requires d > 0
    ensures DivCeil(n, d) <= q <==> n <= q * d
    decreases n
  {
    if n > d {
      if q == 0 {
      } else {
        CeilIsLeastCover(n - d, d, q - 1);
        assert q * d == (q - 1) * d + d;
      }
    } else if q > 0 {
      MulMonotone(1, q, d);
    }
  }

  lemma BeforeCeil(a: nat, n: nat, d: nat)
    requires a < n && d > 0
    ensures a / d < DivCeil(n, d)
  {
    DivBrackets(a, d);
    CeilIsLeastCover(n, d, a / d);
  }

  /** Every pixel of the frame lies in a tile of the grid. */
  lemma PixelHasTile(px: nat, py: nat, tileSize: nat, width: nat, height: nat) returns (tx: nat, ty: nat)
    requires tileSize > 0 && px < width && py < height
    ensures tx < DivCeil(width, tileSize) && ty < DivCeil(height, tileSize)
    ensures TileRegion(tx, ty, tileSize, width, height).Contains(px, py)
  {
    tx, ty := px / tileSize, py / tileSize;
    BeforeCeil(px, width, tileSize);
    BeforeCeil(py, height, tileSize);
    DivBrackets(px, tileSize);
    DivBrackets(py, tileSize);
  }

  // ---------------------------------------------------------------- comparing tiles

  /** Two frames under comparison: rows of `width` pixels and the per-channel threshold. */
  datatype Comparison = Comparison(prev: seq<byte>, curr: seq<byte>, width: nat, threshold: byte) {

    /** Both buffers hold the pixels `lo .. hi` (in row-major numbering). */
    predicate Holds(hi: nat) {
      4 * hi <= |prev| && 4 * hi <= |curr|
    }

    predicate Changed(px: int, py: int) {
      0 <= px < width && 0 <= py && Holds(py * width + px + 1) && Differs(prev, curr, threshold, py * width + px)
    }

    /** The changed pixels of a rectangle. */
    ghost function ChangedIn(r: Region): set<(int, int)> {
      Select((px, py) => Changed(px, py), r)
    }

    /** The comparison of one tile row; rows that a buffer does not hold count nothing. */
    function RowDiff(x: nat, y: nat, n: nat): nat {
      var lo := y * width + x;
      if Holds(lo + n) then CountDiffs(prev, curr, threshold, lo, lo + n) else 0
    }

    function RectDiff(r: Region): nat
      decreases r.height
    {
      if r.height == 0 then 0
      else RectDiff(r.(height := r.height - 1)) + RowDiff(r.x, r.y + r.height - 1, r.width)
    }
  }

  /** Comparing two slices of `n` pixels from pixel `lo` on is counting in the whole frames. */
  lemma SliceDiff(prev: seq<byte>, curr: seq<byte>, threshold: byte, lo: nat, n: nat, p: seq<byte>, c: seq<byte>)
    requires 4 * (lo + n) <= |prev| && 4 * (lo + n) <= |curr|
    requires p == prev[4 * lo..4 * (lo + n)] && c == curr[4 * lo..4 * (lo + n)]
    ensures DiffCount(p, c, threshold) == CountDiffs(prev, curr, threshold, lo, lo + n)
  {
    CountInSlice(prev, curr, threshold, lo, n, p, c);
  }

  /** One row of a tile, read at its byte offset. */
  lemma {:induction false} RowOfSlices(cmp: Comparison, x: nat, y: nat, n: nat, offset: nat)
    requires offset == y * (4 * cmp.width) + x * 4
    ensures if offset + n * 4 > |cmp.prev| || offset + n * 4 > |cmp.curr| then cmp.RowDiff(x, y, n) == 0
            else cmp.RowDiff(x, y, n)
                 == DiffCount(cmp.prev[offset..offset + n * 4], cmp.curr[offset..offset + n * 4], cmp.threshold)
  {
    RowOffset(y, 4 * cmp.width, cmp.width, x);
    if offset + n * 4 <= |cmp.prev| && offset + n * 4 <= |cmp.curr| {
      SliceDiff(cmp.prev, cmp.curr, cmp.threshold, y * cmp.width + x, n,
                cmp.prev[offset..offset + n * 4], cmp.curr[offset..offset + n * 4]);
    }
  }

  lemma RowOffset(y: nat, stride: nat, width: nat, x: nat)
    requires stride == 4 * width
    ensures y * stride + x * 4 == 4 * (y * width + x)
  {
  }

  lemma {:induction false} NextRow(cmp: Comparison, tile: Region, row: nat)
    ensures cmp.RectDiff(tile.(height := row + 1))
         == cmp.RectDiff(tile.(height := row)) + cmp.RowDiff(tile.x, tile.y + row, tile.width)
  {
  }

  /** `compare_tile`. */
  method CompareTile(cpu: Cpu, prev: seq<byte>, curr: seq<byte>, tile: Region, stride: nat, pixelThreshold: byte,
                     ghost cmp: Comparison)
    returns (totalDiff: nat)
    requires stride == 4 * cmp.width && cmp.prev == prev && cmp.curr == curr && cmp.threshold == pixelThreshold
    ensures totalDiff == cmp.RectDiff(tile)
  {
    totalDiff := 0;
    var bytesPerRow := tile.width * 4;
    for row := 0 to tile.height
      invariant totalDiff == cmp.RectDiff(tile.(height := row))
    {
      var y := tile.y + row;
      var offset := y * stride + tile.x * 4;
      RowOfSlices(cmp, tile.x, y, tile.width, offset);
      NextRow(cmp, tile, row);
      if offset + bytesPerRow > |prev| || offset + bytesPerRow > |curr| {
        continue;
      }
      var prevRow, currRow := prev[offset..offset + bytesPerRow], curr[offset..offset + bytesPerRow];
      var diff := CountDifferentPixels(cpu, prevRow, currRow, pixelThreshold);
      totalDiff := totalDiff + diff;
    }
  }
}
