/**
 What the damage detector guarantees about changed pixels, and what it returns over whole runs.
 */
module DamageProperties {
  import opened Common
  import opened Regions
  import opened RegionMerging
  import opened MergeProperties
  import opened PixelDiff
  import opened TileGrid
  import opened GridProperties
  import opened DamageDetection

  // ---------------------------------------------------------------- missed pixels

  /** The changed pixels of the frame that no reported rectangle contains. */
  ghost function Missed(cmp: Comparison, height: nat, reported: seq<Region>): set<(int, int)> {
    cmp.ChangedIn(FullFrame(cmp.width, height)) - AllPixels(reported)
  }

  ghost function ChangedInAny(cmp: Comparison, rs: seq<Region>): (s: set<(int, int)>)
    ensures forall p :: p in s <==> exists i :: 0 <= i < |rs| && p in cmp.ChangedIn(rs[i])
  {
    if rs == [] then {} else cmp.ChangedIn(rs[0]) + ChangedInAny(cmp, rs[1..])
  }

  /** The changed pixels of the listed rectangles, added up. */
  ghost function TotalChanged(cmp: Comparison, rs: seq<Region>): nat {
    if rs == [] then 0 else |cmp.ChangedIn(rs[0])| + TotalChanged(cmp, rs[1..])
  }

  lemma UnionCardinality<T>(a: set<T>, b: set<T>)
    ensures |a + b| <= |a| + |b|
  {
  }

  lemma {:induction false} UnionBound(cmp: Comparison, rs: seq<Region>)
    ensures |ChangedInAny(cmp, rs)| <= TotalChanged(cmp, rs)
  {
    if rs != [] {
      UnionBound(cmp, rs[1..]);
      UnionCardinality(cmp.ChangedIn(rs[0]), ChangedInAny(cmp, rs[1..]));
    }
  }

  lemma OneMore(bound: nat, n: nat)
    requires n > 0
    ensures bound * n == bound + bound * (n - 1)
  {
  }

  lemma {:induction false} TotalBound(cmp: Comparison, rs: seq<Region>, bound: nat)
    requires forall r :: r in rs ==> |cmp.ChangedIn(r)| <= bound
    ensures TotalChanged(cmp, rs) <= bound * |rs|
  {
    if rs != [] {
      TotalBound(cmp, rs[1..], bound);
      OneMore(bound, |rs|);
    }
  }

  function CleanTiles(cmp: Comparison, height: nat, config: Config): seq<Region> {
    var dirty := DirtyTiles(cmp, height, config);
    SelectedTiles((tx: nat, ty: nat) => !dirty(tx, ty), cmp.width, height, config)
  }

  /** The merged rectangles that are dropped for being small. */
  function Dropped(rs: seq<Region>, minArea: nat): seq<Region> {
    if rs == [] then []
    else (if rs[0].Area() < minArea then [rs[0]] else []) + Dropped(rs[1..], minArea)
  }

  lemma {:induction false} DroppedOnes(rs: seq<Region>, minArea: nat, r: Region)
    ensures r in Dropped(rs, minArea) <==> r in rs && r.Area() < minArea
  {
    if rs != [] {
      DroppedOnes(rs[1..], minArea, r);
      assert rs == [rs[0]] + rs[1..];
    }
  }

  lemma CleanTilesHaveFewChanges(cmp: Comparison, height: nat, config: Config, r: Region)
    requires WholeFrames(cmp, height) && r in CleanTiles(cmp, height, config)
    ensures |cmp.ChangedIn(r)| <= config.dirtyCount
  {
    var dirty := DirtyTiles(cmp, height, config);
    var clean := (tx: nat, ty: nat) => !dirty(tx, ty);
    GridRegionsMember(clean, DivCeil(height, config.tileSize), DivCeil(cmp.width, config.tileSize), config.tileSize,
                      cmp.width, height, r);
    var tx: nat, ty: nat :| tx < DivCeil(cmp.width, config.tileSize) && ty < DivCeil(height, config.tileSize)
                            && IsTile(clean, r, tx, ty, config.tileSize, cmp.width, height);
    TileDiffCounts(cmp, height, tx, ty, config.tileSize);
  }

  lemma SelectedTileIsListed(sel: Selection, width: nat, height: nat, config: Config, tx: nat, ty: nat, px: int, py: int)
    requires tx < DivCeil(width, config.tileSize) && ty < DivCeil(height, config.tileSize) && sel(tx, ty)
    requires TileRegion(tx, ty, config.tileSize, width, height).Contains(px, py)
    ensures TileRegion(tx, ty, config.tileSize, width, height) in SelectedTiles(sel, width, height, config)
  {
    var r := TileRegion(tx, ty, config.tileSize, width, height);
    GridRegionsMember(sel, DivCeil(height, config.tileSize), DivCeil(width, config.tileSize), config.tileSize, width,
                      height, r);
    assert IsTile(sel, r, tx, ty, config.tileSize, width, height);
  }

  /** A pixel of the frame lies in a clean tile, in a dropped rectangle or in a reported one. */
  lemma EveryPixelIsAccountedFor(cmp: Comparison, height: nat, config: Config, px: nat, py: nat)
    requires px < cmp.width && py < height && cmp.threshold == config.pixelThreshold
    ensures (exists r :: r in CleanTiles(cmp, height, config) && r.Contains(px, py))
         || (exists r :: r in Dropped(MergedDirty(cmp, height, config), config.minRegionArea) && r.Contains(px, py))
         || (exists r :: r in Changes(cmp.prev, cmp.curr, cmp.width, height, config) && r.Contains(px, py))
  {
    var dirty := DirtyTiles(cmp, height, config);
    var tx, ty := PixelHasTile(px, py, config.tileSize, cmp.width, height);
    var tile := TileRegion(tx, ty, config.tileSize, cmp.width, height);
    if dirty(tx, ty) {
      SelectedTileIsListed(dirty, cmp.width, height, config, tx, ty, px, py);
      var tiles := SelectedTiles(dirty, cmp.width, height, config);
      var merged := MergedDirty(cmp, height, config);
      var t :| 0 <= t < |tiles| && tiles[t] == tile;
      var k := MergeCovers(tiles, config.mergeDistance, merged, t);
      assert merged[k].Contains(px, py);
      DroppedOnes(merged, config.minRegionArea, merged[k]);
      RetainKeeps(merged, config.minRegionArea, merged[k]);
    } else {
      SelectedTileIsListed((x: nat, y: nat) => !dirty(x, y), cmp.width, height, config, tx, ty, px, py);
      assert tile in CleanTiles(cmp, height, config);
    }
  }

  /** Missed changes number at most `dirtyCount` for every clean tile plus those in the merged
      rectangles that are dropped for being small. */
  lemma MissedChangesAreBounded(cmp: Comparison, height: nat, config: Config)
    requires WholeFrames(cmp, height) && cmp.threshold == config.pixelThreshold
    ensures |Missed(cmp, height, Changes(cmp.prev, cmp.curr, cmp.width, height, config))|
         <= config.dirtyCount * |CleanTiles(cmp, height, config)|
            + TotalChanged(cmp, Dropped(MergedDirty(cmp, height, config), config.minRegionArea))
  {
    var clean := CleanTiles(cmp, height, config);
    var dropped := Dropped(MergedDirty(cmp, height, config), config.minRegionArea);
    var missed := Missed(cmp, height, Changes(cmp.prev, cmp.curr, cmp.width, height, config));
    MissedIsExplained(cmp, height, config);
    SubsetCardinality(missed, ChangedInAny(cmp, clean) + ChangedInAny(cmp, dropped));
    UnionCardinality(ChangedInAny(cmp, clean), ChangedInAny(cmp, dropped));
    UnionBound(cmp, clean);
    UnionBound(cmp, dropped);
    forall r | r in clean
      ensures |cmp.ChangedIn(r)| <= config.dirtyCount
    {
      CleanTilesHaveFewChanges(cmp, height, config, r);
    }
    TotalBound(cmp, clean, config.dirtyCount);
  }

  lemma MissedIsExplained(cmp: Comparison, height: nat, config: Config)
    requires cmp.threshold == config.pixelThreshold
    ensures Missed(cmp, height, Changes(cmp.prev, cmp.curr, cmp.width, height, config))
         <= ChangedInAny(cmp, CleanTiles(cmp, height, config))
            + ChangedInAny(cmp, Dropped(MergedDirty(cmp, height, config), config.minRegionArea))
  {
    var clean := CleanTiles(cmp, height, config);
    var dropped := Dropped(MergedDirty(cmp, height, config), config.minRegionArea);
    var reported := Changes(cmp.prev, cmp.curr, cmp.width, height, config);
    forall p | p in Missed(cmp, height, reported)
      ensures p in ChangedInAny(cmp, clean) + ChangedInAny(cmp, dropped)
    {
      EveryPixelIsAccountedFor(cmp, height, config, p.0, p.1);
      ListedPixel(cmp, clean, p);
      ListedPixel(cmp, dropped, p);
      CoveredPixel(reported, p);
    }
  }

  lemma CoveredPixel(rs: seq<Region>, p: (int, int))
    ensures (exists r :: r in rs && r.Contains(p.0, p.1)) ==> p in AllPixels(rs)
  {
  }

  lemma ListedPixel(cmp: Comparison, rs: seq<Region>, p: (int, int))
    ensures (exists r :: r in rs && r.Contains(p.0, p.1)) && cmp.Changed(p.0, p.1) ==> p in ChangedInAny(cmp, rs)
  {
  }

  /** With no tolerated pixels and no dropped rectangles, no changed pixel is missed. */
  lemma NothingMissedWhenExact(cmp: Comparison, height: nat, config: Config)
    requires WholeFrames(cmp, height) && cmp.threshold == config.pixelThreshold
    requires config.dirtyCount == 0 && config.minRegionArea <= 1
    ensures Missed(cmp, height, Changes(cmp.prev, cmp.curr, cmp.width, height, config)) == {}
  {
    var dropped := Dropped(MergedDirty(cmp, height, config), config.minRegionArea);
    forall r | r in dropped
      ensures |cmp.ChangedIn(r)| <= 0
    {
      DroppedOnes(MergedDirty(cmp, height, config), config.minRegionArea, r);
      AreaCountsPixels(r);
      SubsetCardinality(cmp.ChangedIn(r), Pixels(r));
    }
    TotalBound(cmp, dropped, 0);
    MissedChangesAreBounded(cmp, height, config);
  }

  // ---------------------------------------------------------------- what is reported

  /** Tile (`tx`, `ty`) of the grid has more than `dirtyCount` changed pixels. */
  ghost predicate Dirty(cmp: Comparison, height: nat, config: Config, tx: nat, ty: nat) {
    && tx < DivCeil(cmp.width, config.tileSize) && ty < DivCeil(height, config.tileSize)
    && |cmp.ChangedIn(TileRegion(tx, ty, config.tileSize, cmp.width, height))| > config.dirtyCount
  }

  lemma DirtyTileIsSelected(cmp: Comparison, height: nat, config: Config, tx: nat, ty: nat)
    requires WholeFrames(cmp, height) && Dirty(cmp, height, config, tx, ty)
    ensures TileRegion(tx, ty, config.tileSize, cmp.width, height)
            in SelectedTiles(DirtyTiles(cmp, height, config), cmp.width, height, config)
  {
    var r := TileRegion(tx, ty, config.tileSize, cmp.width, height);
    var sel := DirtyTiles(cmp, height, config);
    TileDiffCounts(cmp, height, tx, ty, config.tileSize);
    if !NonEmpty(r) {
      EmptyRectDiff(cmp, r);
    }
    GridRegionsMember(sel, DivCeil(height, config.tileSize), DivCeil(cmp.width, config.tileSize), config.tileSize,
                      cmp.width, height, r);
    assert IsTile(sel, r, tx, ty, config.tileSize, cmp.width, height);
  }

  lemma SelectedTileIsDirty(cmp: Comparison, height: nat, config: Config, r: Region) returns (tx: nat, ty: nat)
    requires WholeFrames(cmp, height) && r in SelectedTiles(DirtyTiles(cmp, height, config), cmp.width, height, config)
    ensures Dirty(cmp, height, config, tx, ty) && r == TileRegion(tx, ty, config.tileSize, cmp.width, height)
  {
    var sel := DirtyTiles(cmp, height, config);
    GridRegionsMember(sel, DivCeil(height, config.tileSize), DivCeil(cmp.width, config.tileSize), config.tileSize,
                      cmp.width, height, r);
    tx, ty :| tx < DivCeil(cmp.width, config.tileSize) && ty < DivCeil(height, config.tileSize)
              && IsTile(sel, r, tx, ty, config.tileSize, cmp.width, height);
    TileDiffCounts(cmp, height, tx, ty, config.tileSize);
  }

  /** If no tile of the grid has more than `dirtyCount` changed pixels, nothing is reported. */
  lemma QuietFrameReportsNothing(cmp: Comparison, height: nat, config: Config)
    requires WholeFrames(cmp, height) && cmp.threshold == config.pixelThreshold
    requires forall tx: nat, ty: nat :: !Dirty(cmp, height, config, tx, ty)
    ensures Changes(cmp.prev, cmp.curr, cmp.width, height, config) == []
  {
    var tiles := SelectedTiles(DirtyTiles(cmp, height, config), cmp.width, height, config);
    if tiles != [] {
      var tx, ty := SelectedTileIsDirty(cmp, height, config, tiles[0]);
    }
    MergeSeparates(tiles, config.mergeDistance, MergedDirty(cmp, height, config));
  }

  /** Every reported rectangle has at least the minimum area and contains a tile with more than `dirtyCount`
      changed pixels. */
  lemma ReportedHoldsDirtyTile(cmp: Comparison, height: nat, config: Config, r: Region) returns (tx: nat, ty: nat)
    requires WholeFrames(cmp, height) && cmp.threshold == config.pixelThreshold
    requires r in Changes(cmp.prev, cmp.curr, cmp.width, height, config)
    ensures r.Area() >= config.minRegionArea
    ensures Dirty(cmp, height, config, tx, ty) && TileRegion(tx, ty, config.tileSize, cmp.width, height).Within(r)
  {
    var merged := MergedDirty(cmp, height, config);
    RetainKeeps(merged, config.minRegionArea, r);
    var k :| 0 <= k < |merged| && merged[k] == r;
    tx, ty := MergedHoldsDirtyTile(cmp, height, config, k);
  }

  lemma MergedHoldsDirtyTile(cmp: Comparison, height: nat, config: Config, k: nat) returns (tx: nat, ty: nat)
    requires WholeFrames(cmp, height) && k < |MergedDirty(cmp, height, config)|
    ensures Dirty(cmp, height, config, tx, ty)
    ensures TileRegion(tx, ty, config.tileSize, cmp.width, height).Within(MergedDirty(cmp, height, config)[k])
  {
    var tiles := SelectedTiles(DirtyTiles(cmp, height, config), cmp.width, height, config);
    var t := MergeIsTight(tiles, config.mergeDistance, MergedDirty(cmp, height, config), k, Side.Left);
    tx, ty := SelectedTileIsDirty(cmp, height, config, tiles[t]);
  }

  /** Every tile with more than `dirtyCount` changed pixels lies in a reported rectangle, or in a merged one
      that is below the minimum area. */
  lemma DirtyTileIsReportedOrDropped(cmp: Comparison, height: nat, config: Config, tx: nat, ty: nat) returns (r: Region)
    requires WholeFrames(cmp, height) && cmp.threshold == config.pixelThreshold && Dirty(cmp, height, config, tx, ty)
    ensures TileRegion(tx, ty, config.tileSize, cmp.width, height).Within(r) && r in MergedDirty(cmp, height, config)
    ensures if r.Area() >= config.minRegionArea then r in Changes(cmp.prev, cmp.curr, cmp.width, height, config)
            else r in Dropped(MergedDirty(cmp, height, config), config.minRegionArea)
  {
    var tiles, merged := SelectedTiles(DirtyTiles(cmp, height, config), cmp.width, height, config), MergedDirty(cmp, height, config);
    DirtyTileIsSelected(cmp, height, config, tx, ty);
    var t :| 0 <= t < |tiles| && tiles[t] == TileRegion(tx, ty, config.tileSize, cmp.width, height);
    var k := MergeCovers(tiles, config.mergeDistance, merged, t);
    r := merged[k];
    RetainKeeps(merged, config.minRegionArea, r);
    DroppedOnes(merged, config.minRegionArea, r);
  }

  // ---------------------------------------------------------------- how long the reference must be

  /** A pixel of the frame that the reference does not hold, or that differs from it. */
  predicate Unmatched(cmp: Comparison, height: nat, px: nat, py: nat) {
    px < cmp.width && py < height && (4 * (py * cmp.width + px + 1) > |cmp.prev| || cmp.Changed(px, py))
  }

  /** Every unmatched pixel is reported. */
  ghost predicate CoversUnmatched(cmp: Comparison, height: nat, reported: seq<Region>) {
    forall px: nat, py: nat :: Unmatched(cmp, height, px, py) ==> (px, py) in AllPixels(reported)
  }

  /** Whatever the new frame is, the comparison with this reference reports every unmatched pixel. */
  ghost predicate ReportsAll(reference: seq<byte>, width: nat, height: nat, config: Config) {
    forall curr: seq<byte> :: |curr| == 4 * (width * height) ==>
      CoversUnmatched(Comparison(reference, curr, width, config.pixelThreshold), height,
                      Changes(reference, curr, width, height, config))
  }

  /** Without a dirty tile nothing is reported. */
  lemma NothingDirtyNothingReported(cmp: Comparison, height: nat, config: Config)
    requires cmp.threshold == config.pixelThreshold && forall r :: cmp.RectDiff(r) == 0
    ensures Changes(cmp.prev, cmp.curr, cmp.width, height, config) == []
  {
    var sel := DirtyTiles(cmp, height, config);
    var tiles := SelectedTiles(sel, cmp.width, height, config);
    if tiles != [] {
      GridRegionsMember(sel, DivCeil(height, config.tileSize), DivCeil(cmp.width, config.tileSize), config.tileSize,
                        cmp.width, height, tiles[0]);
    }
    MergeSeparates(tiles, config.mergeDistance, MergedDirty(cmp, height, config));
  }

  lemma {:induction false} PrefixHasNoDiffs(prev: seq<byte>, curr: seq<byte>, threshold: byte, lo: nat, hi: nat)
    requires prev <= curr && lo <= hi && 4 * hi <= |prev|
    ensures CountDiffs(prev, curr, threshold, lo, hi) == 0
    decreases hi
  {
    if lo < hi {
      PrefixHasNoDiffs(prev, curr, threshold, lo, hi - 1);
    }
  }

  /** A frame that begins with the reference shows no difference in any rectangle: the rows that the
      reference does not hold count nothing. */
  lemma {:induction false} PrefixShowsNothing(cmp: Comparison, r: Region)
    requires cmp.prev <= cmp.curr
    ensures cmp.RectDiff(r) == 0
    decreases r.height
  {
    if r.height > 0 {
      PrefixShowsNothing(cmp, r.(height := r.height - 1));
      PrefixRowShowsNothing(cmp, r.x, r.y + r.height - 1, r.width);
    }
  }

  lemma {:induction false} PrefixRowShowsNothing(cmp: Comparison, x: nat, y: nat, n: nat)
    requires cmp.prev <= cmp.curr
    ensures cmp.RowDiff(x, y, n) == 0
  {
    var lo: nat := y * cmp.width + x;
    if cmp.Holds(lo + n) {
      PrefixHasNoDiffs(cmp.prev, cmp.curr, cmp.threshold, lo, lo + n);
    }
  }

  /** Every frame that begins with the reference is reported as unchanged. */
  lemma PrefixHidesEverything(reference: seq<byte>, curr: seq<byte>, width: nat, height: nat, config: Config)
    requires reference <= curr
    ensures Changes(reference, curr, width, height, config) == []
  {
    var cmp := Comparison(reference, curr, width, config.pixelThreshold);
    forall r
      ensures cmp.RectDiff(r) == 0
    {
      PrefixShowsNothing(cmp, r);
    }
    NothingDirtyNothingReported(cmp, height, config);
  }

  lemma LastPixel(width: nat, height: nat)
    requires width > 0 && height > 0
    ensures (height - 1) * width + (width - 1) + 1 == width * height
  {
  }

  /** A reference that is shorter than the frame hides a frame of which it does not hold the last pixel. */
  lemma ShortReferenceHides(reference: seq<byte>, width: nat, height: nat, config: Config) returns (curr: seq<byte>)
    requires |reference| < 4 * (width * height)
    ensures |curr| == 4 * (width * height) && Changes(reference, curr, width, height, config) == []
    ensures !CoversUnmatched(Comparison(reference, curr, width, config.pixelThreshold), height, [])
  {
    curr := reference + seq(4 * (width * height) - |reference|, _ => 0);
    PrefixHidesEverything(reference, curr, width, height, config);
    assert width > 0 && height > 0;
    LastPixel(width, height);
    assert Unmatched(Comparison(reference, curr, width, config.pixelThreshold), height, width - 1, height - 1);
  }

  lemma LongReferenceCovers(cmp: Comparison, height: nat, config: Config)
    requires WholeFrames(cmp, height) && cmp.threshold == config.pixelThreshold
    requires config.dirtyCount == 0 && config.minRegionArea <= 1
    ensures CoversUnmatched(cmp, height, Changes(cmp.prev, cmp.curr, cmp.width, height, config))
  {
    var reported := Changes(cmp.prev, cmp.curr, cmp.width, height, config);
    NothingMissedWhenExact(cmp, height, config);
    forall px: nat, py: nat | Unmatched(cmp, height, px, py)
      ensures (px, py) in AllPixels(reported)
    {
      UnmatchedIsChanged(cmp, height, px, py);
      UnlessMissed(cmp, height, reported, (px, py));
    }
  }

  lemma UnmatchedIsChanged(cmp: Comparison, height: nat, px: nat, py: nat)
    requires WholeFrames(cmp, height) && Unmatched(cmp, height, px, py)
    ensures (px, py) in cmp.ChangedIn(FullFrame(cmp.width, height))
  {
    RowIsHeld(cmp, height, px + 1, py);
  }

  lemma UnlessMissed(cmp: Comparison, height: nat, reported: seq<Region>, p: (int, int))
    requires Missed(cmp, height, reported) == {} && p in cmp.ChangedIn(FullFrame(cmp.width, height))
    ensures p in AllPixels(reported)
  {
    assert p !in Missed(cmp, height, reported);
  }

  /** With no tolerated pixels and no dropped rectangles, a comparison is complete for every new frame if
      and only if the reference is at least as long as the frame. */
  lemma ReportsAllIff(reference: seq<byte>, width: nat, height: nat, config: Config)
    requires config.dirtyCount == 0 && config.minRegionArea <= 1
    ensures ReportsAll(reference, width, height, config) <==> |reference| >= 4 * (width * height)
  {
    if |reference| < 4 * (width * height) {
      var curr := ShortReferenceHides(reference, width, height, config);
    } else {
      forall curr: seq<byte> | |curr| == 4 * (width * height)
        ensures CoversUnmatched(Comparison(reference, curr, width, config.pixelThreshold), height,
                                Changes(reference, curr, width, height, config))
      {
        LongReferenceCovers(Comparison(reference, curr, width, config.pixelThreshold), height, config);
      }
    }
  }

  /** Against an empty reference nothing is reported, whatever the new frame is. */
  lemma EmptyReferenceHidesEverything(curr: seq<byte>, width: nat, height: nat, config: Config)
    ensures Changes([], curr, width, height, config) == []
  {
    PrefixHidesEverything([], curr, width, height, config);
  }

  // ---------------------------------------------------------------- whole runs

  function Run(m: Model, events: seq<Event>): Model {
    if events == [] then m else Run(m, events[..|events| - 1]).Step(events[|events| - 1])
  }

  /** Event `k` is the latest that supplies a frame. */
  predicate LatestFrame(events: seq<Event>, k: nat) {
    && k < |events| && (events[k].Detect? || events[k].UpdateReference?)
    && forall j :: k < j < |events| ==> !events[j].Detect? && !events[j].UpdateReference?
  }

  /** Event `d` is a `detect` at this size, and since then the reference was at most replaced. */
  predicate Undisturbed(events: seq<Event>, d: nat, width: nat, height: nat) {
    && d < |events| && events[d].Detect? && events[d].width == width && events[d].height == height
    && forall j :: d < j < |events| ==> events[j].UpdateReference? || events[j].ResetStats?
  }

  predicate LatestConfig(events: seq<Event>, k: nat) {
    k < |events| && events[k].SetConfig? && forall j :: k < j < |events| ==> !events[j].SetConfig?
  }

  lemma {:induction false} ReferenceIsLatestFrame(m: Model, events: seq<Event>, k: nat)
    requires LatestFrame(events, k)
    ensures Run(m, events).reference == Some(events[k].frame)
    decreases |events|
  {
    if k < |events| - 1 {
      ReferenceIsLatestFrame(m, events[..|events| - 1], k);
    }
  }

  lemma {:induction false} ConfigIsLatest(m: Model, events: seq<Event>)
    ensures (exists k: nat :: LatestConfig(events, k) && Run(m, events).config == events[k].config)
         || (Run(m, events).config == m.config && forall j :: 0 <= j < |events| ==> !events[j].SetConfig?)
    decreases |events|
  {
    if events != [] {
      var n := |events| - 1;
      ConfigIsLatest(m, events[..n]);
      if events[n].SetConfig? {
        assert LatestConfig(events, n);
      } else if exists k: nat :: LatestConfig(events[..n], k) && Run(m, events[..n]).config == events[..n][k].config {
        var k: nat :| LatestConfig(events[..n], k) && Run(m, events[..n]).config == events[..n][k].config;
        assert LatestConfig(events, k);
      }
    }
  }

  /** A full frame is due unless some `detect` at this size was disturbed by nothing since. */
  lemma {:induction false} FullFrameUnlessUndisturbed(config: Config, events: seq<Event>, width: nat, height: nat)
    ensures !Run(Model(config, None, None, true), events).NeedsFullFrame(width, height)
       <==> exists d: nat :: Undisturbed(events, d, width, height)
    decreases |events|
  {
    var m := Model(config, None, None, true);
    if events != [] {
      var n := |events| - 1;
      FullFrameUnlessUndisturbed(config, events[..n], width, height);
      match events[n]
      case Detect(_, _, _) =>
        assert Undisturbed(events, n, width, height) <==> (events[n].width == width && events[n].height == height);
      case Invalidate =>
      case SetConfig(_) =>
      case _ =>
        DimensionsImplyReference(config, events[..n]);
        if exists d: nat :: Undisturbed(events[..n], d, width, height) {
          var d: nat :| Undisturbed(events[..n], d, width, height);
          assert Undisturbed(events, d, width, height);
        }
        if exists d: nat :: Undisturbed(events, d, width, height) {
          var d: nat :| Undisturbed(events, d, width, height);
          assert Undisturbed(events[..n], d, width, height);
        }
    }
  }

  lemma {:induction false} DimensionsImplyReference(config: Config, events: seq<Event>)
    ensures Run(Model(config, None, None, true), events).dimensions.Some?
        ==> Run(Model(config, None, None, true), events).reference.Some?
    decreases |events|
  {
    if events != [] {
      DimensionsImplyReference(config, events[..|events| - 1]);
    }
  }

  lemma {:induction false} LatestFrameFrom(events: seq<Event>, j: nat) returns (k: nat)
    requires j < |events| && (events[j].Detect? || events[j].UpdateReference?)
    ensures j <= k && LatestFrame(events, k)
    decreases |events| - j
  {
    k := j;
    if i :| j < i < |events| && (events[i].Detect? || events[i].UpdateReference?) {
      k := LatestFrameFrom(events, i);
    }
  }

  /** On every run from a new detector, `detect` returns the stateless function of the latest frame
      supplied and the current one when an undisturbed `detect` at this size exists, and one full
      frame otherwise. */
  lemma DetectIsStateless(config: Config, events: seq<Event>, frame: seq<byte>, width: nat, height: nat)
    ensures var m := Run(Model(config, None, None, true), events);
            if exists d: nat :: Undisturbed(events, d, width, height) then
              exists k: nat :: LatestFrame(events, k)
                       && m.Output(frame, width, height) == Changes(events[k].frame, frame, width, height, m.config)
            else m.Output(frame, width, height) == [FullFrame(width, height)]
  {
    var m := Run(Model(config, None, None, true), events);
    FullFrameUnlessUndisturbed(config, events, width, height);
    if exists d: nat :: Undisturbed(events, d, width, height) {
      var d: nat :| Undisturbed(events, d, width, height);
      var k := LatestFrameFrom(events, d);
      ReferenceIsLatestFrame(Model(config, None, None, true), events, k);
    }
  }

  lemma FullFrameMissesNothing(cmp: Comparison, height: nat)
    ensures Missed(cmp, height, [FullFrame(cmp.width, height)]) == {}
  {
  }

  /** On every run, with no tolerated pixels and no dropped rectangles: whatever happened before, a
      detection reports every pixel that differs from the latest frame supplied, if that frame is at
      least as long as the new one. */
  lemma NoChangeIsEverMissed(config: Config, events: seq<Event>, frame: seq<byte>, width: nat, height: nat, k: nat)
    requires LatestFrame(events, k) && |events[k].frame| >= |frame| == 4 * (width * height)
    requires Run(Model(config, None, None, true), events).config.dirtyCount == 0
    requires Run(Model(config, None, None, true), events).config.minRegionArea <= 1
    ensures var m := Run(Model(config, None, None, true), events);
            Missed(Comparison(events[k].frame, frame, width, m.config.pixelThreshold), height,
                   m.Output(frame, width, height)) == {}
  {
    var m := Run(Model(config, None, None, true), events);
    var cmp := Comparison(events[k].frame, frame, width, m.config.pixelThreshold);
    ReferenceIsLatestFrame(Model(config, None, None, true), events, k);
    if m.NeedsFullFrame(width, height) {
      FullFrameMissesNothing(cmp, height);
    } else {
      NothingMissedWhenExact(cmp, height, m.config);
    }
  }

  /** On every run, with no tolerated pixels and no dropped rectangles: the next detection at this size
      reports every unmatched pixel of every new frame if and only if it returns a full frame (no `detect`
      at this size was left undisturbed) or the latest frame supplied is at least as long as the frame. */
  lemma CompleteOnRunIff(config: Config, events: seq<Event>, width: nat, height: nat, k: nat)
    requires LatestFrame(events, k)
    requires Run(Model(config, None, None, true), events).config.dirtyCount == 0
    requires Run(Model(config, None, None, true), events).config.minRegionArea <= 1
    ensures var m := Run(Model(config, None, None, true), events);
            (forall curr: seq<byte> :: |curr| == 4 * (width * height) ==>
               CoversUnmatched(Comparison(events[k].frame, curr, width, m.config.pixelThreshold), height,
                               m.Output(curr, width, height)))
            <==> !(exists d: nat :: Undisturbed(events, d, width, height)) || |events[k].frame| >= 4 * (width * height)
  {
    var m := Run(Model(config, None, None, true), events);
    ReferenceIsLatestFrame(Model(config, None, None, true), events, k);
    FullFrameUnlessUndisturbed(config, events, width, height);
    if m.NeedsFullFrame(width, height) {
      FullFrameCoversUnmatched(m, events[k].frame, width, height);
    } else {
      ReportsAllIff(events[k].frame, width, height, m.config);
      assert forall curr :: m.Output(curr, width, height) == Changes(events[k].frame, curr, width, height, m.config);
    }
  }

  lemma FullFrameCoversUnmatched(m: Model, reference: seq<byte>, width: nat, height: nat)
    ensures forall curr: seq<byte> ::
              CoversUnmatched(Comparison(reference, curr, width, m.config.pixelThreshold), height, [FullFrame(width, height)])
  {
    forall px: nat, py: nat | px < width && py < height
      ensures (px, py) in AllPixels([FullFrame(width, height)])
    {
      assert [FullFrame(width, height)][0].Contains(px, py);
    }
  }

  /** A run on which the detector goes blind: after `update_reference` with an empty buffer it reports
      nothing, whatever the next frame of the same size is. */
  lemma EmptyUpdateBlindsDetector(config: Config, first: seq<byte>, next: seq<byte>, width: nat, height: nat)
    ensures var events := [Event.Detect(first, width, height), Event.UpdateReference([])];
            Run(Model(config, None, None, true), events).Output(next, width, height) == []
  {
    var events := [Event.Detect(first, width, height), Event.UpdateReference([])];
    assert events[..1] == [Event.Detect(first, width, height)] && events[..1][..0] == [];
    assert Run(Model(config, None, None, true), events[..1]) == Model(config, Some(first), Some((width, height)), false);
    EmptyReferenceHidesEverything(next, width, height, config);
  }

  // ---------------------------------------------------------------- statistics over whole runs

  /** The statistics after one call, as the contracts of the detector state them. */
  ghost function StatsAfter(stats: Stats, m: Model, e: Event): Stats {
    match e
    case Detect(frame, width, height) =>
      if m.NeedsFullFrame(width, height) then stats.CountFull(width * height)
      else stats.CountChanges(m.Output(frame, width, height), width * height)
    case ResetStats => NoStats()
    case _ => stats
  }

  ghost function RunStats(m: Model, events: seq<Event>): Stats {
    if events == [] then NoStats()
    else
      var n := |events| - 1;
      StatsAfter(RunStats(m, events[..n]), Run(m, events[..n]), events[n])
  }

  /** The number of detections since the statistics were last reset. */
  function Detections(events: seq<Event>): nat {
    if events == [] || events[|events| - 1].ResetStats? then 0
    else Detections(events[..|events| - 1]) + (if events[|events| - 1].Detect? then 1 else 0)
  }

  lemma OutputFitsFrame(m: Model, frame: seq<byte>, width: nat, height: nat)
    ensures TotalArea(m.Output(frame, width, height)) <= width * height
  {
    if !m.NeedsFullFrame(width, height) {
      ChangesFitFrame(m.reference.value, frame, width, height, m.config);
    }
  }

  lemma CountsStayBalanced(s: Stats, regions: seq<Region>, area: nat)
    requires s.Balanced() && TotalArea(regions) <= area
    ensures s.CountFull(area).Balanced() && s.CountChanges(regions, area).Balanced()
    ensures s.CountFull(area).processed == s.CountChanges(regions, area).processed == s.processed + 1
  {
  }

  lemma StepStaysBalanced(stats: Stats, m: Model, e: Event)
    requires stats.Balanced()
    ensures StatsAfter(stats, m, e).Balanced()
    ensures StatsAfter(stats, m, e).processed
         == if e.ResetStats? then 0 else stats.processed + (if e.Detect? then 1 else 0)
  {
    if e.Detect? {
      OutputFitsFrame(m, e.frame, e.width, e.height);
      CountsStayBalanced(stats, m.Output(e.frame, e.width, e.height), e.width * e.height);
    }
  }

  /** On every run each detection since the last reset is counted once, as skipped, full or partial, and
      the reported damage never exceeds the frame area seen. */
  lemma {:induction false} StatsStayBalanced(m: Model, events: seq<Event>)
    ensures RunStats(m, events).Balanced() && RunStats(m, events).processed == Detections(events)
    decreases |events|
  {
    if events != [] {
      var n := |events| - 1;
      StatsStayBalanced(m, events[..n]);
      StepStaysBalanced(RunStats(m, events[..n]), Run(m, events[..n]), events[n]);
    }
  }

  /** How a detection is counted. */
  datatype Verdict = SkippedFrame | FullFrameVerdict | PartialFrame

  /** Nothing reported is a skipped frame; a report that covers the frame area up to less than a tenth of it,
      rounded, is a full one. */
  function VerdictOf(reported: seq<Region>, area: nat): Verdict {
    if reported == [] then SkippedFrame
    else if 10 * TotalArea(reported) + 9 >= 9 * area then FullFrameVerdict
    else PartialFrame
  }

  /** The detections since the last reset whose report has this verdict. */
  ghost function CountVerdicts(m: Model, events: seq<Event>, v: Verdict): nat {
    if events == [] || events[|events| - 1].ResetStats? then 0
    else
      var n := |events| - 1;
      var e := events[n];
      CountVerdicts(m, events[..n], v)
      + (if e.Detect? && VerdictOf(Run(m, events[..n]).Output(e.frame, e.width, e.height), e.width * e.height) == v then 1 else 0)
  }

  /** The area reported, and the area of the frames seen, since the last reset. */
  ghost function Reported(m: Model, events: seq<Event>): nat {
    if events == [] || events[|events| - 1].ResetStats? then 0
    else
      var n := |events| - 1;
      var e := events[n];
      Reported(m, events[..n]) + (if e.Detect? then TotalArea(Run(m, events[..n]).Output(e.frame, e.width, e.height)) else 0)
  }

  function Seen(events: seq<Event>): nat {
    if events == [] || events[|events| - 1].ResetStats? then 0
    else
      var n := |events| - 1;
      Seen(events[..n]) + (if events[n].Detect? then events[n].width * events[n].height else 0)
  }

  lemma AreaOfOne(r: Region)
    ensures TotalArea([r]) == r.Area()
  {
    assert [r][1..] == [];
  }

  /** One detection adds one to the counter of its verdict, and its areas. */
  lemma DetectIsCountedOnce(stats: Stats, m: Model, e: Event)
    requires e.Detect?
    ensures var after, report, area := StatsAfter(stats, m, e), m.Output(e.frame, e.width, e.height), e.width * e.height;
            && after.skipped == stats.skipped + (if VerdictOf(report, area) == SkippedFrame then 1 else 0)
            && after.full == stats.full + (if VerdictOf(report, area) == FullFrameVerdict then 1 else 0)
            && after.partial == stats.partial + (if VerdictOf(report, area) == PartialFrame then 1 else 0)
            && after.damageArea == stats.damageArea + TotalArea(report) && after.frameArea == stats.frameArea + area
  {
    AreaOfOne(FullFrame(e.width, e.height));
  }

  /** On every run the statistics are exactly the number of skipped, full and partial detections, the area
      reported and the area seen, since the last reset. */
  lemma {:induction false} StatsCountVerdicts(m: Model, events: seq<Event>)
    ensures var stats := RunStats(m, events);
            && stats.skipped == CountVerdicts(m, events, SkippedFrame)
            && stats.full == CountVerdicts(m, events, FullFrameVerdict)
            && stats.partial == CountVerdicts(m, events, PartialFrame)
            && stats.damageArea == Reported(m, events) && stats.frameArea == Seen(events)
    decreases |events|
  {
    if events != [] {
      var n := |events| - 1;
      StatsCountVerdicts(m, events[..n]);
      if events[n].Detect? {
        DetectIsCountedOnce(RunStats(m, events[..n]), Run(m, events[..n]), events[n]);
      }
    }
  }
}
