/** The damage detector (src/damage/mod.rs:489-735). */
module DamageDetection {
  import opened Common
  import opened Regions
  import opened RegionMerging
  import opened MergeProperties
  import opened PixelDiff
  import opened TileGrid
  import opened GridProperties

  /** `DamageConfig`. `dirtyCount` is the number of differing pixels that a tile may have and still be
      clean: the source computes it as a fraction of the full tile area, also for the clipped tiles at
      the edges. A tile size of zero panics in `div_ceil`. */
  datatype ConfigFields = Config(tileSize: nat, dirtyCount: nat, pixelThreshold: byte, mergeDistance: nat,
                                 minRegionArea: nat)

  type Config = c: ConfigFields | c.tileSize > 0 witness Config(64, 204, 4, 32, 256)

  /** `Vec::retain` of the regions with a minimum area. */
  function Retain(rs: seq<Region>, minArea: nat): seq<Region> {
    if rs == [] then []
    else (if rs[0].Area() >= minArea then [rs[0]] else []) + Retain(rs[1..], minArea)
  }

  /** The tiles with more than `dirtyCount` differing pixels. */
  function DirtyTiles(cmp: Comparison, height: nat, config: Config): Selection {
    (tx: nat, ty: nat) => cmp.RectDiff(TileRegion(tx, ty, config.tileSize, cmp.width, height)) > config.dirtyCount
  }

  function SelectedTiles(sel: Selection, width: nat, height: nat, config: Config): seq<Region> {
    GridRegions(sel, DivCeil(height, config.tileSize), DivCeil(width, config.tileSize), config.tileSize, width, height)
  }

  /** The merged rectangles of the dirty tiles, before small ones are dropped. */
  ghost function MergedDirty(cmp: Comparison, height: nat, config: Config): seq<Region> {
    Merged(SelectedTiles(DirtyTiles(cmp, height, config), cmp.width, height, config), config.mergeDistance)
  }

  /** What the detector reports for `curr` against `prev`: a function of the two frames, their
      dimensions and the configuration alone. */
  ghost function Changes(prev: seq<byte>, curr: seq<byte>, width: nat, height: nat, config: Config): seq<Region> {
    Retain(MergedDirty(Comparison(prev, curr, width, config.pixelThreshold), height, config), config.minRegionArea)
  }

  datatype Stats = Stats(processed: nat, skipped: nat, full: nat, partial: nat, damageArea: nat, frameArea: nat) {

    /** Every frame is counted once, and no more damage than frame area is ever reported. */
    predicate Balanced() {
      processed == skipped + full + partial && damageArea <= frameArea
    }

    function CountFull(area: nat): Stats {
      this.(processed := processed + 1, full := full + 1, damageArea := damageArea + area, frameArea := frameArea + area)
    }

    function CountChanges(regions: seq<Region>, area: nat): Stats {
      var damage := TotalArea(regions);
      var s := this.(processed := processed + 1, damageArea := damageArea + damage, frameArea := frameArea + area);
      if regions == [] then s.(skipped := skipped + 1)
      else if damage >= area * 9 / 10 then s.(full := full + 1)
      else s.(partial := partial + 1)
    }
  }

  function NoStats(): Stats {
    Stats(0, 0, 0, 0, 0, 0)
  }

  /** The detector without its reused buffers and its statistics. */
  datatype Model = Model(config: Config, reference: Option<seq<byte>>, dimensions: Option<(nat, nat)>, invalidated: bool) {

    predicate NeedsFullFrame(width: nat, height: nat) {
      reference.None? || invalidated || dimensions != Some((width, height))
    }

    ghost function Output(frame: seq<byte>, width: nat, height: nat): seq<Region> {
      if NeedsFullFrame(width, height) then [FullFrame(width, height)]
      else Changes(reference.value, frame, width, height, config)
    }

    function Step(event: Event): Model {
      match event
      case Detect(frame, width, height) => Model(config, Some(frame), Some((width, height)), false)
      case UpdateReference(frame) => this.(reference := Some(frame))
      case Invalidate => this.(invalidated := true)
      case SetConfig(c) => this.(config := c, invalidated := true)
      case ResetStats => this
    }
  }

  datatype Event =
    | Detect(frame: seq<byte>, width: nat, height: nat)
    | UpdateReference(frame: seq<byte>)
    | Invalidate
    | SetConfig(config: Config)
    | ResetStats

  /** Position (`tx`, `ty`) comes before (`cx`, `cy`) in row-major order. */
  predicate Before(tx: nat, ty: nat, cx: nat, cy: nat) {
    ty < cy || (ty == cy && tx < cx)
  }

  /** The flag vector when the scan has reached tile (`cx`, `cy`). */
  ghost predicate Marked(flags: seq<bool>, sel: Selection, tilesX: nat, tilesY: nat, cx: nat, cy: nat) {
    forall tx: nat, ty: nat :: tx < tilesX && ty < tilesY ==>
      Flat(tx, ty, tilesX) < |flags| && flags[Flat(tx, ty, tilesX)] == (Before(tx, ty, cx, cy) && sel(tx, ty))
  }

  lemma NothingMarked(flags: seq<bool>, sel: Selection, tilesX: nat, tilesY: nat)
    requires |flags| == Flat(0, tilesY, tilesX) && forall i :: 0 <= i < |flags| ==> !flags[i]
    ensures Marked(flags, sel, tilesX, tilesY, 0, 0)
  {
    forall tx: nat, ty: nat | tx < tilesX && ty < tilesY
      ensures Flat(tx, ty, tilesX) < |flags|
    {
      FlatInRange(tx, ty, tilesX, tilesY);
    }
  }

  lemma MarkNext(flags: seq<bool>, sel: Selection, tilesX: nat, tilesY: nat, cx: nat, cy: nat, idx: nat)
    requires Marked(flags, sel, tilesX, tilesY, cx, cy) && cx < tilesX && cy < tilesY && idx == Flat(cx, cy, tilesX)
    ensures idx < |flags| && Marked(flags[idx := sel(cx, cy)], sel, tilesX, tilesY, cx + 1, cy)
    ensures !sel(cx, cy) ==> flags[idx := sel(cx, cy)] == flags
  {
    assert Flat(cx, cy, tilesX) < |flags| && flags[idx] == false;
    forall tx: nat, ty: nat | tx < tilesX && ty < tilesY
      ensures Flat(tx, ty, tilesX) < |flags|
      ensures flags[idx := sel(cx, cy)][Flat(tx, ty, tilesX)] == (Before(tx, ty, cx + 1, cy) && sel(tx, ty))
    {
      if Flat(tx, ty, tilesX) == idx {
        FlatIsInjective(tx, ty, cx, cy, tilesX);
      }
    }
  }

  lemma MarkRowEnd(flags: seq<bool>, sel: Selection, tilesX: nat, tilesY: nat, cy: nat)
    requires Marked(flags, sel, tilesX, tilesY, tilesX, cy)
    ensures Marked(flags, sel, tilesX, tilesY, 0, cy + 1)
  {
  }

  lemma AllMarked(flags: seq<bool>, sel: Selection, tilesX: nat, tilesY: nat)
    requires Marked(flags, sel, tilesX, tilesY, 0, tilesY)
    ensures Flattens(flags, sel, tilesX, tilesY)
  {
  }

  lemma ReportIsChanges(cmp: Comparison, height: nat, config: Config, tiles: seq<Region>, merged: seq<Region>)
    requires tiles == SelectedTiles(DirtyTiles(cmp, height, config), cmp.width, height, config)
    requires IsMergeOf(tiles, config.mergeDistance, merged) && cmp.threshold == config.pixelThreshold
    ensures Retain(merged, config.minRegionArea) == Changes(cmp.prev, cmp.curr, cmp.width, height, config)
  {
    MergeIsUnique(tiles, config.mergeDistance, merged, MergedDirty(cmp, height, config));
  }

  class DamageDetector {
    var config: Config
    var previousFrame: Option<seq<byte>>
    var previousDimensions: Option<(nat, nat)>
    var tileDirty: seq<bool>
    var tilesX: nat
    var tilesY: nat
    var stats: Stats
    var invalidated: bool

    function Abs(): Model
      reads this
    {
      Model(config, previousFrame, previousDimensions, invalidated)
    }

    ghost predicate GridMatches(width: nat, height: nat)
      reads this
    {
      tilesX == DivCeil(width, config.tileSize) && tilesY == DivCeil(height, config.tileSize)
      && |tileDirty| == Flat(0, tilesY, tilesX)
    }

    /** The reused tile grid fits the stored dimensions whenever it may be reused. */
    ghost predicate Valid()
      reads this
    {
      && stats.Balanced()
      && match previousDimensions
         case None => true
         case Some(d) => invalidated || GridMatches(d.0, d.1)
    }

    constructor (config: Config)
      ensures Valid() && Abs() == Model(config, None, None, true) && stats == NoStats()
    {
      this.config := config;
      previousFrame, previousDimensions := None, None;
      tileDirty, tilesX, tilesY := [], 0, 0;
      stats, invalidated := NoStats(), true;
    }

    method Detect(cpu: Cpu, frame: seq<byte>, width: nat, height: nat) returns (regions: seq<Region>)
      requires Valid() && |frame| == width * height * 4
      modifies this
      ensures Valid()
      ensures regions == old(Abs()).Output(frame, width, height)
      ensures Abs() == old(Abs()).Step(Event.Detect(frame, width, height))
      ensures stats == if old(Abs()).NeedsFullFrame(width, height) then old(stats).CountFull(width * height)
                       else old(stats).CountChanges(regions, width * height)
    {
      var dimensionsChanged :=
        previousDimensions.None? || previousDimensions.value.0 != width || previousDimensions.value.1 != height;
      if previousFrame.None? || invalidated || dimensionsChanged {
        UpdateTileGrid(width, height);
        previousFrame := Some(frame);
        previousDimensions := Some((width, height));
        invalidated := false;
        stats := stats.CountFull(width * height);
        return [FullFrame(width, height)];
      }
      var prev := previousFrame.value;
      regions := DetectChanges(cpu, prev, frame, width, height);
      ChangesFitFrame(prev, frame, width, height, config);
      stats := stats.CountChanges(regions, width * height);
      previousFrame := Some(frame);
    }

    method UpdateReference(frame: seq<byte>)
      requires Valid()
      modifies this`previousFrame
      ensures Valid() && Abs() == old(Abs()).Step(Event.UpdateReference(frame))
    {
      previousFrame := Some(frame);
    }

    method Invalidate()
      requires stats.Balanced()
      modifies this`invalidated
      ensures Valid() && Abs() == old(Abs()).Step(Event.Invalidate)
    {
      invalidated := true;
    }

    method SetConfig(config: Config)
      requires Valid()
      modifies this`config, this`invalidated
      ensures Valid() && Abs() == old(Abs()).Step(Event.SetConfig(config))
    {
      this.config := config;
      Invalidate();
    }

    method ResetStats()
      requires Valid()
      modifies this`stats
      ensures Valid() && stats == NoStats() && Abs() == old(Abs()).Step(Event.ResetStats)
    {
      stats := NoStats();
    }

    method UpdateTileGrid(width: nat, height: nat)
      modifies this`tilesX, this`tilesY, this`tileDirty
      ensures GridMatches(width, height)
    {
      tilesX := DivCeil(width, config.tileSize);
      tilesY := DivCeil(height, config.tileSize);
      var totalTiles := tilesX * tilesY;
      FlatIsRowMajor(0, tilesY, tilesX);
      if |tileDirty| != totalTiles {
        tileDirty := seq(totalTiles, _ => false);
      }
    }

    /** The flags left over from the previous frame play no part. */
    method DetectChanges(cpu: Cpu, prev: seq<byte>, curr: seq<byte>, width: nat, height: nat)
      returns (regions: seq<Region>)
      requires GridMatches(width, height)
      modifies this`tileDirty
      ensures GridMatches(width, height)
      ensures regions == Changes(prev, curr, width, height, config)
    {
      ghost var cmp := Comparison(prev, curr, width, config.pixelThreshold);
      ghost var sel := DirtyTiles(cmp, height, config);
      MarkTiles(cpu, prev, curr, width, height, cmp);
      var tiles := TilesToRegions(tileDirty, tilesX, tilesY, config.tileSize, width, height, sel);
      var merged := MergeRegions(tiles, config.mergeDistance);
      ReportIsChanges(cmp, height, config, tiles, merged);
      regions := Retain(merged, config.minRegionArea);
    }

    /** The tile loop of `detect_changes`. */
    method MarkTiles(cpu: Cpu, prev: seq<byte>, curr: seq<byte>, width: nat, height: nat, ghost cmp: Comparison)
      requires GridMatches(width, height) && cmp == Comparison(prev, curr, width, config.pixelThreshold)
      modifies this`tileDirty
      ensures Flattens(tileDirty, DirtyTiles(cmp, height, config), tilesX, tilesY)
      ensures |tileDirty| == old(|tileDirty|)
    {
      var tileSize, stride := config.tileSize, width * 4;
      ghost var sel := DirtyTiles(cmp, height, config);
      tileDirty := seq(|tileDirty|, _ => false);
      NothingMarked(tileDirty, sel, tilesX, tilesY);
      for ty := 0 to tilesY
        invariant Marked(tileDirty, sel, tilesX, tilesY, 0, ty) && |tileDirty| == old(|tileDirty|)
      {
        for tx := 0 to tilesX
          invariant Marked(tileDirty, sel, tilesX, tilesY, tx, ty) && |tileDirty| == old(|tileDirty|)
        {
          var tile := TileRegion(tx, ty, tileSize, width, height);
          var idx := ty * tilesX + tx;
          FlatIsRowMajor(tx, ty, tilesX);
          MarkNext(tileDirty, sel, tilesX, tilesY, tx, ty, idx);
          if tile.width == 0 || tile.height == 0 {
            EmptyRectDiff(cmp, tile);
            continue;
          }
          var diffCount := CompareTile(cpu, prev, curr, tile, stride, config.pixelThreshold, cmp);
          tileDirty := tileDirty[idx := diffCount > config.dirtyCount];
        }
        MarkRowEnd(tileDirty, sel, tilesX, tilesY, ty);
      }
      AllMarked(tileDirty, sel, tilesX, tilesY);
    }
  }

  // ---------------------------------------------------------------- where the rectangles lie

  lemma {:induction false} RetainKeeps(rs: seq<Region>, minArea: nat, r: Region)
    ensures r in Retain(rs, minArea) <==> r in rs && r.Area() >= minArea
  {
    if rs != [] {
      RetainKeeps(rs[1..], minArea, r);
      assert rs == [rs[0]] + rs[1..];
    }
  }

  /** `part` arises from `whole` by leaving entries out. */
  predicate Subsequence(part: seq<Region>, whole: seq<Region>)
    decreases |whole|
  {
    || part == []
    || (whole != [] && part[0] == whole[0] && Subsequence(part[1..], whole[1..]))
    || (whole != [] && Subsequence(part, whole[1..]))
  }

  /** The retained regions keep their order. */
  lemma {:induction false} RetainKeepsOrder(rs: seq<Region>, minArea: nat)
    ensures Subsequence(Retain(rs, minArea), rs)
  {
    if rs != [] {
      RetainKeepsOrder(rs[1..], minArea);
      var rest := Retain(rs[1..], minArea);
      assert ([rs[0]] + rest)[1..] == rest && [] + rest == rest;
    }
  }

  lemma {:induction false} RetainStaysDisjoint(rs: seq<Region>, minArea: nat)
    requires PairwiseDisjoint(rs)
    ensures PairwiseDisjoint(Retain(rs, minArea))
  {
    if rs != [] {
      RetainStaysDisjoint(rs[1..], minArea);
      var rest := Retain(rs[1..], minArea);
      forall j | 0 <= j < |rest|
        ensures rest[j] in rs[1..]
      {
        RetainKeeps(rs[1..], minArea, rest[j]);
      }
    }
  }

  lemma SelectedTilesWithinFrame(sel: Selection, width: nat, height: nat, config: Config)
    ensures forall t :: 0 <= t < |SelectedTiles(sel, width, height, config)| ==>
                          SelectedTiles(sel, width, height, config)[t].Within(FullFrame(width, height))
  {
    var tiles := SelectedTiles(sel, width, height, config);
    forall t | 0 <= t < |tiles|
      ensures tiles[t].Within(FullFrame(width, height))
    {
      GridRegionsMember(sel, DivCeil(height, config.tileSize), DivCeil(width, config.tileSize), config.tileSize,
                        width, height, tiles[t]);
      var tx: nat, ty: nat :|
        tx < DivCeil(width, config.tileSize) && ty < DivCeil(height, config.tileSize)
        && IsTile(sel, tiles[t], tx, ty, config.tileSize, width, height);
      TileWithinFrame(tx, ty, config.tileSize, width, height);
    }
  }

  /** Reported rectangles lie inside the frame, share no pixel, and so cover at most the frame. This
      holds for reference frames of any length. */
  lemma ChangesFitFrame(prev: seq<byte>, curr: seq<byte>, width: nat, height: nat, config: Config)
    ensures forall r :: r in Changes(prev, curr, width, height, config) ==> r.Within(FullFrame(width, height))
    ensures PairwiseDisjoint(Changes(prev, curr, width, height, config))
    ensures TotalArea(Changes(prev, curr, width, height, config)) <= width * height
  {
    var cmp := Comparison(prev, curr, width, config.pixelThreshold);
    var sel := DirtyTiles(cmp, height, config);
    var merged, regions := MergedDirty(cmp, height, config), Changes(prev, curr, width, height, config);
    SelectedTilesWithinFrame(sel, width, height, config);
    MergeStaysInFrame(SelectedTiles(sel, width, height, config), config.mergeDistance, merged, FullFrame(width, height));
    RetainStaysDisjoint(merged, config.minRegionArea);
    forall r | r in regions
      ensures r.Within(FullFrame(width, height))
    {
      RetainKeeps(merged, config.minRegionArea, r);
    }
    DisjointAreasFitFrame(regions, FullFrame(width, height));
  }
}
