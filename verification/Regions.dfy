/** Rectangle geometry of `DamageRegion` (src/damage/mod.rs). */
module Regions {
  import opened Common

  /** A rectangle of pixels. Coordinates are unbounded here; `UnionIsLeastCover` shows that the
      union of two rectangles of a frame stays in that frame, so the `u32` sums of the source never
      wrap on the rectangles of a frame with `u32` dimensions. */
  datatype Region = Region(x: nat, y: nat, width: nat, height: nat) {

    function Right(): nat { x + width }

    function Bottom(): nat { y + height }

    function Area(): nat { width * height }

    predicate Overlaps(other: Region) {
      x < other.Right() && Right() > other.x && y < other.Bottom() && Bottom() > other.y
    }

    predicate Contains(px: int, py: int) {
      px >= x && px < Right() && py >= y && py < Bottom()
    }

    function Union(other: Region): Region {
      var left := Min(x, other.x);
      var top := Min(y, other.y);
      var right := Max(Right(), other.Right());
      var bottom := Max(Bottom(), other.Bottom());
      Region(left, top, right - left, bottom - top)
    }

    predicate IsAdjacent(other: Region, mergeDistance: nat) {
      var gapX := if other.x >= Right() then other.x - Right() else SaturatingSub(x, other.Right());
      var gapY := if other.y >= Bottom() then other.y - Bottom() else SaturatingSub(y, other.Bottom());
      gapX <= mergeDistance && gapY <= mergeDistance
    }

    /** All four sides of this rectangle lie within those of `outer`. */
    predicate Within(outer: Region) {
      outer.x <= x && outer.y <= y && Right() <= outer.Right() && Bottom() <= outer.Bottom()
    }
  }

  function FullFrame(width: nat, height: nat): Region {
    Region(0, 0, width, height)
  }

  /** The full frame contains exactly the pixels with coordinates below its dimensions. */
  lemma FullFramePixels(width: nat, height: nat, px: int, py: int)
    ensures FullFrame(width, height).Contains(px, py) <==> 0 <= px < width && 0 <= py < height
  {
  }

  /** Two pixels are at most `n` apart in both axes. */
  predicate Near(px: int, py: int, qx: int, qy: int, n: nat) {
    px - qx <= n && qx - px <= n && py - qy <= n && qy - py <= n
  }

  /** The coordinates at which two non-empty intervals come closest. */
  function Closest(a: int, aEnd: int, b: int, bEnd: int): (int, int) {
    if b >= aEnd then (aEnd - 1, b) else if a >= bEnd then (a, bEnd - 1) else (Max(a, b), Max(a, b))
  }

  /** Adjacency at distance `d` means that some pixel of one rectangle is at most `d + 1` away, in both
      axes, from some pixel of the other: at most `d` pixels lie between them. */
  lemma AdjacentIffPixelsNear(a: Region, b: Region, d: nat)
    requires a.width > 0 && a.height > 0 && b.width > 0 && b.height > 0
    ensures a.IsAdjacent(b, d)
       <==> exists px, py, qx, qy :: a.Contains(px, py) && b.Contains(qx, qy) && Near(px, py, qx, qy, d + 1)
  {
    var x, y := Closest(a.x, a.Right(), b.x, b.Right()), Closest(a.y, a.Bottom(), b.y, b.Bottom());
    assert a.Contains(x.0, y.0) && b.Contains(x.1, y.1);
    if a.IsAdjacent(b, d) {
      assert Near(x.0, y.0, x.1, y.1, d + 1);
    }
  }

  /** Overlap means sharing a pixel. */
  lemma OverlapsIffCommonPixel(a: Region, b: Region)
    requires a.width > 0 && a.height > 0 && b.width > 0 && b.height > 0
    ensures a.Overlaps(b) <==> exists px, py :: a.Contains(px, py) && b.Contains(px, py)
  {
    if a.Overlaps(b) {
      assert a.Contains(Max(a.x, b.x), Max(a.y, b.y)) && b.Contains(Max(a.x, b.x), Max(a.y, b.y));
    }
  }

  /** `union` is the least rectangle that contains both operands. */
  lemma UnionIsLeastCover(a: Region, b: Region, r: Region)
    ensures a.Within(a.Union(b)) && b.Within(a.Union(b))
    ensures a.Within(r) && b.Within(r) ==> a.Union(b).Within(r)
  {
  }

  /** Adjacency only grows when either rectangle grows. */
  lemma AdjacencyMonotone(a: Region, b: Region, a': Region, b': Region, d: nat)
    requires a.Within(a') && b.Within(b') && a.IsAdjacent(b, d)
    ensures a'.IsAdjacent(b', d) && b'.IsAdjacent(a', d)
  {
  }

  /** Rectangles that are not adjacent share no pixel, at every merge distance. */
  lemma NonAdjacentAreDisjoint(a: Region, b: Region, d: nat, px: int, py: int)
    requires !a.IsAdjacent(b, d)
    ensures !(a.Contains(px, py) && b.Contains(px, py))
  {
  }

  ghost function Pixels(r: Region): (s: set<(int, int)>)
    ensures forall p :: p in s <==> r.Contains(p.0, p.1)
  {
    set px, py | r.x <= px < r.Right() && r.y <= py < r.Bottom() :: (px, py)
  }

  /** The pixels of a rectangle that satisfy a condition. */
  ghost function Select(f: (int, int) -> bool, r: Region): (s: set<(int, int)>)
    ensures forall p :: p in s <==> r.Contains(p.0, p.1) && f(p.0, p.1)
  {
    set p | p in Pixels(r) && f(p.0, p.1)
  }

  lemma SelectEmpty(f: (int, int) -> bool, r: Region)
    requires r.width == 0 || r.height == 0
    ensures Select(f, r) == {}
  {
  }

  /** Cutting a rectangle by a vertical line splits the selected pixels. */
  lemma SelectSideBySide(f: (int, int) -> bool, whole: Region, left: Region, right: Region)
    requires whole.x == left.x && left.Right() == right.x && right.Right() == whole.Right()
    requires whole.y == left.y == right.y && whole.height == left.height == right.height
    ensures |Select(f, whole)| == |Select(f, left)| + |Select(f, right)|
  {
    assert Select(f, whole) == Select(f, left) + Select(f, right);
    assert Select(f, left) !! Select(f, right);
  }

  /** Cutting a rectangle by a horizontal line splits the selected pixels. */
  lemma SelectStacked(f: (int, int) -> bool, whole: Region, upper: Region, lower: Region)
    requires whole.y == upper.y && upper.Bottom() == lower.y && lower.Bottom() == whole.Bottom()
    requires whole.x == upper.x == lower.x && whole.width == upper.width == lower.width
    ensures |Select(f, whole)| == |Select(f, upper)| + |Select(f, lower)|
  {
    assert Select(f, whole) == Select(f, upper) + Select(f, lower);
    assert Select(f, upper) !! Select(f, lower);
  }

  lemma SelectOne(f: (int, int) -> bool, px: nat, py: nat)
    ensures |Select(f, Region(px, py, 1, 1))| == if f(px, py) then 1 else 0
  {
    assert Select(f, Region(px, py, 1, 1)) == if f(px, py) then {(px, py)} else {};
  }

  ghost function RowPixels(x: nat, width: nat, py: int): (s: set<(int, int)>)
    ensures forall p :: p in s <==> x <= p.0 < x + width && p.1 == py
  {
    set px | x <= px < x + width :: (px, py)
  }

  lemma {:induction false} RowCardinality(x: nat, width: nat, py: int)
    ensures |RowPixels(x, width, py)| == width
  {
    if width == 0 {
      assert RowPixels(x, width, py) == {};
    } else {
      RowCardinality(x, width - 1, py);
      assert RowPixels(x, width, py) == RowPixels(x, width - 1, py) + {(x + width - 1, py)};
    }
  }

  lemma SplitLastRow(r: Region, above: Region)
    requires r.height > 0 && above == Region(r.x, r.y, r.width, r.height - 1)
    ensures Pixels(r) == Pixels(above) + RowPixels(r.x, r.width, above.Bottom())
    ensures Pixels(above) !! RowPixels(r.x, r.width, above.Bottom())
  {
  }

  lemma EmptyPixels(r: Region)
    requires r.height == 0
    ensures |Pixels(r)| == 0
  {
  }

  lemma AreaOfOneMoreRow(r: Region, above: Region)
    requires r.height > 0 && above == Region(r.x, r.y, r.width, r.height - 1)
    ensures r.Area() == above.Area() + r.width
  {
  }

  /** The area of a rectangle is its number of pixels. */
  lemma {:induction false} AreaCountsPixels(r: Region)
    ensures |Pixels(r)| == r.Area()
    decreases r.height
  {
    if r.height == 0 {
      EmptyPixels(r);
    } else {
      var above := Region(r.x, r.y, r.width, r.height - 1);
      AreaCountsPixels(above);
      RowCardinality(r.x, r.width, above.Bottom());
      SplitLastRow(r, above);
      AreaOfOneMoreRow(r, above);
    }
  }

  function TotalArea(rs: seq<Region>): nat {
    if rs == [] then 0 else rs[0].Area() + TotalArea(rs[1..])
  }

  ghost predicate PairwiseDisjoint(rs: seq<Region>) {
    forall i, j, px, py :: 0 <= i < j < |rs| ==> !(rs[i].Contains(px, py) && rs[j].Contains(px, py))
  }

  ghost function AllPixels(rs: seq<Region>): (s: set<(int, int)>)
    ensures forall p :: p in s <==> exists i :: 0 <= i < |rs| && rs[i].Contains(p.0, p.1)
  {
    if rs == [] then {} else Pixels(rs[0]) + AllPixels(rs[1..])
  }

  /** Disjoint rectangles have as many pixels as the sum of their areas. */
  lemma {:induction false} DisjointAreasCountPixels(rs: seq<Region>)
    requires PairwiseDisjoint(rs)
    ensures |AllPixels(rs)| == TotalArea(rs)
  {
    if rs != [] {
      DisjointAreasCountPixels(rs[1..]);
      AreaCountsPixels(rs[0]);
      assert Pixels(rs[0]) !! AllPixels(rs[1..]);
    }
  }

  lemma SubsetCardinality<T>(a: set<T>, b: set<T>)
    requires a <= b
    ensures |a| <= |b|
  {
    assert b == a + (b - a);
  }

  /** Disjoint rectangles inside a frame cover at most the frame. */
  lemma DisjointAreasFitFrame(rs: seq<Region>, frame: Region)
    requires PairwiseDisjoint(rs)
    requires forall i :: 0 <= i < |rs| ==> rs[i].Within(frame)
    ensures TotalArea(rs) <= frame.Area()
  {
    DisjointAreasCountPixels(rs);
    AreaCountsPixels(frame);
    assert AllPixels(rs) <= Pixels(frame);
    SubsetCardinality(AllPixels(rs), Pixels(frame));
  }
}
