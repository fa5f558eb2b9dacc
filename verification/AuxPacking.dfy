/**
 Splitting a YUV 4:4:4 frame into the two 4:2:0 views of AVC444 (src/egfx/yuv444_packing.rs:208-495), and
 which chroma samples the auxiliary view still holds.
 */
module AuxPacking {
  import opened Common
  import opened ColorKernels
  import opened ChromaSubsample

  datatype Chroma = U | V

  function PlaneOf(f: Planes, c: Chroma): seq<byte> {
    if c == U then f.u else f.v
  }

  predicate Sized(f: Planes, width: nat, height: nat) {
    |f.y| == |f.u| == |f.v| == Flat(0, height, width)
  }

  function Neutral(n: nat): (s: seq<byte>)
    ensures |s| == n
  {
    seq(n, _ => 128)
  }

  // ---------------------------------------------------------------- the luma plane of the auxiliary view

  /** The chroma row that row `r` of the auxiliary luma plane carries: in each macroblock of sixteen rows,
      eight odd rows of U, then the same eight odd rows of V. */
  function SourceRow(r: nat): nat {
    2 * (8 * (r / 16) + (if r % 16 < 8 then r % 16 else r % 16 - 8)) + 1
  }

  function SourcePlane(r: nat): Chroma {
    if r % 16 < 8 then U else V
  }

  function PlaneRow(plane: seq<byte>, width: nat, height: nat, y: nat): (s: seq<byte>)
    requires |plane| == Flat(0, height, width) && y < height
    ensures |s| == width
  {
    FlatMonotone(y, height, width);
    plane[Flat(0, y, width)..Flat(0, y, width) + width]
  }

  function AuxRow(f: Planes, width: nat, height: nat, r: nat): (s: seq<byte>)
    requires Sized(f, width, height)
    ensures |s| == width
  {
    if SourceRow(r) >= height then Neutral(width)
    else PlaneRow(PlaneOf(f, SourcePlane(r)), width, height, SourceRow(r))
  }

  /** The first `n` rows of the auxiliary luma plane. */
  function AuxRows(f: Planes, width: nat, height: nat, n: nat): (s: seq<byte>)
    requires Sized(f, width, height)
    ensures |s| == Flat(0, n, width)
  {
    if n == 0 then [] else AuxRows(f, width, height, n - 1) + AuxRow(f, width, height, n - 1)
  }

  lemma {:induction false} AuxRowsPrefix(f: Planes, width: nat, height: nat, n: nat, m: nat)
    requires Sized(f, width, height) && n <= m
    ensures AuxRows(f, width, height, n) <= AuxRows(f, width, height, m)
    decreases m
  {
    if n < m {
      AuxRowsPrefix(f, width, height, n, m - 1);
    }
  }

  method CopyRow(a: array<byte>, at: nat, row: seq<byte>)
    requires at + |row| <= a.Length
    modifies a
    ensures a[..] == old(a[..at]) + row + old(a[at + |row|..])
  {
    for j := 0 to |row|
      invariant a[..] == old(a[..at]) + row[..j] + old(a[at + j..])
    {
      a[at + j] := row[j];
    }
  }

  lemma NextAuxRow(f: Planes, width: nat, height: nat, r: nat, n: nat, before: seq<byte>, row: seq<byte>)
    requires Sized(f, width, height) && row == AuxRow(f, width, height, r) && Flat(0, r, width) + width <= n
    requires before == AuxRows(f, width, height, r) + Neutral(n - Flat(0, r, width))
    ensures before[..Flat(0, r, width)] + row + before[Flat(0, r, width) + width..]
         == AuxRows(f, width, height, r + 1) + Neutral(n - Flat(0, r + 1, width))
  {
    var at := Flat(0, r, width);
    assert before[..at] == AuxRows(f, width, height, r);
    assert before[at + width..] == Neutral(n - at - width);
  }

  /** A row beyond the frame keeps its neutral samples. */
  lemma SkippedAuxRow(f: Planes, width: nat, height: nat, r: nat, n: nat, before: seq<byte>)
    requires Sized(f, width, height) && SourceRow(r) >= height && Flat(0, r, width) + width <= n
    requires before == AuxRows(f, width, height, r) + Neutral(n - Flat(0, r, width))
    ensures before == AuxRows(f, width, height, r + 1) + Neutral(n - Flat(0, r + 1, width))
  {
    var at := Flat(0, r, width);
    assert Neutral(n - at) == Neutral(width) + Neutral(n - at - width);
  }

  /** Cutting the padded plane leaves the rows of the frame. */
  lemma CutToHeight(f: Planes, width: nat, height: nat, padded: nat, plane: seq<byte>)
    requires Sized(f, width, height) && height <= padded && plane == AuxRows(f, width, height, padded) + Neutral(0)
    ensures Flat(0, height, width) <= |plane| && plane[..Flat(0, height, width)] == AuxRows(f, width, height, height)
  {
    AuxRowsPrefix(f, width, height, height, padded);
  }

  lemma DivMod16(r: nat, q: nat, m: nat)
    requires r == 16 * q + m && m < 16
    ensures r / 16 == q && r % 16 == m
  {
  }

  /** The U and V row counters of the packing loop when it reaches row `r`. */
  predicate Counters(r: nat, uRow: nat, vRow: nat) {
    && uRow == 8 * (r / 16) + (if r % 16 < 8 then r % 16 else 8)
    && vRow == 8 * (r / 16) + (if r % 16 < 8 then 0 else r % 16 - 8)
  }

  lemma CountersStep(r: nat, uRow: nat, vRow: nat)
    requires Counters(r, uRow, vRow)
    ensures if r % 16 < 8 then 2 * uRow + 1 == SourceRow(r) && Counters(r + 1, uRow + 1, vRow)
            else 2 * vRow + 1 == SourceRow(r) && Counters(r + 1, uRow, vRow + 1)
  {
    if r % 16 == 15 {
      DivMod16(r + 1, r / 16 + 1, 0);
    } else {
      DivMod16(r + 1, r / 16, r % 16 + 1);
    }
  }

  /** The first `r` rows of the padded plane are packed, the others are still neutral. */
  ghost predicate Packed(plane: seq<byte>, f: Planes, width: nat, height: nat, r: nat, n: nat) {
    && Sized(f, width, height) && Flat(0, r, width) <= n
    && plane == AuxRows(f, width, height, r) + Neutral(n - Flat(0, r, width))
  }

  /** One row of the packing loop: padding rows beyond the frame are skipped, others copied whole. */
  method PackAuxRow(a: array<byte>, f: Planes, width: nat, height: nat, auxRow: nat, sourceRow: nat, ghost n: nat)
    requires Packed(a[..], f, width, height, auxRow, n) && Flat(0, auxRow, width) + width <= n
    requires sourceRow == SourceRow(auxRow)
    modifies a
    ensures Packed(a[..], f, width, height, auxRow + 1, n)
  {
    ghost var before := a[..];
    if sourceRow >= height {
      SkippedAuxRow(f, width, height, auxRow, n, before);
      return;
    }
    FlatIsRowMajor(0, auxRow, width);
    var row := ReadRow(if auxRow % 16 < 8 then f.u else f.v, width, height, sourceRow);
    NextAuxRow(f, width, height, auxRow, n, before, row);
    assert before[..Flat(0, auxRow, width)] == a[..Flat(0, auxRow, width)];
    assert before[Flat(0, auxRow, width) + width..] == a[Flat(0, auxRow, width) + width..];
    CopyRow(a, auxRow * width, row);
  }

  method ReadRow(plane: seq<byte>, width: nat, height: nat, y: nat) returns (row: seq<byte>)
    requires |plane| == Flat(0, height, width) && y < height
    ensures row == PlaneRow(plane, width, height, y)
  {
    FlatIsRowMajor(0, y, width);
    FlatMonotone(y, height, width);
    var start := y * width;
    row := plane[start..start + width];
  }

  /** The first part of `pack_auxiliary_view_spec_compliant`: odd rows into a plane that is padded to whole
      macroblocks, and then cut to the height of the frame. */
  method PackOddRows(f: Planes, width: nat, height: nat) returns (auxY: seq<byte>)
    requires Sized(f, width, height)
    ensures auxY == AuxRows(f, width, height, height)
  {
    var paddedHeight := (height + 15) / 16 * 16;
    ghost var n := Flat(0, paddedHeight, width);
    FlatIsRowMajor(0, paddedHeight, width);
    var a := new byte[paddedHeight * width](_ => 128);
    var uRow, vRow := 0, 0;
    assert a[..] == AuxRows(f, width, height, 0) + Neutral(n);
    for auxRow := 0 to paddedHeight
      invariant Counters(auxRow, uRow, vRow)
      invariant Packed(a[..], f, width, height, auxRow, n)
    {
      FlatMonotone(auxRow, paddedHeight, width);
      CountersStep(auxRow, uRow, vRow);
      var sourceRow;
      if auxRow % 16 < 8 {
        sourceRow := 2 * uRow + 1;
        uRow := uRow + 1;
      } else {
        sourceRow := 2 * vRow + 1;
        vRow := vRow + 1;
      }
      PackAuxRow(a, f, width, height, auxRow, sourceRow, n);
    }
    FlatIsRowMajor(0, height, width);
    CutToHeight(f, width, height, paddedHeight, a[..]);
    auxY := a[..height * width];
  }

  // ---------------------------------------------------------------- the chroma planes of the auxiliary view

  /** The samples of row `y` in odd columns. */
  function OddColumns(plane: seq<byte>, width: nat, height: nat, y: nat): (s: seq<byte>)
    requires |plane| == Flat(0, height, width) && y < height
    ensures |s| == width / 2
  {
    FlatMonotone(y, height, width);
    seq(width / 2, cx requires 0 <= cx < width / 2 => plane[Flat(0, y, width) + 2 * cx + 1])
  }

  /** The odd columns of the first `n` even rows. */
  function EvenRows(plane: seq<byte>, width: nat, height: nat, n: nat): (s: seq<byte>)
    requires |plane| == Flat(0, height, width) && 2 * n <= height
    ensures |s| == Flat(0, n, width / 2)
  {
    if n == 0 then []
    else EvenRows(plane, width, height, n - 1) + OddColumns(plane, width, height, 2 * (n - 1))
  }

  lemma NextSample(done: seq<byte>, n: nat, v: byte)
    requires n > 0
    ensures (done + Neutral(n))[|done| := v] == done + [v] + Neutral(n - 1)
  {
  }

  /** The second part of `pack_auxiliary_view_spec_compliant`, for one of the two planes. */
  method PackOddColumns(plane: seq<byte>, width: nat, height: nat) returns (out: seq<byte>)
    requires |plane| == Flat(0, height, width)
    ensures out == EvenRows(plane, width, height, height / 2)
  {
    var chromaWidth, chromaHeight := width / 2, height / 2;
    FlatIsRowMajor(0, chromaHeight, chromaWidth);
    var a := new byte[chromaWidth * chromaHeight](_ => 128);
    ghost var n := Flat(0, chromaHeight, chromaWidth);
    assert a[..] == EvenRows(plane, width, height, 0) + Neutral(n);
    for cy := 0 to chromaHeight
      invariant Flat(0, cy, chromaWidth) <= n
      invariant a[..] == EvenRows(plane, width, height, cy) + Neutral(n - Flat(0, cy, chromaWidth))
    {
      FlatMonotone(cy, chromaHeight, chromaWidth);
      ghost var rows := EvenRows(plane, width, height, cy);
      PackOneRow(a, plane, width, height, cy, rows, n - Flat(0, cy, chromaWidth));
    }
    out := a[..];
  }

  /** The inner loop: the odd columns of one even row. */
  method PackOneRow(a: array<byte>, plane: seq<byte>, width: nat, height: nat, cy: nat, ghost rows: seq<byte>, ghost free: nat)
    requires |plane| == Flat(0, height, width) && 2 * cy < height && |rows| == Flat(0, cy, width / 2)
    requires width / 2 <= free && a[..] == rows + Neutral(free)
    modifies a
    ensures a[..] == rows + OddColumns(plane, width, height, 2 * cy) + Neutral(free - width / 2)
  {
    var chromaWidth, y := width / 2, cy * 2;
    ghost var row := OddColumns(plane, width, height, y);
    FlatIsRowMajor(0, y, width);
    FlatIsRowMajor(0, cy, chromaWidth);
    FlatMonotone(y, height, width);
    assert rows + row[..0] == rows;
    for cx := 0 to chromaWidth
      invariant a[..] == rows + row[..cx] + Neutral(free - cx)
    {
      var x := cx * 2 + 1;
      var idx, outIdx := y * width + x, cy * chromaWidth + cx;
      NextSample(rows + row[..cx], free - cx, plane[idx]);
      assert row[..cx + 1] == row[..cx] + [plane[idx]];
      assert rows + row[..cx + 1] == rows + row[..cx] + [plane[idx]];
      assert a.Length == |rows| + free;
      ghost var before := a[..];
      a[outIdx] := plane[idx];
      assert a[..] == before[outIdx := plane[idx]];
    }
    assert row[..chromaWidth] == row;
  }

  // ---------------------------------------------------------------- both views

  function AuxView(f: Planes, width: nat, height: nat): Planes
    requires Sized(f, width, height)
  {
    Planes(AuxRows(f, width, height, height), EvenRows(f.u, width, height, height / 2),
           EvenRows(f.v, width, height, height / 2))
  }

  function MainView(f: Planes, width: nat): Planes {
    Planes(f.y, Subsampled(f.u, width / 2), Subsampled(f.v, width / 2))
  }

  /** `pack_dual_views`. The subsampling asserts even dimensions. */
  method PackDualViews(cpu: Cpu, f: Planes, width: nat, height: nat) returns (main: Planes, aux: Planes)
    requires Sized(f, width, height) && width % 2 == 0 && height % 2 == 0
    ensures main == MainView(f, width) && aux == AuxView(f, width, height)
  {
    FlatIsRowMajor(0, height, width);
    var mainU := SubsampleChroma420(cpu, f.u, width, height);
    var mainV := SubsampleChroma420(cpu, f.v, width, height);
    main := Planes(f.y, mainU, mainV);
    var auxY := PackOddRows(f, width, height);
    var auxU := PackOddColumns(f.u, width, height);
    var auxV := PackOddColumns(f.v, width, height);
    aux := Planes(auxY, auxU, auxV);
  }

  // ---------------------------------------------------------------- which samples survive

  /** The row of the padded auxiliary luma plane that carries an odd chroma row. */
  function HomeRow(c: Chroma, y: nat): nat {
    16 * (y / 16) + y % 16 / 2 + (if c == U then 0 else 8)
  }

  lemma HomeInBlock(c: Chroma, q: nat, i: nat, r: nat)
    requires i < 8 && r == 16 * q + i + (if c == U then 0 else 8)
    ensures SourceRow(r) == 16 * q + 2 * i + 1 && SourcePlane(r) == c && HomeRow(c, 16 * q + 2 * i + 1) == r
  {
    DivMod16(r, q, i + (if c == U then 0 else 8));
    DivMod16(16 * q + 2 * i + 1, q, 2 * i + 1);
  }

  lemma {:induction false} HomeRowCarries(c: Chroma, y: nat)
    requires y % 2 == 1
    ensures SourceRow(HomeRow(c, y)) == y && SourcePlane(HomeRow(c, y)) == c
  {
    var q := y / 16;
    var i := y / 2 - 8 * q;
    assert y == 2 * (y / 2) + 1 && y % 16 == 2 * i + 1;
    HomeInBlock(c, q, i, 16 * q + i + (if c == U then 0 else 8));
  }

  lemma {:induction false} CarriedIsHome(r: nat)
    ensures HomeRow(SourcePlane(r), SourceRow(r)) == r
  {
    HomeInBlock(SourcePlane(r), r / 16, if r % 16 < 8 then r % 16 else r % 16 - 8, r);
  }

  /** Each odd row of U or V is carried by exactly one row of the padded plane. */
  lemma {:induction false} HomeRowIsUnique(c: Chroma, y: nat, r: nat)
    requires y % 2 == 1
    ensures SourceRow(r) == y && SourcePlane(r) == c <==> r == HomeRow(c, y)
  {
    HomeRowCarries(c, y);
    CarriedIsHome(r);
  }

  function Sample(f: Planes, c: Chroma, x: nat, y: nat, width: nat, height: nat): byte
    requires Sized(f, width, height) && x < width && y < height
  {
    FlatMonotone(y, height, width);
    PlaneOf(f, c)[Flat(0, y, width) + x]
  }

  /** The auxiliary view holds the sample: its odd row is not cut off, or it is in an odd column of an even
      row. */
  predicate InAux(c: Chroma, x: nat, y: nat, height: nat) {
    if y % 2 == 1 then HomeRow(c, y) < height else x % 2 == 1
  }

  lemma AppendAt(a: seq<byte>, b: seq<byte>, x: nat)
    ensures x < |a| ==> (a + b)[x] == a[x]
    ensures x < |b| ==> (a + b)[|a| + x] == b[x]
  {
  }

  lemma {:induction false} AuxRowsAt(f: Planes, width: nat, height: nat, n: nat, r: nat, x: nat)
    requires Sized(f, width, height) && r < n && x < width
    ensures Flat(0, r, width) + x < |AuxRows(f, width, height, n)|
    ensures AuxRows(f, width, height, n)[Flat(0, r, width) + x] == AuxRow(f, width, height, r)[x]
    decreases n
  {
    FlatMonotone(r, n, width);
    var before, last := AuxRows(f, width, height, n - 1), AuxRow(f, width, height, n - 1);
    if r < n - 1 {
      AuxRowsAt(f, width, height, n - 1, r, x);
      AppendAt(before, last, Flat(0, r, width) + x);
    } else {
      AppendAt(before, last, x);
    }
  }

  lemma {:induction false} EvenRowsAt(plane: seq<byte>, width: nat, height: nat, n: nat, r: nat, cx: nat)
    requires |plane| == Flat(0, height, width) && 2 * n <= height && r < n && cx < width / 2
    ensures Flat(0, r, width / 2) + cx < |EvenRows(plane, width, height, n)|
    ensures EvenRows(plane, width, height, n)[Flat(0, r, width / 2) + cx] == OddColumns(plane, width, height, 2 * r)[cx]
    decreases n
  {
    FlatMonotone(r, n, width / 2);
    if r < n - 1 {
      EvenRowsAt(plane, width, height, n - 1, r, cx);
    }
  }

  lemma {:induction false} OddRowSample(f: Planes, c: Chroma, x: nat, y: nat, width: nat, height: nat)
    requires Sized(f, width, height) && x < width && y < height && y % 2 == 1 && HomeRow(c, y) < height
    ensures Flat(0, HomeRow(c, y), width) + x < |AuxRows(f, width, height, height)|
    ensures AuxRows(f, width, height, height)[Flat(0, HomeRow(c, y), width) + x] == Sample(f, c, x, y, width, height)
  {
    HomeRowIsUnique(c, y, HomeRow(c, y));
    AuxRowsAt(f, width, height, height, HomeRow(c, y), x);
    AuxRowSample(f, c, x, y, width, height, HomeRow(c, y));
  }

  lemma {:induction false} AuxRowSample(f: Planes, c: Chroma, x: nat, y: nat, width: nat, height: nat, r: nat)
    requires Sized(f, width, height) && x < width && y < height && SourceRow(r) == y && SourcePlane(r) == c
    ensures AuxRow(f, width, height, r)[x] == Sample(f, c, x, y, width, height)
  {
    FlatMonotone(y, height, width);
    assert AuxRow(f, width, height, r) == PlaneRow(PlaneOf(f, c), width, height, y);
  }

  lemma EvenRowSample(f: Planes, c: Chroma, x: nat, y: nat, width: nat, height: nat)
    requires Sized(f, width, height) && width % 2 == 0 && height % 2 == 0
    requires x < width && y < height && y % 2 == 0 && x % 2 == 1
    ensures Flat(0, y / 2, width / 2) + x / 2 < |EvenRows(PlaneOf(f, c), width, height, height / 2)|
    ensures EvenRows(PlaneOf(f, c), width, height, height / 2)[Flat(0, y / 2, width / 2) + x / 2]
         == Sample(f, c, x, y, width, height)
  {
    EvenRowsAt(PlaneOf(f, c), width, height, height / 2, y / 2, x / 2);
  }

  lemma AuxHolds(f: Planes, g: Planes, c: Chroma, x: nat, y: nat, width: nat, height: nat)
    requires Sized(f, width, height) && Sized(g, width, height) && width % 2 == 0 && height % 2 == 0
    requires x < width && y < height && InAux(c, x, y, height) && AuxView(f, width, height) == AuxView(g, width, height)
    ensures Sample(f, c, x, y, width, height) == Sample(g, c, x, y, width, height)
  {
    if y % 2 == 1 {
      OddRowSample(f, c, x, y, width, height);
      OddRowSample(g, c, x, y, width, height);
    } else {
      EvenRowSample(f, c, x, y, width, height);
      EvenRowSample(g, c, x, y, width, height);
    }
  }

  /** The frame with one chroma sample replaced. */
  function Poke(f: Planes, c: Chroma, x: nat, y: nat, width: nat, height: nat, v: byte): (g: Planes)
    requires Sized(f, width, height) && x < width && y < height
    ensures Sized(g, width, height)
  {
    FlatMonotone(y, height, width);
    var at := Flat(0, y, width) + x;
    if c == U then f.(u := f.u[at := v]) else f.(v := f.v[at := v])
  }

  lemma RowsAreApart(y: nat, y': nat, width: nat)
    requires y != y'
    ensures Flat(0, y, width) + width <= Flat(0, y', width) || Flat(0, y', width) + width <= Flat(0, y, width)
  {
    if y < y' {
      FlatMonotone(y, y', width);
    } else {
      FlatMonotone(y', y, width);
    }
  }

  lemma SliceOfUpdate(s: seq<byte>, at: nat, v: byte, lo: nat, hi: nat)
    requires at < |s| && lo <= hi <= |s| && (at < lo || hi <= at)
    ensures s[at := v][lo..hi] == s[lo..hi]
  {
  }

  lemma PokedRow(f: Planes, c: Chroma, x: nat, y: nat, width: nat, height: nat, v: byte, r: nat)
    requires Sized(f, width, height) && x < width && y < height && r < height && !InAux(c, x, y, height)
    ensures AuxRow(Poke(f, c, x, y, width, height, v), width, height, r) == AuxRow(f, width, height, r)
  {
    if SourceRow(r) < height && SourcePlane(r) == c {
      if SourceRow(r) == y {
        HomeRowIsUnique(c, y, r);
      } else {
        RowsAreApart(SourceRow(r), y, width);
        FlatMonotone(y, height, width);
        FlatMonotone(SourceRow(r), height, width);
        SliceOfUpdate(PlaneOf(f, c), Flat(0, y, width) + x, v, Flat(0, SourceRow(r), width),
                      Flat(0, SourceRow(r), width) + width);
      }
    }
  }

  lemma {:induction false} SameRows(f: Planes, g: Planes, width: nat, height: nat, n: nat)
    requires Sized(f, width, height) && Sized(g, width, height)
    requires forall r :: 0 <= r < n ==> AuxRow(f, width, height, r) == AuxRow(g, width, height, r)
    ensures AuxRows(f, width, height, n) == AuxRows(g, width, height, n)
    decreases n
  {
    if n > 0 {
      SameRows(f, g, width, height, n - 1);
    }
  }

  lemma {:induction false} PokedRows(f: Planes, c: Chroma, x: nat, y: nat, width: nat, height: nat, v: byte)
    requires Sized(f, width, height) && x < width && y < height && !InAux(c, x, y, height)
    ensures AuxRows(Poke(f, c, x, y, width, height, v), width, height, height) == AuxRows(f, width, height, height)
  {
    var g := Poke(f, c, x, y, width, height, v);
    forall r | 0 <= r < height
      ensures AuxRow(f, width, height, r) == AuxRow(g, width, height, r)
    {
      PokedRow(f, c, x, y, width, height, v, r);
    }
    SameRows(f, g, width, height, height);
  }

  lemma PokedColumns(f: Planes, c: Chroma, x: nat, y: nat, width: nat, height: nat, v: byte, d: Chroma, row: nat)
    requires Sized(f, width, height) && x < width && y < height && row < height && row % 2 == 0 && !InAux(c, x, y, height)
    ensures OddColumns(PlaneOf(Poke(f, c, x, y, width, height, v), d), width, height, row)
         == OddColumns(PlaneOf(f, d), width, height, row)
  {
    FlatMonotone(y, height, width);
    FlatMonotone(row, height, width);
    if row != y {
      RowsAreApart(row, y, width);
    }
    forall cx | 0 <= cx < width / 2
      ensures Flat(0, row, width) + 2 * cx + 1 != Flat(0, y, width) + x
    {
    }
  }

  lemma {:induction false} PokedEvenRows(f: Planes, c: Chroma, x: nat, y: nat, width: nat, height: nat, v: byte, d: Chroma, n: nat)
    requires Sized(f, width, height) && x < width && y < height && 2 * n <= height && !InAux(c, x, y, height)
    ensures EvenRows(PlaneOf(Poke(f, c, x, y, width, height, v), d), width, height, n)
         == EvenRows(PlaneOf(f, d), width, height, n)
    decreases n
  {
    if n > 0 {
      PokedEvenRows(f, c, x, y, width, height, v, d, n - 1);
      PokedColumns(f, c, x, y, width, height, v, d, 2 * (n - 1));
    }
  }

  /** Replacing a sample that the auxiliary view does not hold leaves the view as it is. */
  lemma {:induction false} PokeKeepsView(f: Planes, c: Chroma, x: nat, y: nat, width: nat, height: nat, v: byte)
    requires Sized(f, width, height) && x < width && y < height && !InAux(c, x, y, height)
    ensures AuxView(Poke(f, c, x, y, width, height, v), width, height) == AuxView(f, width, height)
  {
    PokedRows(f, c, x, y, width, height, v);
    PokedEvenRows(f, c, x, y, width, height, v, U, height / 2);
    PokedEvenRows(f, c, x, y, width, height, v, V, height / 2);
  }

  lemma {:induction false} PokedSample(f: Planes, c: Chroma, x: nat, y: nat, width: nat, height: nat, v: byte)
    requires Sized(f, width, height) && x < width && y < height
    ensures Sample(Poke(f, c, x, y, width, height, v), c, x, y, width, height) == v
  {
    FlatMonotone(y, height, width);
  }

  /** The auxiliary view determines the sample: frames with equal auxiliary views agree on it. */
  ghost predicate Determined(c: Chroma, x: nat, y: nat, width: nat, height: nat)
    requires x < width && y < height
  {
    forall f: Planes, g: Planes ::
      Sized(f, width, height) && Sized(g, width, height) && AuxView(f, width, height) == AuxView(g, width, height)
      ==> Sample(f, c, x, y, width, height) == Sample(g, c, x, y, width, height)
  }

  /** A sample can be recovered from the auxiliary view, by whatever decoder, if and only if it is in an odd
      row that is not cut off, or in an odd column of an even row. */
  lemma SampleSurvivesIff(c: Chroma, x: nat, y: nat, width: nat, height: nat)
    requires width % 2 == 0 && height % 2 == 0 && x < width && y < height
    ensures Determined(c, x, y, width, height) <==> InAux(c, x, y, height)
  {
    if InAux(c, x, y, height) {
      forall f: Planes, g: Planes | Sized(f, width, height) && Sized(g, width, height)
                                    && AuxView(f, width, height) == AuxView(g, width, height)
        ensures Sample(f, c, x, y, width, height) == Sample(g, c, x, y, width, height)
      {
        AuxHolds(f, g, c, x, y, width, height);
      }
    } else {
      var n := Flat(0, height, width);
      var f := Planes(Neutral(n), Neutral(n), Neutral(n));
      PokeKeepsView(f, c, x, y, width, height, 0);
      PokedSample(f, c, x, y, width, height, 0);
      FlatMonotone(y, height, width);
    }
  }

  /** U never loses an odd row. */
  lemma URowsSurvive(x: nat, y: nat, height: nat)
    requires y % 2 == 1 && y < height
    ensures InAux(U, x, y, height)
  {
  }

  /** V loses the odd rows of the last macroblock row that would be carried below the frame. */
  lemma VRowSurvivesIff(x: nat, y: nat, height: nat)
    requires y % 2 == 1 && y < height
    ensures InAux(V, x, y, height) <==> y / 16 < height / 16 || y % 16 / 2 + 8 < height % 16
  {
  }

  /** The samples that subsampling leaves out of the main view: all but those in even columns of even rows. */
  predicate LeftToAux(x: nat, y: nat) {
    x % 2 == 1 || y % 2 == 1
  }

  /** Every sample that is left to the auxiliary view can be recovered from it. */
  ghost predicate KeepsAll(width: nat, height: nat) {
    forall c: Chroma, x: nat, y: nat :: x < width && y < height && LeftToAux(x, y) ==> Determined(c, x, y, width, height)
  }

  lemma LeftSamplesHeld(c: Chroma, x: nat, y: nat, height: nat)
    requires y < height && height % 16 == 0 && LeftToAux(x, y)
    ensures InAux(c, x, y, height)
  {
    if y % 2 == 1 && c == V {
      VRowSurvivesIff(x, y, height);
    }
  }

  /** The auxiliary view keeps every sample that is left to it if and only if the height is a multiple of
      sixteen. */
  lemma AuxKeepsAllIff(width: nat, height: nat)
    requires width % 2 == 0 && height % 2 == 0 && width > 0
    ensures KeepsAll(width, height) <==> height % 16 == 0
  {
    if height % 16 == 0 {
      forall c: Chroma, x: nat, y: nat | x < width && y < height && LeftToAux(x, y)
        ensures Determined(c, x, y, width, height)
      {
        LeftSamplesHeld(c, x, y, height);
        SampleSurvivesIff(c, x, y, width, height);
      }
    } else {
      VRowSurvivesIff(0, height - 1, height);
      DivMod16(height - 1, height / 16, height % 16 - 1);
      SampleSurvivesIff(V, 0, height - 1, width, height);
      assert LeftToAux(0, height - 1);
    }
  }

  /** At 1080 rows the last four odd rows of V are lost, and nothing else. */
  lemma FullHdLosesFourRows(c: Chroma, x: nat, y: nat)
    requires y < 1080 && LeftToAux(x, y)
    ensures !InAux(c, x, y, 1080) <==> c == V && y in {1073, 1075, 1077, 1079}
  {
  }

  // ---------------------------------------------------------------- the layout, sample by sample

  lemma {:induction false} AuxLumaAt(f: Planes, width: nat, height: nat, r: nat, x: nat, c: Chroma, y: nat)
    requires Sized(f, width, height) && r < height && x < width && SourceRow(r) == y && SourcePlane(r) == c
    ensures Flat(x, r, width) < |AuxView(f, width, height).y|
    ensures AuxView(f, width, height).y[Flat(x, r, width)] == if y < height then Sample(f, c, x, y, width, height) else 128
  {
    FlatShifts(x, r, width);
    AuxRowsAt(f, width, height, height, r, x);
    if y < height {
      AuxRowSample(f, c, x, y, width, height, r);
    }
  }

  /** Rows 0 to 7 of macroblock row `q` of the auxiliary luma plane are the odd rows of U in it, rows 8 to 15
      the odd rows of V; rows beyond the frame are neutral. */
  lemma {:induction false} AuxLumaLayout(f: Planes, width: nat, height: nat, c: Chroma, q: nat, i: nat, x: nat)
    requires Sized(f, width, height) && x < width && i < 8
    ensures var row, source := 16 * q + i + (if c == U then 0 else 8), 16 * q + 2 * i + 1;
            row < height ==>
              && Flat(x, row, width) < |AuxView(f, width, height).y|
              && AuxView(f, width, height).y[Flat(x, row, width)]
                 == if source < height then Sample(f, c, x, source, width, height) else 128
  {
    var row := 16 * q + i + (if c == U then 0 else 8);
    HomeInBlock(c, q, i, row);
    if row < height {
      AuxLumaAt(f, width, height, row, x, c, 16 * q + 2 * i + 1);
    }
  }

  /** The auxiliary chroma planes are the samples at odd columns and even rows, U and V in their own plane. */
  lemma AuxChromaLayout(f: Planes, width: nat, height: nat, cx: nat, cy: nat)
    requires Sized(f, width, height) && cx < width / 2 && cy < height / 2
    ensures Flat(cx, cy, width / 2) < |AuxView(f, width, height).u| && Flat(cx, cy, width / 2) < |AuxView(f, width, height).v|
    ensures AuxView(f, width, height).u[Flat(cx, cy, width / 2)] == Sample(f, U, 2 * cx + 1, 2 * cy, width, height)
    ensures AuxView(f, width, height).v[Flat(cx, cy, width / 2)] == Sample(f, V, 2 * cx + 1, 2 * cy, width, height)
  {
    FlatShifts(cx, cy, width / 2);
    EvenRowsAt(f.u, width, height, height / 2, cy, cx);
    EvenRowsAt(f.v, width, height, height / 2, cy, cx);
  }

  /** The main view has the whole luma, and in each chroma plane the average of every block of that plane. */
  lemma {:induction false} MainLayout(f: Planes, n: nat, rows: nat, c: Chroma, x: nat, y: nat, k: Block, at: nat,
                                      plane: seq<byte>, out: seq<byte>)
    requires plane == PlaneOf(f, c) && out == PlaneOf(MainView(f, 2 * n), c)
    requires |plane| == Flat(0, rows, 4 * n) && x < n && y < rows && k == BlockOf(x, y, 2 * n) && at == Flat(x, y, n)
    ensures MainView(f, 2 * n).y == f.y
    ensures k.a < |plane| && k.b < |plane| && k.c < |plane| && k.d < |plane|
    ensures at < |out| && out[at] == BoxAt(plane, k)
  {
    assert out == Subsampled(plane, n) by {
      assert 2 * n / 2 == n;
    }
    SubsampledAt(plane, n, rows, x, y, out, k, at);
  }
}
