/** The loops that fill a YUV 4:4:4 frame: the scalar one and the two vector kernels
    (src/egfx/color_convert.rs:206-626). */
module ColorKernels {
  import opened Common
  import opened VectorLanes
  import opened ColorConvert

  /** `Yuv444Frame`: three planes of one byte per pixel. */
  class Yuv444Frame {
    const y: array<byte>
    const u: array<byte>
    const v: array<byte>
    const pixelCount: nat

    ghost predicate Valid()
    {
      y.Length == u.Length == v.Length == pixelCount && y != u && u != v && y != v
    }

    constructor (width: nat, height: nat)
      ensures Valid() && fresh(y) && fresh(u) && fresh(v) && pixelCount == width * height
      ensures forall i :: 0 <= i < pixelCount ==> y[i] == 0 && u[i] == 128 && v[i] == 128
    {
      pixelCount := width * height;
      y := new byte[width * height](_ => 0);
      u := new byte[width * height](_ => 128);
      v := new byte[width * height](_ => 128);
    }

    /** The first `n` positions of each plane hold those of the given planes. */
    ghost predicate Filled(planes: Planes, n: nat)
      reads y, u, v
    {
      PlaneFilled(y, planes.y, n) && PlaneFilled(u, planes.u, n) && PlaneFilled(v, planes.v, n)
    }

    function Contents(): Planes
      reads y, u, v
    {
      Planes(y[..], u[..], v[..])
    }
  }

  datatype Planes = Planes(y: seq<byte>, u: seq<byte>, v: seq<byte>)

  ghost predicate PlaneFilled(a: array<byte>, s: seq<byte>, n: nat)
    reads a
  {
    n <= a.Length == |s| && forall i :: 0 <= i < n ==> a[i] == s[i]
  }

  /** From pixel `lo` on, `s` lists the converted pixels of the frame. */
  ghost predicate IsPlane(s: seq<byte>, m: Matrix, plane: Plane, bgra: seq<byte>, lo: nat) {
    && 4 * |s| == |bgra|
    && forall i {:trigger Convert(m, plane, PixelAt(bgra, i))} ::
         lo <= i < |s| ==> s[i] == Convert(m, plane, PixelAt(bgra, i))
  }

  ghost predicate ArePlanes(planes: Planes, m: Matrix, bgra: seq<byte>, lo: nat) {
    IsPlane(planes.y, m, Y, bgra, lo) && IsPlane(planes.u, m, U, bgra, lo) && IsPlane(planes.v, m, V, bgra, lo)
  }

  /** The body of the scalar loop. */
  method ConvertPixel(m: Matrix, p: Pixel) returns (y: byte, u: byte, v: byte)
    ensures y == Convert(m, Y, p) && u == Convert(m, U, p) && v == Convert(m, V, p)
  {
    var yBase := ShiftRight16(WeightsOf(m, Y).Of(p) + 32768);
    y := if LimitedRange(m) then Clamp(yBase + 16, 16, 235) else Clamp(yBase, 0, 255);
    u := ConvertChroma(m, U, p);
    v := ConvertChroma(m, V, p);
  }

  method ConvertChroma(m: Matrix, plane: Plane, p: Pixel) returns (r: byte)
    requires plane != Y
    ensures r == Convert(m, plane, p)
  {
    var base := ShiftRight16(WeightsOf(m, plane).Of(p) + 32768) + 128;
    r := if LimitedRange(m) then Clamp(base, 16, 240) else Clamp(base, 0, 255);
  }

  method ConvertPixelAt(bgra: seq<byte>, m: Matrix, i: nat, ghost planes: Planes) returns (y: byte, u: byte, v: byte)
    requires ArePlanes(planes, m, bgra, i) && 4 * i + 4 <= |bgra|
    ensures y == planes.y[i] && u == planes.u[i] && v == planes.v[i]
  {
    y, u, v := ConvertPixel(m, PixelAt(bgra, i));
  }

  /** `bgra_to_yuv444_scalar`, from pixel `start` on: the scalar loop and the tails of the kernels. */
  method ConvertScalar(bgra: seq<byte>, frame: Yuv444Frame, m: Matrix, start: nat, ghost planes: Planes)
    requires frame.Valid() && start <= frame.pixelCount
    requires ArePlanes(planes, m, bgra, start) && frame.Filled(planes, start)
    modifies frame.y, frame.u, frame.v
    ensures frame.Filled(planes, frame.pixelCount)
  {
    for i := start to frame.pixelCount
      invariant frame.Filled(planes, i)
    {
      var y, u, v := ConvertPixelAt(bgra, m, i, planes);
      frame.y[i] := y;
      frame.u[i] := u;
      frame.v[i] := v;
    }
  }

  // ---------------------------------------------------------------- shared vector arithmetic

  /** Weighting, rounding, shifting, offsetting and clamping one vector of pixels. */
  function PlaneVector(w: Weights, chroma: bool, b: seq<int>, g: seq<int>, r: seq<int>): (v: seq<int>)
    requires |b| == |g| == |r|
    ensures |v| == |b|
  {
    var sum := Add32(Add32(Mul32(r, w.r), Mul32(g, w.g)), Mul32(b, w.b));
    var val := Srai16(AddConst32(sum, 32768));
    ClampElements(if chroma then AddConst32(val, 128) else val, 0, 255)
  }

  /** For the full-range matrices no element wraps, and each is the scalar result. */
  lemma PlaneVectorIsConvert(m: Matrix, plane: Plane, b: seq<int>, g: seq<int>, r: seq<int>, i: nat)
    requires !LimitedRange(m) && |b| == |g| == |r| && i < |b|
    requires 0 <= b[i] < 256 && 0 <= g[i] < 256 && 0 <= r[i] < 256
    ensures PlaneVector(WeightsOf(m, plane), plane != Y, b, g, r)[i] == Convert(m, plane, Pixel(b[i], g[i], r[i]))
  {
    var w, p := WeightsOf(m, plane), Pixel(b[i], g[i], r[i]);
    var sum := Add32(Add32(Mul32(r, w.r), Mul32(g, w.g)), Mul32(b, w.b));
    IntermediatesFitI32(m, plane, p);
    WeightedElement(w, b, g, r, i, p);
    FinishedElement(sum, plane != Y, i, w.Of(p));
    KernelFormula(m, plane, p);
  }

  /** Rounding, shifting, offsetting and clamping one element. */
  lemma FinishedElement(sum: seq<int>, chroma: bool, i: nat, x: int)
    requires i < |sum| && sum[i] == x && -0x7000_0000 <= x < 0x7000_0000
    ensures var val := Srai16(AddConst32(sum, 32768));
            ClampElements(if chroma then AddConst32(val, 128) else val, 0, 255)[i]
            == Min(Max(ShiftRight16(x + 32768) + (if chroma then 128 else 0), 0), 255)
  {
    Wrap32Keeps(x + 32768);
    Wrap32Keeps(ShiftRight16(x + 32768) + 128);
  }

  lemma KernelFormula(m: Matrix, plane: Plane, p: Pixel)
    requires !LimitedRange(m)
    ensures Convert(m, plane, p)
         == Min(Max(ShiftRight16(WeightsOf(m, plane).Of(p) + 32768) + (if plane != Y then 128 else 0), 0), 255)
    ensures -0x7000_0000 <= WeightsOf(m, plane).Of(p) < 0x7000_0000
  {
  }

  lemma WeightedElement(w: Weights, b: seq<int>, g: seq<int>, r: seq<int>, i: nat, p: Pixel)
    requires |b| == |g| == |r| && i < |b| && p.b == b[i] && p.g == g[i] && p.r == r[i]
    requires -0x8000_0000 <= w.r * p.r < 0x8000_0000 && -0x8000_0000 <= w.g * p.g < 0x8000_0000
    requires -0x8000_0000 <= w.b * p.b < 0x8000_0000 && -0x8000_0000 <= w.r * p.r + w.g * p.g < 0x8000_0000
    requires -0x8000_0000 <= w.Of(p) < 0x8000_0000
    ensures Add32(Add32(Mul32(r, w.r), Mul32(g, w.g)), Mul32(b, w.b))[i] == w.Of(p)
  {
    assert r[i] * w.r == w.r * p.r && g[i] * w.g == w.g * p.g && b[i] * w.b == w.b * p.b;
    Wrap32Keeps(w.r * p.r);
    Wrap32Keeps(w.g * p.g);
    Wrap32Keeps(w.b * p.b);
    Wrap32Keeps(w.r * p.r + w.g * p.g);
    Wrap32Keeps(w.Of(p));
  }

  lemma Wrap32Keeps(x: int)
    requires -0x8000_0000 <= x < 0x8000_0000
    ensures Wrap32(x) == x
  {
  }

  // ---------------------------------------------------------------- AVX2

  function ChannelMask(channel: nat): seq<int> {
    [channel, 4 + channel, 8 + channel, 12 + channel, -1, -1, -1, -1, -1, -1, -1, -1, -1, -1, -1, -1]
  }

  function ZeroBytes(): (r: seq<byte>)
    ensures |r| == 16
  {
    seq(16, _ => 0)
  }

  lemma Deinterleaved(px: seq<byte>, channel: nat, lo: seq<byte>, hi: seq<byte>, i: nat)
    requires |px| == 32 && channel < 3 && i < 8
    requires lo == Shuffle(px[..16], ChannelMask(channel)) && hi == Shuffle(px[16..], ChannelMask(channel))
    ensures UnpackLo32(lo, hi)[i] == px[4 * i + channel]
  {
    if i < 4 {
      assert UnpackLo32(lo, hi)[i] == lo[i];
      assert ChannelMask(channel)[i] == 4 * i + channel;
    } else {
      assert UnpackLo32(lo, hi)[i] == hi[i - 4];
      assert ChannelMask(channel)[i - 4] == 4 * (i - 4) + channel;
    }
  }

  lemma ZeroExtend16(v: seq<byte>, zero: seq<byte>, i: nat)
    requires |v| == 16 && |zero| == 16 && i < 8 && forall j :: 0 <= j < 16 ==> zero[j] == 0
    ensures UnpackLo8(v, zero)[2 * i] == v[i] && UnpackLo8(v, zero)[2 * i + 1] == 0
  {
  }

  lemma ZeroExtend32(v: seq<byte>, zero: seq<byte>, k: nat)
    requires |v| == 16 && |zero| == 16 && k < 4 && forall j :: 0 <= j < 16 ==> zero[j] == 0
    ensures Elements32(UnpackLo16(v, zero))[k] == v[2 * k] + 0x100 * v[2 * k + 1] as int
    ensures Elements32(UnpackHi16(v, zero))[k] == v[2 * k + 8] + 0x100 * v[2 * k + 9] as int
  {
    var lo, hi := UnpackLo16(v, zero), UnpackHi16(v, zero);
    assert lo[4 * k] == v[2 * k] && lo[4 * k + 1] == v[2 * k + 1] && lo[4 * k + 2] == 0 && lo[4 * k + 3] == 0;
    assert hi[4 * k] == v[2 * k + 8] && hi[4 * k + 1] == v[2 * k + 9] && hi[4 * k + 2] == 0 && hi[4 * k + 3] == 0;
  }

  /** One colour channel of eight pixels as 32-bit elements, deinterleaved with shuffles and unpacks. */
  method Channel32(px: seq<byte>, channel: nat) returns (r: seq<int>)
    requires |px| == 32 && channel < 3
    ensures |r| == 8 && forall i :: 0 <= i < 8 ==> r[i] == px[4 * i + channel]
  {
    var zero := ZeroBytes();
    var packed := PackedChannel(px, channel);
    var x16 := UnpackLo8(packed, zero);
    forall i | 0 <= i < 8
      ensures x16[2 * i] == packed[i] && x16[2 * i + 1] == 0
    {
      ZeroExtend16(packed, zero, i);
    }
    var lo, hi := WidenTo32(x16);
    r := lo + hi;
  }

  method PackedChannel(px: seq<byte>, channel: nat) returns (packed: seq<byte>)
    requires |px| == 32 && channel < 3
    ensures |packed| == 16 && forall i :: 0 <= i < 8 ==> packed[i] == px[4 * i + channel]
  {
    var lo := Shuffle(px[..16], ChannelMask(channel));
    var hi := Shuffle(px[16..], ChannelMask(channel));
    packed := UnpackLo32(lo, hi);
    forall i | 0 <= i < 8
      ensures packed[i] == px[4 * i + channel]
    {
      Deinterleaved(px, channel, lo, hi, i);
    }
  }

  method WidenTo32(x16: seq<byte>) returns (lo: seq<int>, hi: seq<int>)
    requires |x16| == 16
    ensures |lo| == |hi| == 4
    ensures forall k :: 0 <= k < 4 ==> lo[k] == x16[2 * k] + 0x100 * x16[2 * k + 1] as int
    ensures forall k :: 0 <= k < 4 ==> hi[k] == x16[2 * (k + 4)] + 0x100 * x16[2 * (k + 4) + 1] as int
  {
    var zero := ZeroBytes();
    lo := Elements32(UnpackLo16(x16, zero));
    hi := Elements32(UnpackHi16(x16, zero));
    forall k | 0 <= k < 4
      ensures lo[k] == x16[2 * k] + 0x100 * x16[2 * k + 1] as int
      ensures hi[k] == x16[2 * (k + 4)] + 0x100 * x16[2 * (k + 4) + 1] as int
    {
      ZeroExtend32(x16, zero, k);
    }
  }

  /** The eight bytes that the kernel stores for a vector of eight values: pack twice, take the low
      128-bit lane, shuffle, store the low half. */
  function StoredBytes(v: seq<int>): (r: seq<byte>)
    requires |v| == 8
    ensures |r| == 8
  {
    var v16 := Packs32(v, v);
    var v8 := Packus16(v16, v16);
    var mask := [0, 1, 2, 3, 8, 9, 10, 11, -1, -1, -1, -1, -1, -1, -1, -1];
    Shuffle(v8[..16], mask)[..8]
  }

  lemma PackedTo16(v: seq<int>, k: nat)
    requires |v| == 8 && k < 4 && 0 <= v[k] < 256
    ensures Packs32(v, v)[k] == v[k] && Packs32(v, v)[k + 4] == v[k]
  {
  }

  lemma PackedTo8(v16: seq<int>, k: nat)
    requires |v16| == 16 && k < 8 && 0 <= v16[k] < 256
    ensures Packus16(v16, v16)[k] == v16[k] && Packus16(v16, v16)[k + 8] == v16[k]
  {
  }

  /** Packing works lane by lane, so the low lane holds elements 0 to 3 four times over: elements 4 to
      7 are never stored. */
  lemma StoreRepeatsLowLane(v: seq<int>, j: nat)
    requires |v| == 8 && j < 8 && forall i :: 0 <= i < 8 ==> 0 <= v[i] < 256
    ensures StoredBytes(v)[j] == v[j % 4]
  {
    PackedTo16(v, j % 4);
    PackedTo8(Packs32(v, v), j % 4);
  }

  /** The pixel whose value the AVX2 kernel stores at position `i` of an `n`-pixel frame. */
  function Avx2Source(n: nat, i: nat): nat {
    if i < n / 8 * 8 && i % 8 >= 4 then i - 4 else i
  }

  /** A plane as the AVX2 kernel writes it, from the plane that the scalar loop writes. */
  function Avx2Plane(s: seq<byte>): (r: seq<byte>)
    ensures |r| == |s|
  {
    seq(|s|, i requires 0 <= i < |s| => s[Avx2Source(|s|, i)])
  }

  /** The body of the AVX2 loop for one plane. */
  method Avx2PlaneBlock(px: seq<byte>, m: Matrix, plane: Plane) returns (stored: seq<byte>)
    requires |px| == 32 && !LimitedRange(m)
    ensures |stored| == 8
    ensures forall j :: 0 <= j < 8 ==> stored[j] == Convert(m, plane, PixelAt(px, j % 4))
  {
    var b := Channel32(px, 0);
    var g := Channel32(px, 1);
    var r := Channel32(px, 2);
    var v := PlaneVector(WeightsOf(m, plane), plane != Y, b, g, r);
    forall i | 0 <= i < 8
      ensures v[i] == Convert(m, plane, PixelAt(px, i))
    {
      PlaneVectorIsConvert(m, plane, b, g, r, i);
    }
    stored := StoredBytes(v);
    forall j | 0 <= j < 8
      ensures stored[j] == v[j % 4]
    {
      StoreRepeatsLowLane(v, j);
    }
  }

  /** Converting and storing one block of one plane. */
  method Avx2StoreBlock(plane: array<byte>, which: Plane, m: Matrix, bgra: seq<byte>, base: nat, ghost s: seq<byte>)
    requires base + 8 <= |s| && base % 8 == 0 && IsPlane(s, m, which, bgra, 0) && !LimitedRange(m)
    requires PlaneFilled(plane, Avx2Plane(s), base)
    modifies plane
    ensures PlaneFilled(plane, Avx2Plane(s), base + 8)
  {
    var px := bgra[base * 4..base * 4 + 32];
    var stored := Avx2PlaneBlock(px, m, which);
    forall j | 0 <= j < 8
      ensures stored[j] == Avx2Plane(s)[base + j]
    {
      assert PixelAt(px, j % 4) == PixelAt(bgra, base + j % 4);
      Avx2SourceInBlock(|s|, base, j);
    }
    StoreEight(plane, base, stored);
    forall i | base <= i < base + 8
      ensures plane[i] == Avx2Plane(s)[i]
    {
      assert plane[base + (i - base)] == stored[i - base];
    }
  }

  lemma Avx2SourceInBlock(n: nat, base: nat, j: nat)
    requires base + 8 <= n && base % 8 == 0 && j < 8
    ensures Avx2Source(n, base + j) == base + j % 4
  {
    var q := base / 8;
    assert base == 8 * q && (base + j) % 8 == j;
    assert base + 8 <= n / 8 * 8;
    assert j % 4 == if j < 4 then j else j - 4;
  }

  method StoreEight(plane: array<byte>, base: nat, bytes: seq<byte>)
    requires base + 8 <= plane.Length && |bytes| == 8
    modifies plane
    ensures forall k :: 0 <= k < 8 ==> plane[base + k] == bytes[k]
    ensures forall i :: 0 <= i < plane.Length && !(base <= i < base + 8) ==> plane[i] == old(plane[i])
  {
    for k := 0 to 8
      invariant forall i :: 0 <= i < plane.Length ==>
                  plane[i] == if base <= i < base + k then bytes[i - base] else old(plane[i])
    {
      plane[base + k] := bytes[k];
    }
  }

  /** `bgra_to_yuv444_avx2_impl`. */
  method ConvertAvx2(bgra: seq<byte>, frame: Yuv444Frame, m: Matrix, ghost planes: Planes)
    requires frame.Valid() && !LimitedRange(m) && ArePlanes(planes, m, bgra, 0)
    requires |planes.y| == |planes.u| == |planes.v| == frame.pixelCount
    modifies frame.y, frame.u, frame.v
    ensures frame.Filled(Avx2Planes(planes), frame.pixelCount)
  {
    var n := frame.pixelCount;
    var simdCount := n / 8;
    for i := 0 to simdCount
      invariant frame.Filled(Avx2Planes(planes), 8 * i)
    {
      var base := i * 8;
      Avx2StoreBlock(frame.y, Y, m, bgra, base, planes.y);
      Avx2StoreBlock(frame.u, U, m, bgra, base, planes.u);
      Avx2StoreBlock(frame.v, V, m, bgra, base, planes.v);
    }
    TailIsScalar(planes.y, m, Y, bgra);
    TailIsScalar(planes.u, m, U, bgra);
    TailIsScalar(planes.v, m, V, bgra);
    ConvertScalar(bgra, frame, m, simdCount * 8, Avx2Planes(planes));
  }

  function Avx2Planes(planes: Planes): Planes {
    Planes(Avx2Plane(planes.y), Avx2Plane(planes.u), Avx2Plane(planes.v))
  }

  lemma TailIsScalar(s: seq<byte>, m: Matrix, plane: Plane, bgra: seq<byte>)
    requires IsPlane(s, m, plane, bgra, 0)
    ensures IsPlane(Avx2Plane(s), m, plane, bgra, |s| / 8 * 8)
  {
    var lo := |s| / 8 * 8;
    forall i | lo <= i < |s|
      ensures Avx2Plane(s)[i] == s[i]
    {
    }
  }

  // ---------------------------------------------------------------- NEON

  /** The body of the NEON loop for one plane: `vld4_u8` deinterleaves, the two halves are computed
      separately, narrowed to 16 bits by truncation, joined and narrowed to bytes by saturation. */
  method NeonPlaneBlock(px: seq<byte>, m: Matrix, plane: Plane) returns (stored: seq<byte>)
    requires |px| == 32 && !LimitedRange(m)
    ensures |stored| == 8
    ensures forall j :: 0 <= j < 8 ==> stored[j] == Convert(m, plane, PixelAt(px, j))
  {
    var b, g, r := Deinterleave(px, 0), Deinterleave(px, 1), Deinterleave(px, 2);
    var w := WeightsOf(m, plane);
    var lo := PlaneVector(w, plane != Y, b[..4], g[..4], r[..4]);
    var hi := PlaneVector(w, plane != Y, b[4..], g[4..], r[4..]);
    forall j | 0 <= j < 8
      ensures (lo + hi)[j] == Convert(m, plane, PixelAt(px, j))
    {
      if j < 4 {
        PlaneVectorIsConvert(m, plane, b[..4], g[..4], r[..4], j);
      } else {
        PlaneVectorIsConvert(m, plane, b[4..], g[4..], r[4..], j - 4);
      }
    }
    stored := NarrowToBytes(lo + hi);
  }

  /** One register of `vld4_u8`, widened with `vmovl_u8` and `vmovl_u16`. */
  function Deinterleave(px: seq<byte>, channel: nat): (r: seq<int>)
    requires |px| == 32 && channel < 4
    ensures |r| == 8
  {
    seq(8, i requires 0 <= i < 8 => px[4 * i + channel] as int)
  }

  /** `vmovn_s32` on both halves, `vcombine_s16`, `vqmovun_s16`. */
  function NarrowToBytes(v: seq<int>): (r: seq<byte>)
    ensures |r| == |v|
    ensures (forall i :: 0 <= i < |v| ==> 0 <= v[i] < 256) ==> forall i :: 0 <= i < |v| ==> r[i] == v[i]
  {
    seq(|v|, i requires 0 <= i < |v| => SaturateU8(Wrap16(v[i])))
  }

  method NeonStoreBlock(plane: array<byte>, which: Plane, m: Matrix, bgra: seq<byte>, base: nat, ghost s: seq<byte>)
    requires base + 8 <= |s| && IsPlane(s, m, which, bgra, 0) && !LimitedRange(m)
    requires PlaneFilled(plane, s, base)
    modifies plane
    ensures PlaneFilled(plane, s, base + 8)
  {
    var px := bgra[base * 4..base * 4 + 32];
    var stored := NeonPlaneBlock(px, m, which);
    forall j | 0 <= j < 8
      ensures stored[j] == s[base + j]
    {
      assert PixelAt(px, j) == PixelAt(bgra, base + j);
    }
    StoreEight(plane, base, stored);
    forall i | base <= i < base + 8
      ensures plane[i] == s[i]
    {
      assert plane[base + (i - base)] == stored[i - base];
    }
  }

  /** `bgra_to_yuv444_neon`: the scalar result for every pixel count. */
  method ConvertNeon(bgra: seq<byte>, frame: Yuv444Frame, m: Matrix, ghost planes: Planes)
    requires frame.Valid() && !LimitedRange(m) && ArePlanes(planes, m, bgra, 0)
    requires |planes.y| == |planes.u| == |planes.v| == frame.pixelCount
    modifies frame.y, frame.u, frame.v
    ensures frame.Filled(planes, frame.pixelCount)
  {
    var simdCount := frame.pixelCount / 8;
    for i := 0 to simdCount
      invariant frame.Filled(planes, 8 * i)
    {
      var base := i * 8;
      NeonStoreBlock(frame.y, Y, m, bgra, base, planes.y);
      NeonStoreBlock(frame.u, U, m, bgra, base, planes.u);
      NeonStoreBlock(frame.v, V, m, bgra, base, planes.v);
    }
    ConvertScalar(bgra, frame, m, simdCount * 8, planes);
  }

  // ---------------------------------------------------------------- the dispatcher

  ghost function ScalarPlane(m: Matrix, plane: Plane, bgra: seq<byte>): (s: seq<byte>)
    ensures |s| == |bgra| / 4
  {
    seq(|bgra| / 4, i requires 0 <= i < |bgra| / 4 => Convert(m, plane, PixelAt(bgra, i)))
  }

  ghost function ScalarPlanes(m: Matrix, bgra: seq<byte>): Planes {
    Planes(ScalarPlane(m, Y, bgra), ScalarPlane(m, U, bgra), ScalarPlane(m, V, bgra))
  }

  lemma ScalarPlaneIsPlane(m: Matrix, plane: Plane, bgra: seq<byte>)
    requires |bgra| % 4 == 0
    ensures IsPlane(ScalarPlane(m, plane, bgra), m, plane, bgra, 0)
  {
  }

  /** `bgra_to_yuv444`. Only the AVX2 kernel stores something else than the scalar planes. */
  method BgraToYuv444(cpu: Cpu, bgra: seq<byte>, width: nat, height: nat, m: Matrix) returns (frame: Yuv444Frame)
    requires |bgra| == width * height * 4
    ensures fresh(frame) && frame.Valid()
    ensures frame.Contents() == if cpu.X86WithAvx2? && !LimitedRange(m) then Avx2Planes(ScalarPlanes(m, bgra))
                                else ScalarPlanes(m, bgra)
  {
    frame := new Yuv444Frame(width, height);
    ghost var planes := ScalarPlanes(m, bgra);
    ScalarPlaneIsPlane(m, Y, bgra);
    ScalarPlaneIsPlane(m, U, bgra);
    ScalarPlaneIsPlane(m, V, bgra);
    if !LimitedRange(m) && cpu.X86WithAvx2? {
      ConvertAvx2(bgra, frame, m, planes);
    } else if !LimitedRange(m) && cpu.ArmWithNeon? {
      ConvertNeon(bgra, frame, m, planes);
    } else {
      ConvertScalar(bgra, frame, m, 0, planes);
    }
  }

  // ---------------------------------------------------------------- where the AVX2 kernel differs

  /** The AVX2 kernel writes the scalar plane exactly when, in every full block of eight, positions 4
      to 7 of the scalar plane repeat positions 0 to 3. */
  lemma Avx2AgreesIff(s: seq<byte>)
    ensures Avx2Plane(s) == s <==> forall i :: 0 <= i < |s| / 8 * 8 && i % 8 >= 4 ==> s[i] == s[i - 4]
  {
    forall i | 0 <= i < |s|
      ensures Avx2Plane(s)[i] == if i < |s| / 8 * 8 && i % 8 >= 4 then s[i - 4] else s[i]
    {
    }
  }

  /** Two pixels that convert to the same luma and chroma. */
  predicate SameColour(m: Matrix, p: Pixel, q: Pixel) {
    Convert(m, Y, p) == Convert(m, Y, q) && Convert(m, U, p) == Convert(m, U, q) && Convert(m, V, p) == Convert(m, V, q)
  }

  /** Pixel `i` of the frame is in the second half of a full block of eight. */
  predicate InSecondHalf(bgra: seq<byte>, i: nat) {
    i < |bgra| / 4 / 8 * 8 && i % 8 >= 4
  }

  lemma PlaneAgreesIff(m: Matrix, plane: Plane, bgra: seq<byte>)
    ensures Avx2Plane(ScalarPlane(m, plane, bgra)) == ScalarPlane(m, plane, bgra)
       <==> forall i: nat :: InSecondHalf(bgra, i) ==>
              Convert(m, plane, PixelAt(bgra, i)) == Convert(m, plane, PixelAt(bgra, i - 4))
  {
    var s := ScalarPlane(m, plane, bgra);
    Avx2AgreesIff(s);
    forall i: nat | i < |s|
      ensures s[i] == Convert(m, plane, PixelAt(bgra, i))
    {
    }
  }

  /** The AVX2 kernel converts a frame as the scalar loop does exactly when each pixel in the second half
      of a full block has the colour of the pixel four places before it. */
  lemma Avx2FrameAgreesIff(m: Matrix, bgra: seq<byte>)
    ensures Avx2Planes(ScalarPlanes(m, bgra)) == ScalarPlanes(m, bgra)
       <==> forall i: nat :: InSecondHalf(bgra, i) ==> SameColour(m, PixelAt(bgra, i), PixelAt(bgra, i - 4))
  {
    PlaneAgreesIff(m, Y, bgra);
    PlaneAgreesIff(m, U, bgra);
    PlaneAgreesIff(m, V, bgra);
  }

  /** The tail, and the first half of every block, always agree. */
  lemma Avx2AgreesOnFirstHalves(s: seq<byte>, i: nat)
    requires i < |s| && (i % 8 < 4 || i >= |s| / 8 * 8)
    ensures Avx2Plane(s)[i] == s[i]
  {
  }

  /** A frame of eight pixels on which the kernels differ: four black pixels, then four white ones. */
  lemma Avx2DiffersFromScalar(bgra: seq<byte>, m: Matrix)
    requires |bgra| == 32 && !LimitedRange(m) && forall i :: 0 <= i < 32 ==> bgra[i] == if i < 16 then 0 else 255
    ensures ScalarPlane(m, Y, bgra) == [0, 0, 0, 0, 255, 255, 255, 255]
    ensures Avx2Plane(ScalarPlane(m, Y, bgra)) == [0, 0, 0, 0, 0, 0, 0, 0]
  {
    var s := ScalarPlane(m, Y, bgra);
    forall i | 0 <= i < 8
      ensures s[i] == if i < 4 then 0 else 255
    {
      var v: byte := if i < 4 then 0 else 255;
      assert PixelAt(bgra, i) == Pixel(v, v, v);
      GreyElement(bgra, m, i, v);
    }
    Avx2OfHalves(s);
  }

  lemma GreyElement(bgra: seq<byte>, m: Matrix, i: nat, v: byte)
    requires 4 * i + 4 <= |bgra| && !LimitedRange(m) && PixelAt(bgra, i) == Pixel(v, v, v)
    ensures ScalarPlane(m, Y, bgra)[i] == v
  {
  }

  lemma Avx2OfHalves(s: seq<byte>)
    requires |s| == 8 && forall i :: 0 <= i < 8 ==> s[i] == if i < 4 then 0 else 255
    ensures s == [0, 0, 0, 0, 255, 255, 255, 255]
    ensures Avx2Plane(s) == [0, 0, 0, 0, 0, 0, 0, 0]
  {
  }
}
