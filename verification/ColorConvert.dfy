/** Colour conversion BGRA to YUV 4:4:4 (src/egfx/color_convert.rs:23-626). */
module ColorConvert {
  import opened Common
  import opened VectorLanes

  datatype Matrix = BT601 | BT709 | OpenH264

  /** Weights of red, green and blue, scaled by 65536. */
  datatype Weights = Weights(r: int, g: int, b: int) {

    function Of(p: Pixel): int {
      r * p.r + g * p.g + b * p.b
    }
  }

  datatype Pixel = Pixel(b: byte, g: byte, r: byte)

  datatype Plane = Y | U | V

  function WeightsOf(m: Matrix, plane: Plane): Weights {
    match (plane, m)
    case (Y, BT601) => Weights(19595, 38470, 7471)
    case (Y, BT709) => Weights(13933, 46871, 4732)
    case (Y, OpenH264) => Weights(16896, 33024, 6400)
    case (U, BT601) => Weights(-11056, -21712, 32768)
    case (U, BT709) => Weights(-7508, -25260, 32768)
    case (U, OpenH264) => Weights(-9728, -18944, 28672)
    case (V, BT601) => Weights(32768, -27440, -5328)
    case (V, BT709) => Weights(32768, -29764, -3004)
    case (V, OpenH264) => Weights(28672, -24064, -4608)
  }

  predicate LimitedRange(m: Matrix) {
    m == OpenH264
  }

  /** The value of one plane before clamping. */
  function Unclamped(m: Matrix, plane: Plane, p: Pixel): int {
    var base := ShiftRight16(WeightsOf(m, plane).Of(p) + 32768);
    match plane
    case Y => if LimitedRange(m) then base + 16 else base
    case _ => base + 128
  }

  function Floor(m: Matrix): byte {
    if LimitedRange(m) then 16 else 0
  }

  function Ceiling(m: Matrix, plane: Plane): byte {
    if !LimitedRange(m) then 255 else if plane == Y then 235 else 240
  }

  /** What the scalar loop stores for one pixel. */
  function Convert(m: Matrix, plane: Plane, p: Pixel): byte {
    Clamp(Unclamped(m, plane, p), Floor(m), Ceiling(m, plane))
  }

  function PixelAt(bgra: seq<byte>, i: nat): Pixel
    requires 4 * i + 4 <= |bgra|
  {
    Pixel(bgra[4 * i], bgra[4 * i + 1], bgra[4 * i + 2])
  }

  // ---------------------------------------------------------------- ranges

  /** Every intermediate of the scalar expression fits in `i32`, in the order of evaluation. */
  lemma IntermediatesFitI32(m: Matrix, plane: Plane, p: Pixel)
    ensures var w := WeightsOf(m, plane);
            && -0x8000_0000 <= w.r * p.r < 0x8000_0000
            && -0x8000_0000 <= w.g * p.g < 0x8000_0000
            && -0x8000_0000 <= w.b * p.b < 0x8000_0000
            && -0x8000_0000 <= w.r * p.r + w.g * p.g < 0x8000_0000
            && -0x8000_0000 <= w.Of(p) < 0x8000_0000
            && -0x8000_0000 <= w.Of(p) + 32768 < 0x8000_0000
  {
  }

  /** Neither the luma clamps nor the limited-range chroma clamps ever change a value. */
  lemma ClampsNeverFire(m: Matrix, plane: Plane, p: Pixel)
    requires plane == Y || LimitedRange(m)
    ensures Convert(m, plane, p) == Unclamped(m, plane, p)
  {
  }

  /** Full-range chroma lies in 1 .. 256 before clamping. It is clamped for exactly one colour: pure
      blue for U, pure red for V. */
  lemma ChromaSaturatesOnlyForPureColour(m: Matrix, plane: Plane, p: Pixel)
    requires plane != Y && !LimitedRange(m)
    ensures 1 <= Unclamped(m, plane, p) <= 256
    ensures Convert(m, plane, p) != Unclamped(m, plane, p)
       <==> p == if plane == U then Pixel(255, 0, 0) else Pixel(0, 0, 255)
  {
  }

  /** Grey stays grey: chroma is neutral under every matrix, and full-range luma is the grey level. */
  lemma GreyStaysGrey(m: Matrix, v: byte)
    ensures Convert(m, U, Pixel(v, v, v)) == 128 && Convert(m, V, Pixel(v, v, v)) == 128
    ensures !LimitedRange(m) ==> Convert(m, Y, Pixel(v, v, v)) == v
  {
  }

  // ---------------------------------------------------------------- what the weights mean

  /** The luma coefficients of a full-range standard, in ten-thousandths. */
  datatype Standard = Standard(kr: nat, kg: nat, kb: nat) {

    /** The luma of a pixel, times 10000. */
    function Luma(p: Pixel): nat {
      kr * p.r + kg * p.g + kb * p.b
    }
  }

  /** ITU-R BT.601 and BT.709. */
  function StandardOf(m: Matrix): Standard
    requires !LimitedRange(m)
  {
    if m == BT601 then Standard(2990, 5870, 1140) else Standard(2126, 7152, 722)
  }

  /** The luma weights are the standard's coefficients, rounded to 1/65536. */
  lemma LumaWeightsAreRounded(m: Matrix)
    requires !LimitedRange(m)
    ensures var w, k := WeightsOf(m, Y), StandardOf(m);
            && -5000 <= 10000 * w.r - 65536 * k.kr <= 5000
            && -5000 <= 10000 * w.g - 65536 * k.kg <= 5000
            && -5000 <= 10000 * w.b - 65536 * k.kb <= 5000
  {
  }

  /** Luma is within 0.506 of the standard's luma for every pixel. */
  lemma LumaIsAccurate(m: Matrix, p: Pixel)
    requires !LimitedRange(m)
    ensures -5060 <= 10000 * Convert(m, Y, p) - StandardOf(m).Luma(p) <= 5060
  {
  }

  /** `value` is `difference / scale`, to within 0.53. */
  predicate IsQuotient(value: int, difference: int, scale: int) {
    -53 * scale <= 100 * (scale * value - difference) <= 53 * scale
  }

  /** The shift rounds to the nearest integer. */
  lemma ShiftRounds(x: int)
    ensures -32768 <= 65536 * ShiftRight16(x + 32768) - x <= 32768
  {
  }

  /** `x` is `65536 * difference / scale`, to within 1966. */
  predicate IsScaled(x: int, difference: int, scale: int) {
    -1966 * scale <= scale * x - 65536 * difference <= 1966 * scale
  }

  lemma QuotientOfShift(x: int, difference: int, scale: nat)
    requires IsScaled(x, difference, scale)
    ensures IsQuotient(ShiftRight16(x + 32768), difference, scale)
  {
    var v := ShiftRight16(x + 32768);
    ShiftRounds(x);
    assert -32768 * scale <= scale * (65536 * v - x) <= 32768 * scale;
    assert scale * (65536 * v - x) == 65536 * (scale * v) - scale * x;
  }

  lemma WeightedDifferences(m: Matrix, p: Pixel)
    requires !LimitedRange(m)
    ensures IsScaled(WeightsOf(m, U).Of(p), BlueDifference(m, p), BlueScale(m))
    ensures IsScaled(WeightsOf(m, V).Of(p), RedDifference(m, p), RedScale(m))
  {
    match m
    case BT601 =>
    case BT709 =>
  }

  /** Blue minus luma, and red minus luma, times 10000. */
  function BlueDifference(m: Matrix, p: Pixel): int
    requires !LimitedRange(m)
  {
    10000 * p.b - StandardOf(m).Luma(p)
  }

  function RedDifference(m: Matrix, p: Pixel): int
    requires !LimitedRange(m)
  {
    10000 * p.r - StandardOf(m).Luma(p)
  }

  /** Dividing by this brings a difference into minus one half to one half of the sample range. */
  function BlueScale(m: Matrix): nat
    requires !LimitedRange(m)
  {
    2 * (10000 - StandardOf(m).kb)
  }

  function RedScale(m: Matrix): nat
    requires !LimitedRange(m)
  {
    2 * (10000 - StandardOf(m).kr)
  }

  /** Before clamping, U is 128 plus half of the difference of blue and luma, scaled to the full range. */
  lemma BlueDifferenceIsAccurate(m: Matrix, p: Pixel)
    requires !LimitedRange(m)
    ensures IsQuotient(Unclamped(m, U, p) - 128, BlueDifference(m, p), BlueScale(m))
  {
    var x, v := WeightsOf(m, U).Of(p), Unclamped(m, U, p) - 128;
    assert v == ShiftRight16(x + 32768);
    assert IsQuotient(v, BlueDifference(m, p), BlueScale(m)) by {
      WeightedDifferences(m, p);
      QuotientOfShift(x, BlueDifference(m, p), BlueScale(m));
    }
  }

  /** Before clamping, V is 128 plus half of the difference of red and luma, scaled to the full range. */
  lemma RedDifferenceIsAccurate(m: Matrix, p: Pixel)
    requires !LimitedRange(m)
    ensures IsQuotient(Unclamped(m, V, p) - 128, RedDifference(m, p), RedScale(m))
  {
    var x, v := WeightsOf(m, V).Of(p), Unclamped(m, V, p) - 128;
    assert v == ShiftRight16(x + 32768);
    assert IsQuotient(v, RedDifference(m, p), RedScale(m)) by {
      WeightedDifferences(m, p);
      QuotientOfShift(x, RedDifference(m, p), RedScale(m));
    }
  }

  /** The limited-range matrix is the integer conversion of OpenH264. */
  lemma LimitedRangeFormulas(p: Pixel)
    ensures Convert(OpenH264, Y, p) == (66 * p.r + 129 * p.g + 25 * p.b + 128) / 256 + 16
    ensures Convert(OpenH264, U, p) == (-38 * p.r - 74 * p.g + 112 * p.b + 128) / 256 + 128
    ensures Convert(OpenH264, V, p) == (112 * p.r - 94 * p.g - 18 * p.b + 128) / 256 + 128
  {
  }
}
