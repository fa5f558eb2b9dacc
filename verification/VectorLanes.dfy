/**
 The 128-bit and 256-bit register operations used by the colour kernels. A 256-bit register is two
 128-bit lanes; unpack, pack and horizontal add work inside each lane. Registers are written as
 sequences of 8-, 16- or 32-bit elements, least significant first.
 */
module VectorLanes {
  import opened Common

  function Wrap16(x: int): int {
    (x + 0x8000) % 0x1_0000 - 0x8000
  }

  function Wrap32(x: int): int {
    (x + 0x8000_0000) % U32_LIMIT - 0x8000_0000
  }

  /** Arithmetic shift right by 16: division rounding towards minus infinity. */
  function ShiftRight16(x: int): int {
    x / 0x1_0000
  }

  // ---------------------------------------------------------------- bytes of one 128-bit register

  /** `_mm_shuffle_epi8`: negative selectors give zero. */
  function Shuffle(v: seq<byte>, mask: seq<int>): (r: seq<byte>)
    requires |v| == 16 && |mask| == 16
    ensures |r| == 16
  {
    seq(16, j requires 0 <= j < 16 => if mask[j] < 0 then 0 else v[mask[j] % 16])
  }

  /** `_mm_unpacklo_epi8`: the bytes of the low halves, alternating. */
  function UnpackLo8(a: seq<byte>, b: seq<byte>): (r: seq<byte>)
    requires |a| == |b| == 16
    ensures |r| == 16
  {
    [a[0], b[0], a[1], b[1], a[2], b[2], a[3], b[3], a[4], b[4], a[5], b[5], a[6], b[6], a[7], b[7]]
  }

  /** `_mm_unpacklo_epi16`: the 16-bit elements of the low halves, alternating. */
  function UnpackLo16(a: seq<byte>, b: seq<byte>): (r: seq<byte>)
    requires |a| == |b| == 16
    ensures |r| == 16
  {
    [a[0], a[1], b[0], b[1], a[2], a[3], b[2], b[3], a[4], a[5], b[4], b[5], a[6], a[7], b[6], b[7]]
  }

  /** `_mm_unpackhi_epi16`: the same with the high halves. */
  function UnpackHi16(a: seq<byte>, b: seq<byte>): (r: seq<byte>)
    requires |a| == |b| == 16
    ensures |r| == 16
  {
    UnpackLo16(a[8..] + a[..8], b[8..] + b[..8])
  }

  /** `_mm_unpacklo_epi32`: the 32-bit elements of the low halves, alternating. */
  function UnpackLo32(a: seq<byte>, b: seq<byte>): (r: seq<byte>)
    requires |a| == |b| == 16
    ensures |r| == 16
  {
    a[..4] + b[..4] + a[4..8] + b[4..8]
  }

  function Elements32(v: seq<byte>): (r: seq<int>)
    requires |v| == 16
    ensures |r| == 4
  {
    [Lane32(v, 0), Lane32(v, 1), Lane32(v, 2), Lane32(v, 3)]
  }

  // ---------------------------------------------------------------- element-wise arithmetic

  /** `_mm256_mullo_epi32`, `vmulq_s32` by a broadcast constant. */
  function Mul32(a: seq<int>, c: int): (r: seq<int>)
    ensures |r| == |a|
  {
    seq(|a|, i requires 0 <= i < |a| => Wrap32(a[i] * c))
  }

  /** `_mm256_add_epi32`, `vaddq_s32`. */
  function Add32(a: seq<int>, b: seq<int>): (r: seq<int>)
    requires |a| == |b|
    ensures |r| == |a|
  {
    seq(|a|, i requires 0 <= i < |a| => Wrap32(a[i] + b[i]))
  }

  /** `_mm256_add_epi32`, `vaddq_s32` with a broadcast constant. */
  function AddConst32(a: seq<int>, c: int): (r: seq<int>)
    ensures |r| == |a|
  {
    seq(|a|, i requires 0 <= i < |a| => Wrap32(a[i] + c))
  }

  /** `_mm256_srai_epi32`, `vshrq_n_s32` by 16. */
  function Srai16(a: seq<int>): (r: seq<int>)
    ensures |r| == |a|
  {
    seq(|a|, i requires 0 <= i < |a| => ShiftRight16(a[i]))
  }

  /** Element-wise maximum and minimum with two constants. */
  function ClampElements(a: seq<int>, lo: int, hi: int): (r: seq<int>)
    requires lo <= hi
    ensures |r| == |a|
  {
    seq(|a|, i requires 0 <= i < |a| => Min(Max(a[i], lo), hi))
  }

  /** 16-bit additions of two registers, wrapping. */
  function Add16(a: seq<int>, b: seq<int>): (r: seq<int>)
    requires |a| == |b|
    ensures |r| == |a|
  {
    seq(|a|, i requires 0 <= i < |a| => (a[i] + b[i]) % 0x1_0000)
  }

  /** `_mm256_add_epi16` and `_mm256_srli_epi16`: add 2, then shift right by 2, on unsigned elements. */
  function RoundedQuarter16(a: seq<int>): (r: seq<int>)
    ensures |r| == |a|
  {
    seq(|a|, i requires 0 <= i < |a| => (a[i] + 2) % 0x1_0000 / 4)
  }

  // ---------------------------------------------------------------- 256-bit operations, lane by lane

  function Saturate16(x: int): int {
    Clamp(x, -0x8000, 0x7FFF)
  }

  function SaturateU8(x: int): byte {
    Clamp(x, 0, 0xFF)
  }

  function SaturateAll16(a: seq<int>): (r: seq<int>)
    ensures |r| == |a|
  {
    seq(|a|, i requires 0 <= i < |a| => Saturate16(a[i]))
  }

  function SaturateAllU8(a: seq<int>): (r: seq<byte>)
    ensures |r| == |a|
  {
    seq(|a|, i requires 0 <= i < |a| => SaturateU8(a[i]))
  }

  /** `_mm256_packs_epi32`: inside each lane the elements of `a`, then those of `b`. */
  function Packs32(a: seq<int>, b: seq<int>): (r: seq<int>)
    requires |a| == |b| == 8
    ensures |r| == 16
  {
    SaturateAll16(a[..4] + b[..4] + a[4..] + b[4..])
  }

  /** `_mm256_packus_epi16`: inside each lane the elements of `a`, then those of `b`. */
  function Packus16(a: seq<int>, b: seq<int>): (r: seq<byte>)
    requires |a| == |b| == 16
    ensures |r| == 32
  {
    SaturateAllU8(a[..8] + b[..8] + a[8..] + b[8..])
  }

  /** Sums of neighbours, wrapping to 16 bits. */
  function PairSums16(v: seq<int>): (r: seq<int>)
    requires |v| == 8
    ensures |r| == 4
  {
    [(v[0] + v[1]) % 0x1_0000, (v[2] + v[3]) % 0x1_0000, (v[4] + v[5]) % 0x1_0000, (v[6] + v[7]) % 0x1_0000]
  }

  /** `_mm256_hadd_epi16`: inside each lane the pair sums of `a`, then those of `b`. */
  function Hadd16(a: seq<int>, b: seq<int>): (r: seq<int>)
    requires |a| == |b| == 16
    ensures |r| == 16
  {
    PairSums16(a[..8]) + PairSums16(b[..8]) + PairSums16(a[8..]) + PairSums16(b[8..])
  }

  /** The 64-bit element `k` of a 256-bit register. */
  function Quarter(v: seq<byte>, k: nat): (r: seq<byte>)
    requires |v| == 32 && k < 4
    ensures |r| == 8
  {
    v[8 * k..8 * k + 8]
  }

  /** `_mm256_permute4x64_epi64`: two bits of the control select each 64-bit element. */
  function Permute64(v: seq<byte>, control: nat): (r: seq<byte>)
    requires |v| == 32
    ensures |r| == 32
  {
    Quarter(v, control % 4) + Quarter(v, control / 4 % 4) + Quarter(v, control / 16 % 4) + Quarter(v, control / 64 % 4)
  }

  /** `_mm256_unpacklo_epi8` with zero, as 16-bit elements: the low half of each lane. */
  function WidenLo(v: seq<byte>): (r: seq<int>)
    requires |v| == 32
    ensures |r| == 16
  {
    WidenBytes(v[..8] + v[16..24])
  }

  /** `_mm256_unpackhi_epi8` with zero, as 16-bit elements: the high half of each lane. */
  function WidenHi(v: seq<byte>): (r: seq<int>)
    requires |v| == 32
    ensures |r| == 16
  {
    WidenBytes(v[8..16] + v[24..])
  }

  function WidenBytes(v: seq<byte>): (r: seq<int>)
    ensures |r| == |v|
  {
    seq(|v|, i requires 0 <= i < |v| => v[i] as int)
  }
}
