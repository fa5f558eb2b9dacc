/**
 The byte-wise and 32-bit-lane vector operations used by the pixel-difference kernels, on vectors
 written as sequences of bytes in memory order (little endian).
 */
module ByteLanes {
  import opened Common

  function Or8(a: byte, b: byte): byte {
    ((a as bv8) | (b as bv8)) as int
  }

  function And8(a: byte, b: byte): byte {
    ((a as bv8) & (b as bv8)) as int
  }

  lemma OrWithZero(a: byte)
    ensures Or8(a, 0) == a && Or8(0, a) == a
  {
  }

  lemma AndWithMask(a: byte)
    ensures And8(a, 0xFF) == a && And8(a, 0) == 0
  {
  }

  /** `_mm256_set1_epi8`, `vdupq_n_u8`. */
  function Set1(b: byte, n: nat): (r: seq<byte>)
    ensures |r| == n
  {
    seq(n, _ => b)
  }

  /** 0xFF for B, G, R and 0x00 for alpha, for `pixels` pixels. */
  function BgrMask(pixels: nat): (r: seq<byte>)
    ensures |r| == 4 * pixels
  {
    seq(4 * pixels, i => if i % 4 == 3 then 0 else 0xFF)
  }

  /** `_mm256_subs_epu8`: per-byte saturating subtraction. */
  function SubsBytes(a: seq<byte>, b: seq<byte>): (r: seq<byte>)
    requires |a| == |b|
    ensures |r| == |a|
  {
    seq(|a|, i requires 0 <= i < |a| => SaturatingSub(a[i], b[i]))
  }

  /** `_mm256_or_si256`. */
  function OrBytes(a: seq<byte>, b: seq<byte>): (r: seq<byte>)
    requires |a| == |b|
    ensures |r| == |a|
  {
    seq(|a|, i requires 0 <= i < |a| => Or8(a[i], b[i]))
  }

  /** `_mm256_and_si256`, `vandq_u8`. */
  function AndBytes(a: seq<byte>, b: seq<byte>): (r: seq<byte>)
    requires |a| == |b|
    ensures |r| == |a|
  {
    seq(|a|, i requires 0 <= i < |a| => And8(a[i], b[i]))
  }

  /** `_mm256_cmpeq_epi32`: each 32-bit lane becomes all ones or all zeros. */
  function CmpEq32(a: seq<byte>, b: seq<byte>): (r: seq<byte>)
    requires |a| == |b| && |a| % 4 == 0
    ensures |r| == |a|
  {
    seq(|a|, i requires 0 <= i < |a| => if Lane32(a, i / 4) == Lane32(b, i / 4) then 0xFF else 0)
  }

  /** `_mm256_movemask_ps`: the top bit of every 32-bit lane. */
  function MoveMask32(v: seq<byte>): (r: seq<bool>)
    requires |v| % 4 == 0
    ensures |r| == |v| / 4
  {
    seq(|v| / 4, k requires 0 <= k < |v| / 4 => v[4 * k + 3] >= 0x80)
  }

  /** `count_ones`. */
  function CountOnes(bits: seq<bool>): (n: nat)
    ensures n <= |bits|
  {
    if bits == [] then 0 else CountOnes(bits[..|bits| - 1]) + (if bits[|bits| - 1] then 1 else 0)
  }

  /** `vabdq_u8`: per-byte absolute difference. */
  function AbdBytes(a: seq<byte>, b: seq<byte>): (r: seq<byte>)
    requires |a| == |b|
    ensures |r| == |a|
  {
    seq(|a|, i requires 0 <= i < |a| => if a[i] >= b[i] then a[i] - b[i] else b[i] - a[i])
  }

  /** `vcgtq_u8`: 0xFF where `a` exceeds `b`. */
  function CgtBytes(a: seq<byte>, b: seq<byte>): (r: seq<byte>)
    requires |a| == |b|
    ensures |r| == |a|
  {
    seq(|a|, i requires 0 <= i < |a| => if a[i] > b[i] then 0xFF else 0)
  }

  /** `vreinterpretq_u32_u8`. */
  function Lanes32(v: seq<byte>): (r: seq<nat>)
    requires |v| % 4 == 0
    ensures |r| == |v| / 4
  {
    seq(|v| / 4, k requires 0 <= k < |v| / 4 => Lane32(v, k))
  }

  /** `vcgtq_u32`: all ones where the lane exceeds `b`. */
  function Cgt32(a: seq<nat>, b: nat): (r: seq<nat>)
    ensures |r| == |a|
  {
    seq(|a|, k requires 0 <= k < |a| => if a[k] > b then U32_LIMIT - 1 else 0)
  }

  /** `vshrq_n_u32` by 31. */
  function ShiftRight31(a: seq<nat>): (r: seq<nat>)
    ensures |r| == |a|
  {
    seq(|a|, k requires 0 <= k < |a| => a[k] / 0x8000_0000)
  }

  /** `vaddvq_u32`: the sum of all lanes, modulo 2^32. */
  function AddAcross(a: seq<nat>): nat {
    Sum(a) % U32_LIMIT
  }

  function Sum(a: seq<nat>): nat {
    if a == [] then 0 else Sum(a[..|a| - 1]) + a[|a| - 1]
  }
}
