/** Value types shared by the models of the damage detector, the encoders and the clipboard. */
module Common {

  /** One octet of a frame or of a bitstream (`u8`). */
  type byte = b: int | 0 <= b < 256

  const U32_LIMIT := 0x1_0000_0000

  datatype Option<+T> = None | Some(value: T)

  function Min(a: int, b: int): int {
    if a <= b then a else b
  }

  function Max(a: int, b: int): int {
    if a <= b then b else a
  }

  /** `clamp(lo, hi)` of the integer types. */
  function Clamp(v: int, lo: int, hi: int): int
    requires lo <= hi
  {
    if v < lo then lo else if v > hi then hi else v
  }

  /** `saturating_sub` of the unsigned integer types. */
  function SaturatingSub(a: nat, b: nat): nat {
    if a >= b then a - b else 0
  }

  lemma MulMonotone(a: nat, b: nat, c: nat)
    requires a <= b
    ensures a * c <= b * c
  {
  }

  /** The index of column `x` of row `y` in a flat vector with `width` entries per row. */
  function Flat(x: nat, y: nat, width: nat): nat
    decreases y
  {
    if y == 0 then x else width + Flat(x, y - 1, width)
  }

  lemma {:induction false} FlatIsRowMajor(x: nat, y: nat, width: nat)
    ensures Flat(x, y, width) == y * width + x
    decreases y
  {
    if y > 0 {
      FlatIsRowMajor(x, y - 1, width);
      assert y * width == (y - 1) * width + width;
    }
  }

  lemma {:induction false} FlatShifts(x: nat, y: nat, width: nat)
    ensures Flat(x, y, width) == Flat(0, y, width) + x
    decreases y
  {
    if y > 0 {
      FlatShifts(x, y - 1, width);
    }
  }

  lemma {:induction false} FlatMonotone(y: nat, h: nat, width: nat)
    requires y < h
    ensures Flat(0, y, width) + width <= Flat(0, h, width)
    decreases h
  {
    if y < h - 1 {
      FlatMonotone(y, h - 1, width);
    }
  }

  /** The vector units that the build and the processor make available. */
  datatype Cpu = X86WithAvx2 | ArmWithNeon | ArmWithoutNeon | Other

  /** The unsigned value of 32-bit element `k` of a vector register, least significant byte first. */
  function Lane32(v: seq<byte>, k: nat): nat
    requires 4 * k + 4 <= |v|
  {
    v[4 * k] as int + 0x100 * v[4 * k + 1] as int + 0x1_0000 * v[4 * k + 2] as int + 0x100_0000 * v[4 * k + 3] as int
  }
}
