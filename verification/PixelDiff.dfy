/**
 Counting the BGRA pixels that differ between two byte slices (src/damage/mod.rs:252-412): the
 scalar loop and the two vector kernels that must return the same number.
 */
module PixelDiff {
  import opened Common
  import opened ByteLanes

  function AbsDiff(a: byte, b: byte): byte {
    if a >= b then a - b else b - a
  }

  /** Pixel `k` differs: some colour channel differs by more than the threshold. Alpha (byte
      `4 * k + 3`) plays no part. */
  predicate Differs(prev: seq<byte>, curr: seq<byte>, threshold: byte, k: nat)
    requires 4 * k + 4 <= |prev| && 4 * k + 4 <= |curr|
  {
    || AbsDiff(prev[4 * k], curr[4 * k]) > threshold
    || AbsDiff(prev[4 * k + 1], curr[4 * k + 1]) > threshold
    || AbsDiff(prev[4 * k + 2], curr[4 * k + 2]) > threshold
  }

  /** The number of differing pixels with index in `lo .. hi`. */
  function CountDiffs(prev: seq<byte>, curr: seq<byte>, threshold: byte, lo: nat, hi: nat): (n: nat)
    requires lo <= hi && 4 * hi <= |prev| && 4 * hi <= |curr|
    ensures n <= hi - lo
    decreases hi
  {
    if lo == hi then 0
    else CountDiffs(prev, curr, threshold, lo, hi - 1) + (if Differs(prev, curr, threshold, hi - 1) then 1 else 0)
  }

  /** Whole pixels in both slices: `chunks_exact(4)` drops a partial pixel, `zip` the longer tail. */
  function PixelCount(prev: seq<byte>, curr: seq<byte>): nat {
    Min(|prev| / 4, |curr| / 4)
  }

  function DiffCount(prev: seq<byte>, curr: seq<byte>, threshold: byte): nat {
    CountDiffs(prev, curr, threshold, 0, PixelCount(prev, curr))
  }

  /** Byte `c` of pixel `k` moved by more than the threshold, up or down. */
  predicate Moved(prev: seq<byte>, curr: seq<byte>, threshold: byte, k: nat, c: nat)
    requires 4 * k + 4 <= |prev| && 4 * k + 4 <= |curr| && c < 4
  {
    prev[4 * k + c] > curr[4 * k + c] + threshold || curr[4 * k + c] > prev[4 * k + c] + threshold
  }

  /** A pixel differs if and only if one of its first three bytes moved. */
  lemma DiffersIff(prev: seq<byte>, curr: seq<byte>, threshold: byte, k: nat)
    requires 4 * k + 4 <= |prev| && 4 * k + 4 <= |curr|
    ensures Differs(prev, curr, threshold, k) <==> exists c :: 0 <= c < 3 && Moved(prev, curr, threshold, k, c)
  {
    assert Differs(prev, curr, threshold, k)
      <==> Moved(prev, curr, threshold, k, 0) || Moved(prev, curr, threshold, k, 1) || Moved(prev, curr, threshold, k, 2);
  }

  /** The pixels of a range that differ. */
  ghost function DifferingPixels(prev: seq<byte>, curr: seq<byte>, threshold: byte, lo: nat, hi: nat): set<nat>
    requires 4 * hi <= |prev| && 4 * hi <= |curr|
  {
    set k: nat | lo <= k < hi && Differs(prev, curr, threshold, k)
  }

  /** The count is the number of differing pixels. */
  lemma {:induction false} CountIsCardinality(prev: seq<byte>, curr: seq<byte>, threshold: byte, lo: nat, hi: nat)
    requires lo <= hi && 4 * hi <= |prev| && 4 * hi <= |curr|
    ensures CountDiffs(prev, curr, threshold, lo, hi) == |DifferingPixels(prev, curr, threshold, lo, hi)|
    decreases hi
  {
    var all := DifferingPixels(prev, curr, threshold, lo, hi);
    if lo == hi {
      assert all == {};
    } else {
      CountIsCardinality(prev, curr, threshold, lo, hi - 1);
      assert all == DifferingPixels(prev, curr, threshold, lo, hi - 1)
                    + (if Differs(prev, curr, threshold, hi - 1) then {hi - 1} else {});
    }
  }

  lemma {:induction false} CountIsAdditive(prev: seq<byte>, curr: seq<byte>, threshold: byte, a: nat, b: nat, c: nat)
    requires a <= b <= c && 4 * c <= |prev| && 4 * c <= |curr|
    ensures CountDiffs(prev, curr, threshold, a, c)
         == CountDiffs(prev, curr, threshold, a, b) + CountDiffs(prev, curr, threshold, b, c)
    decreases c
  {
    if b < c {
      CountIsAdditive(prev, curr, threshold, a, b, c - 1);
    }
  }

  /** Counting in a slice that starts at pixel `at` is counting in the whole, shifted. */
  lemma {:induction false} CountInSlice(prev: seq<byte>, curr: seq<byte>, threshold: byte, at: nat, n: nat,
                                        p: seq<byte>, c: seq<byte>)
    requires 4 * (at + n) <= |prev| && 4 * (at + n) <= |curr| && 4 * n <= |p| && 4 * n <= |c|
    requires p[..4 * n] == prev[4 * at..4 * (at + n)] && c[..4 * n] == curr[4 * at..4 * (at + n)]
    ensures CountDiffs(p, c, threshold, 0, n) == CountDiffs(prev, curr, threshold, at, at + n)
    decreases n
  {
    if n > 0 {
      assert p[..4 * (n - 1)] == p[..4 * n][..4 * (n - 1)];
      assert c[..4 * (n - 1)] == c[..4 * n][..4 * (n - 1)];
      CountInSlice(prev, curr, threshold, at, n - 1, p, c);
      forall i | 4 * (n - 1) <= i < 4 * n
        ensures p[i] == prev[4 * at + i] && c[i] == curr[4 * at + i]
      {
        assert p[i] == p[..4 * n][i] && c[i] == c[..4 * n][i];
      }
      assert Differs(p, c, threshold, n - 1) == Differs(prev, curr, threshold, at + n - 1);
    }
  }

  /** `count_different_pixels_scalar`. */
  method CountScalar(prev: seq<byte>, curr: seq<byte>, threshold: byte) returns (count: nat)
    ensures count == DiffCount(prev, curr, threshold)
  {
    count := 0;
    for k := 0 to Min(|prev| / 4, |curr| / 4)
      invariant count == CountDiffs(prev, curr, threshold, 0, k)
    {
      var p, c := prev[4 * k..4 * k + 4], curr[4 * k..4 * k + 4];
      var diffB := AbsDiff(p[0], c[0]);
      var diffG := AbsDiff(p[1], c[1]);
      var diffR := AbsDiff(p[2], c[2]);
      if diffB > threshold || diffG > threshold || diffR > threshold {
        count := count + 1;
      }
    }
  }

  // ---------------------------------------------------------------- AVX2

  /** The byte that the AVX2 kernel computes for one byte position, before lanes are compared. */
  lemma OverByte(prev: seq<byte>, curr: seq<byte>, threshold: byte, i: nat)
    requires |prev| == |curr| == 32 && i < 32
    ensures AndBytes(SubsBytes(OrBytes(SubsBytes(prev, curr), SubsBytes(curr, prev)), Set1(threshold, 32)), BgrMask(8))[i]
         == if i % 4 == 3 then 0 else SaturatingSub(AbsDiff(prev[i], curr[i]), threshold)
  {
    OrWithZero(AbsDiff(prev[i], curr[i]));
    AndWithMask(SaturatingSub(AbsDiff(prev[i], curr[i]), threshold));
  }

  lemma {:induction false} OnesAreUnchangedPixels(prev: seq<byte>, curr: seq<byte>, threshold: byte, bits: seq<bool>)
    requires 4 * |bits| <= |prev| && 4 * |bits| <= |curr|
    requires forall k :: 0 <= k < |bits| ==> bits[k] == !Differs(prev, curr, threshold, k)
    ensures |bits| - CountOnes(bits) == CountDiffs(prev, curr, threshold, 0, |bits|)
  {
    if bits != [] {
      OnesAreUnchangedPixels(prev, curr, threshold, bits[..|bits| - 1]);
    }
  }

  /** The differing lanes of one 32-byte block: the body of the AVX2 loop. */
  method Avx2Block(prev: seq<byte>, curr: seq<byte>, threshold: byte) returns (count: nat)
    requires |prev| == |curr| == 32
    ensures count == CountDiffs(prev, curr, threshold, 0, 8)
  {
    var diff := OrBytes(SubsBytes(prev, curr), SubsBytes(curr, prev));
    var over := SubsBytes(diff, Set1(threshold, 32));
    var overBgr := AndBytes(over, BgrMask(8));
    var bits := MoveMask32(CmpEq32(overBgr, Set1(0, 32)));
    OverBytes(prev, curr, threshold, overBgr);
    UnchangedBits(prev, curr, threshold, overBgr, bits);
    OnesAreUnchangedPixels(prev, curr, threshold, bits);
    count := 8 - CountOnes(bits);
  }

  lemma {:induction false} OverBytes(prev: seq<byte>, curr: seq<byte>, threshold: byte, overBgr: seq<byte>)
    requires |prev| == |curr| == 32
    requires overBgr
          == AndBytes(SubsBytes(OrBytes(SubsBytes(prev, curr), SubsBytes(curr, prev)), Set1(threshold, 32)), BgrMask(8))
    ensures forall i :: 0 <= i < 32 ==>
              overBgr[i] == if i % 4 == 3 then 0 else SaturatingSub(AbsDiff(prev[i], curr[i]), threshold)
  {
    forall i | 0 <= i < 32
      ensures overBgr[i] == if i % 4 == 3 then 0 else SaturatingSub(AbsDiff(prev[i], curr[i]), threshold)
    {
      OverByte(prev, curr, threshold, i);
    }
  }

  lemma {:induction false} UnchangedBits(prev: seq<byte>, curr: seq<byte>, threshold: byte, overBgr: seq<byte>, bits: seq<bool>)
    requires |prev| == |curr| == |overBgr| == 32 && bits == MoveMask32(CmpEq32(overBgr, Set1(0, 32)))
    requires forall i :: 0 <= i < 32 ==>
               overBgr[i] == if i % 4 == 3 then 0 else SaturatingSub(AbsDiff(prev[i], curr[i]), threshold)
    ensures |bits| == 8 && forall k :: 0 <= k < 8 ==> bits[k] == !Differs(prev, curr, threshold, k)
  {
  }

  /** `count_different_pixels_avx2`. The kernel loads `curr` at the offsets of `prev`, so it may run
      wherever `curr` covers the whole blocks of `prev`; neither length need be a multiple of 32 or 4. */
  method CountAvx2(prev: seq<byte>, curr: seq<byte>, threshold: byte) returns (count: nat)
    requires |curr| < 32 || |prev| / 32 * 32 <= |curr|
    ensures count == DiffCount(prev, curr, threshold)
  {
    if |prev| < 32 || |curr| < 32 {
      count := CountScalar(prev, curr, threshold);
      return;
    }
    count := 0;
    var chunks := |prev| / 32;
    ghost var counted := 0;
    for i := 0 to chunks
      invariant counted == 8 * i && count == CountDiffs(prev, curr, threshold, 0, counted)
    {
      var offset := i * 32;
      var p, c := prev[offset..offset + 32], curr[offset..offset + 32];
      var block := Avx2Block(p, c, threshold);
      ExtendByBlock(prev, curr, threshold, counted, 8, p, c);
      count := count + block;
      counted := counted + 8;
    }
    var start := chunks * 32;
    CountTail(prev, curr, threshold, counted, prev[start..], curr[start..]);
    if start < |prev| {
      var tail := CountScalar(prev[start..], curr[start..], threshold);
      count := count + tail;
    }
  }

  /** The count up to pixel `at` plus the count of a slice starting there is the count up to its end. */
  lemma ExtendCount(prev: seq<byte>, curr: seq<byte>, threshold: byte, at: nat, n: nat, p: seq<byte>, c: seq<byte>)
    requires 4 * (at + n) <= |prev| && 4 * (at + n) <= |curr| && 4 * n <= |p| && 4 * n <= |c|
    requires p[..4 * n] == prev[4 * at..4 * (at + n)] && c[..4 * n] == curr[4 * at..4 * (at + n)]
    ensures CountDiffs(prev, curr, threshold, 0, at) + CountDiffs(p, c, threshold, 0, n)
         == CountDiffs(prev, curr, threshold, 0, at + n)
  {
    CountIsAdditive(prev, curr, threshold, 0, at, at + n);
    CountInSlice(prev, curr, threshold, at, n, p, c);
  }

  /** `ExtendCount` for a block of exactly `n` pixels. */
  lemma ExtendByBlock(prev: seq<byte>, curr: seq<byte>, threshold: byte, at: nat, n: nat, p: seq<byte>, c: seq<byte>)
    requires 4 * (at + n) <= |prev| && 4 * (at + n) <= |curr|
    requires p == prev[4 * at..4 * at + 4 * n] && c == curr[4 * at..4 * at + 4 * n]
    ensures CountDiffs(prev, curr, threshold, 0, at) + CountDiffs(p, c, threshold, 0, n)
         == CountDiffs(prev, curr, threshold, 0, at + n)
  {
    assert p[..4 * n] == p && c[..4 * n] == c;
    ExtendCount(prev, curr, threshold, at, n, p, c);
  }

  /** `ExtendCount` for a tail: the slices from pixel `at` to the end. */
  lemma {:induction false} CountTail(prev: seq<byte>, curr: seq<byte>, threshold: byte, at: nat, p: seq<byte>, c: seq<byte>)
    requires 4 * at <= |prev| && 4 * at <= |curr| && p == prev[4 * at..] && c == curr[4 * at..]
    ensures CountDiffs(prev, curr, threshold, 0, at) + DiffCount(p, c, threshold) == DiffCount(prev, curr, threshold)
  {
    TailPixels(prev, curr, at, p, c);
    ExtendByTail(prev, curr, threshold, at, PixelCount(p, c), p, c);
  }

  lemma {:induction false} ExtendByTail(prev: seq<byte>, curr: seq<byte>, threshold: byte, at: nat, n: nat, p: seq<byte>, c: seq<byte>)
    requires 4 * (at + n) <= |prev| && 4 * (at + n) <= |curr| && p == prev[4 * at..] && c == curr[4 * at..]
    ensures CountDiffs(prev, curr, threshold, 0, at) + CountDiffs(p, c, threshold, 0, n)
         == CountDiffs(prev, curr, threshold, 0, at + n)
  {
    SliceOfTail(prev, at, n, p);
    SliceOfTail(curr, at, n, c);
    ExtendCount(prev, curr, threshold, at, n, p, c);
  }

  lemma {:induction false} TailPixels(prev: seq<byte>, curr: seq<byte>, at: nat, p: seq<byte>, c: seq<byte>)
    requires 4 * at <= |prev| && 4 * at <= |curr| && p == prev[4 * at..] && c == curr[4 * at..]
    ensures PixelCount(prev, curr) == at + PixelCount(p, c)
    ensures 4 * (at + PixelCount(p, c)) <= |prev| && 4 * (at + PixelCount(p, c)) <= |curr|
  {
    assert |prev| / 4 == at + |p| / 4 && |curr| / 4 == at + |c| / 4;
  }

  lemma SliceOfTail(s: seq<byte>, at: nat, n: nat, tail: seq<byte>)
    requires 4 * (at + n) <= |s| && tail == s[4 * at..]
    ensures tail[..4 * n] == s[4 * at..4 * (at + n)]
  {
  }

  // ---------------------------------------------------------------- NEON

  lemma NeonByte(prev: seq<byte>, curr: seq<byte>, threshold: byte, i: nat)
    requires |prev| == |curr| == 16 && i < 16
    ensures AndBytes(CgtBytes(AbdBytes(prev, curr), Set1(threshold, 16)), BgrMask(4))[i]
         == if i % 4 != 3 && AbsDiff(prev[i], curr[i]) > threshold then 0xFF else 0
  {
  }

  lemma NeonLane(prev: seq<byte>, curr: seq<byte>, threshold: byte, masked: seq<byte>, k: nat)
    requires |prev| == |curr| == |masked| == 16 && k < 4
    requires forall i :: 0 <= i < 16 ==>
               masked[i] == if i % 4 != 3 && AbsDiff(prev[i], curr[i]) > threshold then 0xFF else 0
    ensures ShiftRight31(Cgt32(Lanes32(masked), 0))[k] == if Differs(prev, curr, threshold, k) then 1 else 0
  {
  }

  lemma {:induction false} LaneSumCounts(prev: seq<byte>, curr: seq<byte>, threshold: byte, lanes: seq<nat>)
    requires 4 * |lanes| <= |prev| && 4 * |lanes| <= |curr|
    requires forall k :: 0 <= k < |lanes| ==> lanes[k] == if Differs(prev, curr, threshold, k) then 1 else 0
    ensures Sum(lanes) == CountDiffs(prev, curr, threshold, 0, |lanes|)
  {
    if lanes != [] {
      LaneSumCounts(prev, curr, threshold, lanes[..|lanes| - 1]);
    }
  }

  lemma FourLaneSum(prev: seq<byte>, curr: seq<byte>, threshold: byte, lanes: seq<nat>)
    requires |prev| == |curr| == 16 && |lanes| == 4
    requires forall k :: 0 <= k < 4 ==> lanes[k] == if Differs(prev, curr, threshold, k) then 1 else 0
    ensures AddAcross(lanes) == CountDiffs(prev, curr, threshold, 0, 4)
  {
    LaneSumCounts(prev, curr, threshold, lanes);
  }

  /** The differing lanes of one 16-byte block: the body of the NEON loop. */
  method NeonBlock(prev: seq<byte>, curr: seq<byte>, threshold: byte) returns (count: nat)
    requires |prev| == |curr| == 16
    ensures count == CountDiffs(prev, curr, threshold, 0, 4)
  {
    var diff := AbdBytes(prev, curr);
    var exceeds := CgtBytes(diff, Set1(threshold, 16));
    var masked := AndBytes(exceeds, BgrMask(4));
    forall i | 0 <= i < 16
      ensures masked[i] == if i % 4 != 3 && AbsDiff(prev[i], curr[i]) > threshold then 0xFF else 0
    {
      NeonByte(prev, curr, threshold, i);
    }
    var lanes := ShiftRight31(Cgt32(Lanes32(masked), 0));
    forall k | 0 <= k < 4
      ensures lanes[k] == if Differs(prev, curr, threshold, k) then 1 else 0
    {
      NeonLane(prev, curr, threshold, masked, k);
    }
    FourLaneSum(prev, curr, threshold, lanes);
    count := AddAcross(lanes);
  }

  /** `count_different_pixels_neon`. */
  method CountNeon(prev: seq<byte>, curr: seq<byte>, threshold: byte) returns (count: nat)
    requires |curr| < 16 || |prev| / 16 * 16 <= |curr|
    ensures count == DiffCount(prev, curr, threshold)
  {
    if |prev| < 16 || |curr| < 16 {
      count := CountScalar(prev, curr, threshold);
      return;
    }
    count := 0;
    var chunks := |prev| / 16;
    ghost var counted := 0;
    for i := 0 to chunks
      invariant counted == 4 * i && count == CountDiffs(prev, curr, threshold, 0, counted)
    {
      var offset := i * 16;
      var p, c := prev[offset..offset + 16], curr[offset..offset + 16];
      var block := NeonBlock(p, c, threshold);
      ExtendByBlock(prev, curr, threshold, counted, 4, p, c);
      count := count + block;
      counted := counted + 4;
    }
    var start := chunks * 16;
    CountTail(prev, curr, threshold, counted, prev[start..], curr[start..]);
    if start < |prev| {
      var tail := CountScalar(prev[start..], curr[start..], threshold);
      count := count + tail;
    }
  }

  /** The chosen kernel may read these slices: `curr` covers the whole blocks of `prev`. */
  predicate Readable(cpu: Cpu, prev: seq<byte>, curr: seq<byte>) {
    match cpu
    case X86WithAvx2 => |curr| < 32 || |prev| / 32 * 32 <= |curr|
    case ArmWithNeon => |curr| < 16 || |prev| / 16 * 16 <= |curr|
    case _ => true
  }

  /** `count_different_pixels`: the answer does not depend on the kernel chosen. */
  method CountDifferentPixels(cpu: Cpu, prev: seq<byte>, curr: seq<byte>, threshold: byte) returns (count: nat)
    requires Readable(cpu, prev, curr)
    ensures count == DiffCount(prev, curr, threshold)
  {
    match cpu
    case X86WithAvx2 => count := CountAvx2(prev, curr, threshold);
    case ArmWithNeon => count := CountNeon(prev, curr, threshold);
    case _ => count := CountScalar(prev, curr, threshold);
  }

  /** Alpha never matters. */
  lemma {:induction false} AlphaIsIgnored(prev: seq<byte>, curr: seq<byte>, prev': seq<byte>, curr': seq<byte>,
                                          threshold: byte, n: nat)
    requires |prev| == |prev'| && |curr| == |curr'| && 4 * n <= |prev| && 4 * n <= |curr|
    requires forall i :: 0 <= i < 4 * n && i % 4 != 3 ==> prev[i] == prev'[i] && curr[i] == curr'[i]
    ensures CountDiffs(prev, curr, threshold, 0, n) == CountDiffs(prev', curr', threshold, 0, n)
  {
    if n > 0 {
      AlphaIsIgnored(prev, curr, prev', curr', threshold, n - 1);
      assert Differs(prev, curr, threshold, n - 1) == Differs(prev', curr', threshold, n - 1);
    }
  }
}
