/** 4:2:0 chroma subsampling (src/egfx/color_convert.rs:628-870): the scalar 2x2 box filter and the
    two vector kernels that must compute the same plane. */
module ChromaSubsample {
  import opened Common
  import opened VectorLanes

  /** Average of four samples, rounding half up. */
  function Box(a: byte, b: byte, c: byte, d: byte): byte {
    (a as int + b + c + d + 2) / 4
  }

  /** The average lies between the smallest and the largest of its block. */
  lemma BoxIsBetween(a: byte, b: byte, c: byte, d: byte)
    ensures Min(Min(a, b), Min(c, d)) <= Box(a, b, c, d) <= Max(Max(a, b), Max(c, d))
  {
  }

  /** The average is rounded to the nearest sample, and a tie goes up. */
  lemma BoxIsNearest(a: byte, b: byte, c: byte, d: byte)
    ensures -1 <= 4 * Box(a, b, c, d) - (a as int + b + c + d) <= 2
  {
  }

  /** The first `n` samples of an output row, from two input rows. */
  function BoxRow(row0: seq<byte>, row1: seq<byte>, n: nat): (r: seq<byte>)
    requires 2 * n <= |row0| && 2 * n <= |row1|
    ensures |r| == n
  {
    seq(n, i requires 0 <= i < n => Box(row0[2 * i], row0[2 * i + 1], row1[2 * i], row1[2 * i + 1]))
  }

  /** The output plane, one row of `n` samples for every two input rows of `2 * n` samples. */
  function Subsampled(plane: seq<byte>, n: nat): seq<byte> {
    if n == 0 || |plane| < 4 * n then [] else FirstRow(plane, n) + Subsampled(plane[4 * n..], n)
  }

  function FirstRow(plane: seq<byte>, n: nat): (r: seq<byte>)
    requires 4 * n <= |plane|
    ensures |r| == n
  {
    BoxRow(plane[..2 * n], plane[2 * n..4 * n], n)
  }

  /** Row `y` of the output is made from rows `2y` and `2y + 1` of the input, which start at byte
      `y * 4n`. */
  lemma {:induction false} SubsampledRow(plane: seq<byte>, n: nat, y: nat, inAt: nat, outAt: nat)
    requires inAt == Flat(0, y, 4 * n) && outAt == Flat(0, y, n) && inAt + 4 * n <= |plane|
    ensures outAt + n <= |Subsampled(plane, n)|
    ensures Subsampled(plane, n)[outAt..outAt + n] == FirstRow(plane[inAt..], n)
    decreases y
  {
    if y > 0 {
      SubsampledRow(plane[4 * n..], n, y - 1, inAt - 4 * n, outAt - n);
      SliceOfConcat(FirstRow(plane, n), Subsampled(plane[4 * n..], n), outAt - n, outAt);
      assert plane[4 * n..][inAt - 4 * n..] == plane[inAt..];
    } else {
      assert plane[0..] == plane;
    }
  }

  /** The output has one sample for every block. */
  lemma {:induction false} SubsampledLength(plane: seq<byte>, n: nat, rows: nat)
    requires |plane| == Flat(0, rows, 4 * n)
    ensures |Subsampled(plane, n)| == Flat(0, rows, n)
    decreases rows
  {
    if rows > 0 {
      SubsampledLength(plane[4 * n..], n, rows - 1);
    }
  }

  lemma {:induction false} TwoRows(y: nat, n: nat)
    ensures Flat(0, 2 * y, 2 * n) == Flat(0, y, 4 * n) && Flat(0, 2 * y + 1, 2 * n) == Flat(0, y, 4 * n) + 2 * n
    decreases y
  {
    if y > 0 {
      TwoRows(y - 1, n);
      assert Flat(0, 2 * y, 2 * n) == 2 * n + Flat(0, 2 * (y - 1) + 1, 2 * n);
    }
  }

  /** The 2x2 block of sample (`x`, `y`): columns `2x` and `2x + 1` of rows `2y` and `2y + 1`. */
  datatype Block = Block(a: nat, b: nat, c: nat, d: nat)

  function BlockOf(x: nat, y: nat, width: nat): Block {
    Block(Flat(2 * x, 2 * y, width), Flat(2 * x + 1, 2 * y, width),
          Flat(2 * x, 2 * y + 1, width), Flat(2 * x + 1, 2 * y + 1, width))
  }

  /** The average of a block. */
  function BoxAt(plane: seq<byte>, k: Block): byte
    requires k.a < |plane| && k.b < |plane| && k.c < |plane| && k.d < |plane|
  {
    Box(plane[k.a], plane[k.b], plane[k.c], plane[k.d])
  }

  lemma {:induction false} BlockPositions(x: nat, y: nat, n: nat, at: nat)
    requires at == Flat(0, y, 4 * n)
    ensures BlockOf(x, y, 2 * n) == Block(at + 2 * x, at + 2 * x + 1, at + 2 * n + 2 * x, at + 2 * n + 2 * x + 1)
  {
    TwoRows(y, n);
    FlatShifts(2 * x, 2 * y, 2 * n);
    FlatShifts(2 * x + 1, 2 * y, 2 * n);
    FlatShifts(2 * x, 2 * y + 1, 2 * n);
    FlatShifts(2 * x + 1, 2 * y + 1, 2 * n);
  }

  lemma {:induction false} SampleAt(plane: seq<byte>, n: nat, x: nat, y: nat, inAt: nat, outAt: nat, out: seq<byte>, k: Block)
    requires inAt == Flat(0, y, 4 * n) && outAt == Flat(0, y, n) && inAt + 4 * n <= |plane| && x < n
    requires out == Subsampled(plane, n)
    requires k == Block(inAt + 2 * x, inAt + 2 * x + 1, inAt + 2 * n + 2 * x, inAt + 2 * n + 2 * x + 1)
    ensures outAt + x < |out| && out[outAt + x] == BoxAt(plane, k)
  {
    SubsampledRow(plane, n, y, inAt, outAt);
    ElementOfSlice(out, outAt, n, x, FirstRow(plane[inAt..], n));
    FirstRowAt(plane, n, inAt, x);
  }

  lemma {:induction false} BlockInPlane(plane: seq<byte>, n: nat, rows: nat, x: nat, y: nat, k: Block)
    requires |plane| == Flat(0, rows, 4 * n) && x < n && y < rows && k == BlockOf(x, y, 2 * n)
    ensures k.a < |plane| && k.b < |plane| && k.c < |plane| && k.d < |plane|
  {
    FlatMonotone(y, rows, 4 * n);
    BlockPositions(x, y, n, Flat(0, y, 4 * n));
  }

  /** Sample (`x`, `y`) of the output is the rounded average of its block of the input, whose rows hold
      `2n` samples; `BoxIsBetween` bounds it by the extremes of that block. */
  lemma {:induction false} SubsampledAt(plane: seq<byte>, n: nat, rows: nat, x: nat, y: nat, out: seq<byte>, k: Block, at: nat)
    requires |plane| == Flat(0, rows, 4 * n) && x < n && y < rows
    requires out == Subsampled(plane, n) && k == BlockOf(x, y, 2 * n) && at == Flat(x, y, n)
    ensures k.a < |plane| && k.b < |plane| && k.c < |plane| && k.d < |plane|
    ensures at < |out| && out[at] == BoxAt(plane, k)
  {
    BlockInPlane(plane, n, rows, x, y, k);
    FlatMonotone(y, rows, 4 * n);
    BlockPositions(x, y, n, Flat(0, y, 4 * n));
    FlatShifts(x, y, n);
    SampleAt(plane, n, x, y, Flat(0, y, 4 * n), Flat(0, y, n), out, k);
  }

  lemma ElementOfSlice(s: seq<byte>, at: nat, n: nat, x: nat, row: seq<byte>)
    requires at + n <= |s| && x < n && s[at..at + n] == row
    ensures |row| == n && s[at + x] == row[x]
  {
  }

  lemma FirstRowAt(plane: seq<byte>, n: nat, at: nat, x: nat)
    requires at + 4 * n <= |plane| && x < n
    ensures FirstRow(plane[at..], n)[x]
         == Box(plane[at + 2 * x], plane[at + 2 * x + 1], plane[at + 2 * n + 2 * x], plane[at + 2 * n + 2 * x + 1])
  {
    var rest := plane[at..];
    assert rest[..2 * n][2 * x] == plane[at + 2 * x] && rest[..2 * n][2 * x + 1] == plane[at + 2 * x + 1];
    assert rest[2 * n..4 * n][2 * x] == plane[at + 2 * n + 2 * x];
    assert rest[2 * n..4 * n][2 * x + 1] == plane[at + 2 * n + 2 * x + 1];
  }

  lemma SliceOfConcat(a: seq<byte>, b: seq<byte>, i: nat, j: nat)
    requires i <= j <= |b|
    ensures (a + b)[|a| + i..|a| + j] == b[i..j]
  {
  }

  // ---------------------------------------------------------------- vector blocks

  lemma PairSumAt(v: seq<int>, k: nat)
    requires |v| == 8 && k < 4 && 0 <= v[2 * k] < 0x200 && 0 <= v[2 * k + 1] < 0x200
    ensures PairSums16(v)[k] == v[2 * k] + v[2 * k + 1]
  {
  }

  /** The vertical sums at input columns `at` to `at + 7`. */
  predicate ColumnSums(v: seq<int>, r0: seq<byte>, r1: seq<byte>, at: nat)
    requires |r0| == |r1|
  {
    |v| == 8 && at + 8 <= |r0| && forall k :: 0 <= k < 8 ==> v[k] == r0[at + k] as int + r1[at + k]
  }

  lemma VerticalSums(r0: seq<byte>, r1: seq<byte>)
    requires |r0| == |r1| == 32
    ensures ColumnSums(Add16(WidenLo(r0), WidenLo(r1))[..8], r0, r1, 0)
    ensures ColumnSums(Add16(WidenHi(r0), WidenHi(r1))[..8], r0, r1, 8)
    ensures ColumnSums(Add16(WidenLo(r0), WidenLo(r1))[8..], r0, r1, 16)
    ensures ColumnSums(Add16(WidenHi(r0), WidenHi(r1))[8..], r0, r1, 24)
  {
  }

  lemma QuarterIsBox(v: seq<int>, r0: seq<byte>, r1: seq<byte>, at: nat, k: nat, sums: seq<int>)
    requires |r0| == |r1| && ColumnSums(v, r0, r1, at) && k < 4 && |sums| > 0 && sums == PairSums16(v)
    ensures (sums[k] + 2) % 0x1_0000 / 4 == Box(r0[at + 2 * k], r0[at + 2 * k + 1], r1[at + 2 * k], r1[at + 2 * k + 1])
  {
    PairSumAt(v, k);
  }

  /** The horizontal add of each lane delivers the pairs in order across both operands. */
  lemma Avx2Averages(r0: seq<byte>, r1: seq<byte>, vLo: seq<int>, vHi: seq<int>, i: nat)
    requires |r0| == |r1| == 32 && |vLo| == |vHi| == 16 && i < 16
    requires ColumnSums(vLo[..8], r0, r1, 0) && ColumnSums(vHi[..8], r0, r1, 8)
    requires ColumnSums(vLo[8..], r0, r1, 16) && ColumnSums(vHi[8..], r0, r1, 24)
    ensures RoundedQuarter16(Hadd16(vLo, vHi))[i] == Box(r0[2 * i], r0[2 * i + 1], r1[2 * i], r1[2 * i + 1])
  {
    if i < 4 {
      QuarterIsBox(vLo[..8], r0, r1, 0, i, PairSums16(vLo[..8]));
    } else if i < 8 {
      QuarterIsBox(vHi[..8], r0, r1, 8, i - 4, PairSums16(vHi[..8]));
    } else if i < 12 {
      QuarterIsBox(vLo[8..], r0, r1, 16, i - 8, PairSums16(vLo[8..]));
    } else {
      QuarterIsBox(vHi[8..], r0, r1, 24, i - 12, PairSums16(vHi[8..]));
    }
  }

  /** Packing duplicates each lane; the permutation brings the two distinct halves together. */
  lemma PackAndPermute(avg: seq<int>, i: nat)
    requires |avg| == 16 && i < 16 && 0 <= avg[i] < 256
    ensures Permute64(Packus16(avg, avg), 0xD8)[i] == avg[i]
  {
    var packed := Packus16(avg, avg);
    if i < 8 {
      assert packed[i] == avg[i] && Quarter(packed, 0)[i] == packed[i];
    } else {
      assert packed[i + 8] == avg[i] && Quarter(packed, 2)[i - 8] == packed[i + 8];
    }
  }

  /** Sixteen output samples from 32 input samples of two rows: the body of the AVX2 loop. */
  method Avx2Block(r0: seq<byte>, r1: seq<byte>) returns (low128: seq<byte>)
    requires |r0| == 32 && |r1| == 32
    ensures low128 == BoxRow(r0, r1, 16)
  {
    var vLo := Add16(WidenLo(r0), WidenLo(r1));
    var vHi := Add16(WidenHi(r0), WidenHi(r1));
    VerticalSums(r0, r1);
    var avg := RoundedQuarter16(Hadd16(vLo, vHi));
    low128 := Permute64(Packus16(avg, avg), 0xD8)[..16];
    forall i | 0 <= i < 16
      ensures low128[i] == BoxRow(r0, r1, 16)[i]
    {
      Avx2Averages(r0, r1, vLo, vHi, i);
      PackAndPermute(avg, i);
    }
  }

  /** Eight output samples from 16 input samples of two rows: the body of the NEON loop, with
      `vmovl_u8`, `vaddq_u16`, `vpaddq_u16` and the truncating `vmovn_u16`. */
  method NeonBlock(r0: seq<byte>, r1: seq<byte>) returns (result: seq<byte>)
    requires |r0| == 16 && |r1| == 16
    ensures result == BoxRow(r0, r1, 8)
  {
    var vLo := Add16(WidenBytes(r0[..8]), WidenBytes(r1[..8]));
    var vHi := Add16(WidenBytes(r0[8..]), WidenBytes(r1[8..]));
    NeonVerticalSums(r0, r1);
    var avg := RoundedQuarter16(PairSums16(vLo) + PairSums16(vHi));
    forall i | 0 <= i < 8
      ensures avg[i] == Box(r0[2 * i], r0[2 * i + 1], r1[2 * i], r1[2 * i + 1])
    {
      NeonAverages(r0, r1, vLo, vHi, i);
    }
    result := NarrowAveraged(avg, r0, r1);
  }

  /** `vmovn_u16` of eight averages. */
  method NarrowAveraged(avg: seq<int>, ghost r0: seq<byte>, ghost r1: seq<byte>) returns (result: seq<byte>)
    requires |avg| == 8 && |r0| == |r1| == 16
    requires forall i :: 0 <= i < 8 ==> avg[i] == Box(r0[2 * i], r0[2 * i + 1], r1[2 * i], r1[2 * i + 1])
    ensures result == BoxRow(r0, r1, 8)
  {
    result := seq(8, i requires 0 <= i < 8 => avg[i] % 0x100);
  }

  lemma NeonVerticalSums(r0: seq<byte>, r1: seq<byte>)
    requires |r0| == |r1| == 16
    ensures ColumnSums(Add16(WidenBytes(r0[..8]), WidenBytes(r1[..8])), r0, r1, 0)
    ensures ColumnSums(Add16(WidenBytes(r0[8..]), WidenBytes(r1[8..])), r0, r1, 8)
  {
  }

  lemma NeonAverages(r0: seq<byte>, r1: seq<byte>, vLo: seq<int>, vHi: seq<int>, i: nat)
    requires |r0| == |r1| == 16 && |vLo| == |vHi| == 8 && i < 8
    requires ColumnSums(vLo, r0, r1, 0) && ColumnSums(vHi, r0, r1, 8)
    ensures RoundedQuarter16(PairSums16(vLo) + PairSums16(vHi))[i]
         == Box(r0[2 * i], r0[2 * i + 1], r1[2 * i], r1[2 * i + 1])
  {
    if i < 4 {
      QuarterIsBox(vLo, r0, r1, 0, i, PairSums16(vLo));
    } else {
      QuarterIsBox(vHi, r0, r1, 8, i - 4, PairSums16(vHi));
    }
  }

  // ---------------------------------------------------------------- rows and planes

  lemma BoxRowSplits(row0: seq<byte>, row1: seq<byte>, a: nat, n: nat, p: seq<byte>, q: seq<byte>)
    requires 2 * (a + n) <= |row0| && 2 * (a + n) <= |row1|
    requires p == row0[2 * a..2 * (a + n)] && q == row1[2 * a..2 * (a + n)]
    ensures BoxRow(row0, row1, a + n) == BoxRow(row0, row1, a) + BoxRow(p, q, n)
  {
    forall i | 0 <= i < n
      ensures BoxRow(p, q, n)[i] == BoxRow(row0, row1, a + n)[a + i]
    {
      assert p[2 * i] == row0[2 * (a + i)] && p[2 * i + 1] == row0[2 * (a + i) + 1];
      assert q[2 * i] == row1[2 * (a + i)] && q[2 * i + 1] == row1[2 * (a + i) + 1];
    }
  }

  lemma BoxRowNext(row0: seq<byte>, row1: seq<byte>, n: nat)
    requires 2 * (n + 1) <= |row0| && 2 * (n + 1) <= |row1|
    ensures BoxRow(row0, row1, n + 1)
         == BoxRow(row0, row1, n) + [Box(row0[2 * n], row0[2 * n + 1], row1[2 * n], row1[2 * n + 1])]
  {
    assert forall i :: 0 <= i < n ==> BoxRow(row0, row1, n + 1)[i] == BoxRow(row0, row1, n)[i];
  }

  /** The AVX2 steps of one output row, sixteen samples each. */
  method Avx2Row(row0: seq<byte>, row1: seq<byte>, outWidth: nat) returns (row: seq<byte>)
    requires |row0| == |row1| == 2 * outWidth
    ensures |row| <= outWidth && row == BoxRow(row0, row1, |row|)
  {
    row := [];
    for chunk := 0 to outWidth / 16
      invariant |row| == 16 * chunk && row == BoxRow(row0, row1, 16 * chunk)
    {
      var inX := chunk * 32;
      var r0, r1 := row0[inX..inX + 32], row1[inX..inX + 32];
      var block := Avx2Block(r0, r1);
      BoxRowSplits(row0, row1, 16 * chunk, 16, r0, r1);
      row := row + block;
    }
  }

  /** The NEON steps of one output row, eight samples each. */
  method NeonRow(row0: seq<byte>, row1: seq<byte>, outWidth: nat) returns (row: seq<byte>)
    requires |row0| == |row1| == 2 * outWidth
    ensures |row| <= outWidth && row == BoxRow(row0, row1, |row|)
  {
    row := [];
    for chunk := 0 to outWidth / 8
      invariant |row| == 8 * chunk && row == BoxRow(row0, row1, 8 * chunk)
    {
      var inX := chunk * 16;
      var r0, r1 := row0[inX..inX + 16], row1[inX..inX + 16];
      var block := NeonBlock(r0, r1);
      BoxRowSplits(row0, row1, 8 * chunk, 8, r0, r1);
      row := row + block;
    }
  }

  /** One output row: whole vector steps where the build has them, then single samples. */
  method SubsampleRow(cpu: Cpu, row0: seq<byte>, row1: seq<byte>, outWidth: nat) returns (row: seq<byte>)
    requires |row0| == |row1| == 2 * outWidth
    ensures row == BoxRow(row0, row1, outWidth)
  {
    row := [];
    if cpu.X86WithAvx2? {
      row := Avx2Row(row0, row1, outWidth);
    } else if cpu.ArmWithNeon? || cpu.ArmWithoutNeon? {
      row := NeonRow(row0, row1, outWidth);
    }
    for outX := |row| to outWidth
      invariant row == BoxRow(row0, row1, outX)
    {
      var inX := 2 * outX;
      BoxRowNext(row0, row1, outX);
      row := row + [Box(row0[inX], row0[inX + 1], row1[inX], row1[inX + 1])];
    }
  }

  /** The vector has been filled for the rows before byte `row0` of the input. */
  ghost predicate RowsDone(chroma: seq<byte>, n: nat, out: seq<byte>, row0: nat) {
    row0 <= |chroma| && out + Subsampled(chroma[row0..], n) == Subsampled(chroma, n)
  }

  lemma NextRowDone(chroma: seq<byte>, n: nat, before: seq<byte>, at: nat, row0: seq<byte>, row1: seq<byte>)
    requires RowsDone(chroma, n, before, at) && at + 4 * n <= |chroma|
    requires row0 == chroma[at..at + 2 * n] && row1 == chroma[at + 2 * n..at + 4 * n]
    ensures RowsDone(chroma, n, before + BoxRow(row0, row1, n), at + 4 * n)
  {
    FirstRowOfSuffix(chroma, n, at);
    assert chroma[at..][4 * n..] == chroma[at + 4 * n..];
    Reassociate(before, FirstRow(chroma[at..], n), Subsampled(chroma[at + 4 * n..], n));
  }

  lemma RowsDoneAtEnds(chroma: seq<byte>, n: nat, out: seq<byte>)
    ensures RowsDone(chroma, n, [], 0)
    ensures RowsDone(chroma, n, out, |chroma|) ==> out == Subsampled(chroma, n)
  {
  }

  lemma Reassociate(a: seq<byte>, b: seq<byte>, c: seq<byte>)
    ensures a + (b + c) == a + b + c
  {
  }

  lemma FirstRowOfSuffix(chroma: seq<byte>, n: nat, row0: nat)
    requires row0 + 4 * n <= |chroma|
    ensures BoxRow(chroma[row0..row0 + 2 * n], chroma[row0 + 2 * n..row0 + 4 * n], n) == FirstRow(chroma[row0..], n)
  {
  }

  /** The row loop of `subsample_chroma_420`. */
  method SubsampleRows(cpu: Cpu, chroma: seq<byte>, outWidth: nat, outHeight: nat) returns (out: seq<byte>)
    requires |chroma| == Flat(0, outHeight, 4 * outWidth)
    ensures out == Subsampled(chroma, outWidth)
  {
    out := [];
    var rowStart, width := 0, 2 * outWidth;
    RowsDoneAtEnds(chroma, outWidth, []);
    for outY := 0 to outHeight
      invariant rowStart == Flat(0, outY, 4 * outWidth)
      invariant RowsDone(chroma, outWidth, out, rowStart)
    {
      FlatMonotone(outY, outHeight, 4 * outWidth);
      var row0, row1 := chroma[rowStart..rowStart + width], chroma[rowStart + width..rowStart + 2 * width];
      var row := SubsampleRow(cpu, row0, row1, outWidth);
      NextRowDone(chroma, outWidth, out, rowStart, row0, row1);
      out, rowStart := out + row, rowStart + 2 * width;
    }
    RowsDoneAtEnds(chroma, outWidth, out);
  }

  /** `subsample_chroma_420`: every build computes the scalar box filter. */
  method SubsampleChroma420(cpu: Cpu, chroma: seq<byte>, width: nat, height: nat) returns (out: seq<byte>)
    requires width % 2 == 0 && height % 2 == 0 && |chroma| == width * height
    ensures out == Subsampled(chroma, width / 2)
  {
    var outWidth, outHeight := width / 2, height / 2;
    PlaneSizes(width, height, outWidth, outHeight);
    out := SubsampleRows(cpu, chroma, outWidth, outHeight);
  }

  /** Both planes end where their last row does. */
  lemma PlaneSizes(width: nat, height: nat, outWidth: nat, outHeight: nat)
    requires width == 2 * outWidth && height == 2 * outHeight
    ensures Flat(0, outHeight, 4 * outWidth) == width * height
    ensures Flat(0, outHeight, outWidth) == outWidth * outHeight
  {
    FlatIsRowMajor(0, outHeight, 4 * outWidth);
    FlatIsRowMajor(0, outHeight, outWidth);
    assert outHeight * (4 * outWidth) == (2 * outWidth) * (2 * outHeight);
  }
}
