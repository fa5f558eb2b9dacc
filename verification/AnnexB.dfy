/**
 Splitting H.264 byte streams (Annex B of ITU-T H.264) into NAL units: the scanner of the diagnostics
 (src/egfx/encode_diagnostics.rs:212-244), the independently written rewriter to length-prefixed form
 (src/egfx/encoder.rs:195-255), and where the two agree.
 */
module AnnexB {
  import opened Common

  type Bytes = seq<byte>

  predicate StartCode3(s: Bytes, i: nat) {
    i + 3 <= |s| && s[i] == 0 && s[i + 1] == 0 && s[i + 2] == 1
  }

  predicate StartCode4(s: Bytes, i: nat) {
    i + 4 <= |s| && s[i] == 0 && s[i + 1] == 0 && s[i + 2] == 0 && s[i + 3] == 1
  }

  predicate IsStart(s: Bytes, i: nat) {
    StartCode3(s, i) || StartCode4(s, i)
  }

  function StartCodeLength(s: Bytes, i: nat): nat {
    if StartCode4(s, i) then 4 else if StartCode3(s, i) then 3 else 0
  }

  /** The first start code at or after `i`, or the end of the stream. */
  function FindStart(s: Bytes, i: nat): (r: nat)
    requires i <= |s|
    ensures i <= r <= |s|
    decreases |s| - i
  {
    if i == |s| || IsStart(s, i) then i else FindStart(s, i + 1)
  }

  lemma {:induction false} FindStartFinds(s: Bytes, i: nat)
    requires i <= |s|
    ensures FindStart(s, i) < |s| ==> IsStart(s, FindStart(s, i))
    ensures forall j :: i <= j < FindStart(s, i) ==> !IsStart(s, j)
    decreases |s| - i
  {
    if i < |s| && !IsStart(s, i) {
      FindStartFinds(s, i + 1);
    }
  }

  lemma FindStartIs(s: Bytes, i: nat, r: nat)
    requires i <= r <= |s| && (r == |s| || IsStart(s, r)) && forall j :: i <= j < r ==> !IsStart(s, j)
    ensures FindStart(s, i) == r
  {
    var f := FindStart(s, i);
    FindStartFinds(s, i);
    assert f == |s| || IsStart(s, f);
    assert r == |s| || IsStart(s, r);
  }

  lemma SlicesAreStartCodes(s: Bytes, i: nat)
    ensures i + 3 <= |s| ==> (s[i..i + 3] == [0, 0, 1] <==> StartCode3(s, i))
    ensures i + 4 <= |s| ==> (s[i..i + 4] == [0, 0, 0, 1] <==> StartCode4(s, i))
  {
    if i + 3 <= |s| && StartCode3(s, i) {
      assert s[i..i + 3] == [0, 0, 1];
    }
    if i + 4 <= |s| && StartCode4(s, i) {
      assert s[i..i + 4] == [0, 0, 0, 1];
    }
    if i + 3 <= |s| && s[i..i + 3] == [0, 0, 1] {
      assert s[i..i + 3][0] == s[i] && s[i..i + 3][1] == s[i + 1] && s[i..i + 3][2] == s[i + 2];
    }
    if i + 4 <= |s| && s[i..i + 4] == [0, 0, 0, 1] {
      assert s[i..i + 4][0] == s[i] && s[i..i + 4][1] == s[i + 1];
      assert s[i..i + 4][2] == s[i + 2] && s[i..i + 4][3] == s[i + 3];
    }
  }

  /** Start codes of a suffix are those of the stream, shifted. */
  lemma StartsOfSuffix(s: Bytes, i: nat, j: nat)
    requires i <= |s|
    ensures StartCode3(s[i..], j) == StartCode3(s, i + j) && StartCode4(s[i..], j) == StartCode4(s, i + j)
  {
  }

  lemma FindStartInSuffix(s: Bytes, i: nat, j: nat)
    requires i <= |s| && j <= |s| - i
    ensures FindStart(s[i..], j) == FindStart(s, i + j) - i
  {
    var r := FindStart(s, i + j) - i;
    FindStartFinds(s, i + j);
    forall k: nat | j <= k <= r
      ensures IsStart(s[i..], k) == IsStart(s, i + k)
    {
      StartsOfSuffix(s, i, k);
    }
    FindStartIs(s[i..], j, r);
  }

  // ---------------------------------------------------------------- the diagnostics scanner

  /** The NAL units that the diagnostics scanner finds in a stream. It looks for the end of a unit
      from its second byte on. */
  function Nals(s: Bytes): seq<Bytes>
    decreases |s|
  {
    if |s| == 0 then []
    else
      var k := StartCodeLength(s, 0);
      if k == 0 then Nals(s[1..])
      else if k >= |s| then []
      else
        var end := FindStart(s, k + 1);
        [s[k..end]] + Nals(s[end..])
  }

  /** One entry of the scanner's result: the type and the half-open range of the slice. */
  datatype NalSlice = NalSlice(nalType: byte, start: nat, end: nat)

  ghost predicate OrderedSlices(slices: seq<NalSlice>, limit: nat) {
    && (forall i :: 0 <= i < |slices| ==> slices[i].start < slices[i].end <= limit)
    && (forall i, j :: 0 <= i < j < |slices| ==> slices[i].end <= slices[j].start)
  }

  function Contents(s: Bytes, slices: seq<NalSlice>): (r: seq<Bytes>)
    requires forall i :: 0 <= i < |slices| ==> slices[i].start <= slices[i].end <= |s|
    ensures |r| == |slices|
  {
    seq(|slices|, i requires 0 <= i < |slices| => s[slices[i].start..slices[i].end])
  }

  /** The inner loop of the diagnostics scanner. */
  method FindNalEnd(data: Bytes, first: nat) returns (nalEnd: nat)
    requires first <= |data|
    ensures nalEnd == FindStart(data, first)
  {
    nalEnd := |data|;
    var j := first;
    while j + 2 < |data|
      invariant first <= j && nalEnd == |data|
      invariant forall k :: first <= k < j ==> !IsStart(data, k)
      decreases |data| - j
    {
      SlicesAreStartCodes(data, j);
      if data[j..j + 3] == [0, 0, 1] || (j + 3 < |data| && data[j..j + 4] == [0, 0, 0, 1]) {
        nalEnd := j;
        break;
      }
      j := j + 1;
    }
    FindStartIs(data, first, nalEnd);
  }

  /** `parse_annex_b_nals`. The slices are ordered, disjoint and non-empty ranges of the input, on
      arbitrary bytes; `& 0x1F` of the first byte is the type. */
  method ParseAnnexBNals(data: Bytes) returns (out: seq<NalSlice>)
    ensures OrderedSlices(out, |data|)
    ensures Contents(data, out) == Nals(data)
    ensures forall i :: 0 <= i < |out| ==> out[i].nalType == data[out[i].start] % 32
  {
    out := [];
    var i := 0;
    while i < |data|
      invariant Parsed(data, out, i)
      decreases |data| - i
    {
      var scLen;
      SlicesAreStartCodes(data, i);
      if i + 4 <= |data| && data[i..i + 4] == [0, 0, 0, 1] {
        scLen := 4;
      } else if i + 3 <= |data| && data[i..i + 3] == [0, 0, 1] {
        scLen := 3;
      } else {
        NalsSkip(data, i);
        i := i + 1;
        continue;
      }
      var nalStart := i + scLen;
      if nalStart >= |data| {
        NalsEnd(data, i);
        return;
      }
      var nalEnd := FindNalEnd(data, nalStart + 1);
      NalsUnit(data, i, scLen, nalEnd);
      ParsedOneMore(data, out, i, nalStart, nalEnd);
      out := out + [NalSlice(data[nalStart] % 32, nalStart, nalEnd)];
      i := nalEnd;
    }
  }

  ghost predicate Typed(data: Bytes, out: seq<NalSlice>) {
    forall k :: 0 <= k < |out| ==> out[k].start < |data| && out[k].nalType == data[out[k].start] % 32
  }

  /** The scanner has reached position `i`: what it found so far followed by what the rest of the
      stream holds is what the stream holds. */
  ghost predicate Parsed(data: Bytes, out: seq<NalSlice>, i: nat) {
    && i <= |data| && OrderedSlices(out, i)
    && Typed(data, out)
    && Contents(data, out) + Nals(data[i..]) == Nals(data)
  }

  lemma ParsedOneMore(data: Bytes, out: seq<NalSlice>, i: nat, start: nat, end: nat)
    requires Parsed(data, out, i) && i <= start < end <= |data|
    requires Nals(data[i..]) == [data[start..end]] + Nals(data[end..])
    ensures Parsed(data, out + [NalSlice(data[start] % 32, start, end)], end)
  {
    var slice := NalSlice(data[start] % 32, start, end);
    OrderedOneMore(out, i, slice);
    ContentsOneMore(data, out, slice);
    Regroup(Contents(data, out), data[start..end], Nals(data[end..]));
  }

  lemma Regroup(found: seq<Bytes>, unit: Bytes, rest: seq<Bytes>)
    ensures found + ([unit] + rest) == found + [unit] + rest
  {
  }

  lemma OrderedOneMore(out: seq<NalSlice>, i: nat, slice: NalSlice)
    requires OrderedSlices(out, i) && i <= slice.start < slice.end
    ensures OrderedSlices(out + [slice], slice.end)
  {
  }

  lemma ContentsOneMore(data: Bytes, out: seq<NalSlice>, slice: NalSlice)
    requires forall i :: 0 <= i < |out| ==> out[i].start <= out[i].end <= |data|
    requires slice.start <= slice.end <= |data|
    ensures Contents(data, out + [slice]) == Contents(data, out) + [data[slice.start..slice.end]]
  {
  }

  lemma NalsSkip(s: Bytes, i: nat)
    requires i < |s| && StartCodeLength(s, i) == 0
    ensures Nals(s[i..]) == Nals(s[i + 1..])
  {
  }

  lemma NalsEnd(s: Bytes, i: nat)
    requires i < |s| && 0 < StartCodeLength(s, i) && i + StartCodeLength(s, i) >= |s|
    ensures Nals(s[i..]) == []
  {
  }

  lemma NalsUnit(s: Bytes, i: nat, k: nat, end: nat)
    requires i + k < |s| && k == StartCodeLength(s, i) > 0 && end == FindStart(s, i + k + 1)
    ensures Nals(s[i..]) == [s[i + k..end]] + Nals(s[end..])
  {
    var rest := s[i..];
    assert StartCodeLength(rest, 0) == k by {
      StartsOfSuffix(s, i, 0);
    }
    assert FindStart(rest, k + 1) == end - i by {
      FindStartInSuffix(s, i, k + 1);
    }
    NalsFront(rest, k, end - i);
    SliceOfSuffix(s, i, k, end - i);
  }

  lemma NalsFront(s: Bytes, k: nat, end: nat)
    requires 0 < k == StartCodeLength(s, 0) < |s| && end == FindStart(s, k + 1)
    ensures Nals(s) == [s[k..end]] + Nals(s[end..])
  {
  }

  lemma SliceOfSuffix(s: Bytes, i: nat, a: nat, b: nat)
    requires a <= b && i + b <= |s|
    ensures s[i..][a..b] == s[i + a..i + b] && s[i..][b..] == s[i + b..]
  {
  }

  // ---------------------------------------------------------------- the rewriter

  /** The NAL units that the rewriter finds. It looks for the end of a unit from its first byte on
      and skips empty units. */
  function AvcNals(s: Bytes): seq<Bytes>
    decreases |s|
  {
    if |s| == 0 then []
    else
      var k := StartCodeLength(s, 0);
      if k == 0 then AvcNals(s[1..])
      else
        var end := FindStart(s, k);
        (if end > k then [s[k..end]] else []) + AvcNals(s[end..])
  }

  function BigEndian(n: nat, digits: nat): (r: Bytes)
    ensures |r| == digits
  {
    if digits == 0 then [] else BigEndian(n / 0x100, digits - 1) + [n % 0x100]
  }

  /** `(len as u32).to_be_bytes()`. */
  function LengthPrefix(n: nat): (r: Bytes)
    ensures |r| == 4
  {
    BigEndian(n % U32_LIMIT, 4)
  }

  function Prefixed(nals: seq<Bytes>): Bytes {
    if nals == [] then [] else LengthPrefix(|nals[0]|) + nals[0] + Prefixed(nals[1..])
  }

  lemma AvcNalsUnit(s: Bytes, i: nat, k: nat, end: nat)
    requires i + k <= |s| && k == StartCodeLength(s, i) > 0 && end == FindStart(s, i + k)
    ensures AvcNals(s[i..]) == (if end > i + k then [s[i + k..end]] else []) + AvcNals(s[end..])
  {
    var rest := s[i..];
    assert StartCodeLength(rest, 0) == k by {
      StartsOfSuffix(s, i, 0);
    }
    assert FindStart(rest, k) == end - i by {
      FindStartInSuffix(s, i, k);
    }
    calc {
      AvcNals(rest);
      { AvcNalsFront(rest, k, end - i); }
      (if end - i > k then [rest[k..end - i]] else []) + AvcNals(rest[end - i..]);
      { SliceOfSuffix(s, i, k, end - i); }
      (if end > i + k then [s[i + k..end]] else []) + AvcNals(s[end..]);
    }
  }

  lemma AvcNalsFront(s: Bytes, k: nat, end: nat)
    requires k == StartCodeLength(s, 0) > 0 && end == FindStart(s, k)
    ensures AvcNals(s) == (if end > k then [s[k..end]] else []) + AvcNals(s[end..])
  {
  }

  /** The inner loop of the rewriter. */
  method FindAvcNalEnd(data: Bytes, first: nat) returns (nalEnd: nat)
    requires first <= |data|
    ensures nalEnd == FindStart(data, first)
  {
    nalEnd := |data|;
    var j := first;
    while j + 3 <= |data|
      invariant first <= j && nalEnd == |data|
      invariant forall k :: first <= k < j ==> !IsStart(data, k)
      decreases |data| - j
    {
      if data[j] == 0 && data[j + 1] == 0
         && (data[j + 2] == 1 || (j + 3 < |data| && data[j + 2] == 0 && data[j + 3] == 1)) {
        nalEnd := j;
        break;
      }
      j := j + 1;
    }
    FindStartIs(data, first, nalEnd);
  }

  /** The rewriter has reached position `i`. */
  ghost predicate Rewritten(data: Bytes, output: Bytes, i: nat) {
    i <= |data| && output + Prefixed(AvcNals(data[i..])) == Prefixed(AvcNals(data))
  }

  lemma PrefixedCons(n: Bytes, rest: seq<Bytes>)
    ensures Prefixed([n] + rest) == LengthPrefix(|n|) + n + Prefixed(rest)
  {
  }

  lemma RewrittenSkip(data: Bytes, output: Bytes, i: nat)
    requires Rewritten(data, output, i) && i < |data| && StartCodeLength(data, i) == 0
    ensures Rewritten(data, output, i + 1)
  {
  }

  lemma RewrittenEmpty(data: Bytes, output: Bytes, i: nat, k: nat)
    requires Rewritten(data, output, i) && i + k <= |data| && k == StartCodeLength(data, i) > 0
    requires FindStart(data, i + k) == i + k
    ensures Rewritten(data, output, i + k)
  {
    AvcNalsUnit(data, i, k, i + k);
    assert [] + AvcNals(data[i + k..]) == AvcNals(data[i + k..]);
  }

  lemma RewrittenUnit(data: Bytes, output: Bytes, i: nat, k: nat, end: nat, n: Bytes)
    requires Rewritten(data, output, i) && i + k < |data| && k == StartCodeLength(data, i) > 0
    requires end == FindStart(data, i + k) > i + k && n == data[i + k..end]
    ensures Rewritten(data, output + LengthPrefix(|n|) + n, end)
  {
    var rest := AvcNals(data[end..]);
    assert AvcNals(data[i..]) == [n] + rest by {
      AvcNalsUnit(data, i, k, end);
    }
    assert Prefixed([n] + rest) == LengthPrefix(|n|) + n + Prefixed(rest) by {
      PrefixedCons(n, rest);
    }
    Reassociate(output, LengthPrefix(|n|), n, Prefixed(rest));
  }

  lemma Reassociate(a: Bytes, b: Bytes, c: Bytes, d: Bytes)
    ensures a + (b + c + d) == a + b + c + d
  {
  }

  /** `annex_b_to_avc`. */
  method AnnexBToAvc(data: Bytes) returns (output: Bytes)
    ensures output == Prefixed(AvcNals(data))
  {
    output := [];
    var i := 0;
    assert data[0..] == data;
    while i < |data|
      invariant i <= |data|
      invariant Rewritten(data, output, i)
      decreases |data| - i
    {
      var startCodeLen;
      if i + 4 <= |data| && data[i] == 0 && data[i + 1] == 0 && data[i + 2] == 0 && data[i + 3] == 1 {
        startCodeLen := 4;
      } else if i + 3 <= |data| && data[i] == 0 && data[i + 1] == 0 && data[i + 2] == 1 {
        startCodeLen := 3;
      } else {
        RewrittenSkip(data, output, i);
        i := i + 1;
        continue;
      }
      var nalStart := i + startCodeLen;
      var nalEnd := FindAvcNalEnd(data, nalStart);
      var nalData := data[nalStart..nalEnd];
      if nalData != [] {
        RewrittenUnit(data, output, i, startCodeLen, nalEnd, nalData);
        output := output + LengthPrefix(|nalData|) + nalData;
      } else {
        RewrittenEmpty(data, output, i, startCodeLen);
      }
      i := nalEnd;
    }
  }
}
