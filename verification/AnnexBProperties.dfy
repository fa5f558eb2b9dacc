/** Round trips and agreement of the two Annex B scanners. */
module AnnexBProperties {
  import opened Common
  import opened AnnexB

  // ---------------------------------------------------------------- round trip

  /** What H.264 guarantees of a NAL unit: it is not empty, holds no start code and does not end in a
      zero byte. */
  ghost predicate WellFormedNal(n: Bytes) {
    |n| > 0 && n[|n| - 1] != 0 && forall i :: 0 <= i < |n| ==> !StartCode3(n, i)
  }

  function StartCode(long: bool): Bytes {
    if long then [0, 0, 0, 1] else [0, 0, 1]
  }

  /** The units, each after a start code of the chosen length. */
  function Write(nals: seq<Bytes>, long: seq<bool>): Bytes
    requires |nals| == |long|
  {
    if nals == [] then [] else StartCode(long[0]) + nals[0] + Write(nals[1..], long[1..])
  }

  lemma NoStartInsideUnit(s: Bytes, k: nat, n: Bytes, j: nat)
    requires WellFormedNal(n) && k + |n| <= |s| && s[k..k + |n|] == n && k <= j < k + |n|
    ensures !IsStart(s, j)
  {
    var last := k + |n| - 1;
    forall i | k <= i < k + |n|
      ensures s[i] == n[i - k]
    {
      assert s[i] == s[k..k + |n|][i - k];
    }
    if j + 2 <= last {
      assert !StartCode3(n, j - k);
      assert j + 3 <= last ==> !StartCode3(n, j + 1 - k);
    }
  }

  lemma WrittenStartsWithCode(nals: seq<Bytes>, long: seq<bool>)
    requires |nals| == |long|
    ensures nals != [] ==> IsStart(Write(nals, long), 0) && StartCodeLength(Write(nals, long), 0) == |StartCode(long[0])|
    ensures nals == [] ==> Write(nals, long) == []
  {
  }

  lemma FirstUnit(s: Bytes, k: nat, n: Bytes, rest: Bytes)
    requires WellFormedNal(n) && k + |n| <= |s| && s[k..k + |n|] == n && s[k + |n|..] == rest
    requires rest == [] || IsStart(rest, 0)
    ensures FindStart(s, k + 1) == k + |n|
  {
    StartsOfSuffix(s, k + |n|, 0);
    forall j | k + 1 <= j < k + |n|
      ensures !IsStart(s, j)
    {
      NoStartInsideUnit(s, k, n, j);
    }
    FindStartIs(s, k + 1, k + |n|);
  }

  /** Writing units after start codes and scanning the result returns the units. */
  lemma {:induction false} ScanOfWritten(nals: seq<Bytes>, long: seq<bool>)
    requires |nals| == |long| && forall i :: 0 <= i < |nals| ==> WellFormedNal(nals[i])
    ensures Nals(Write(nals, long)) == nals
  {
    if nals != [] {
      var s, n, rest := Write(nals, long), nals[0], Write(nals[1..], long[1..]);
      var k := |StartCode(long[0])|;
      ScanOfWritten(nals[1..], long[1..]);
      WrittenStartsWithCode(nals, long);
      WrittenStartsWithCode(nals[1..], long[1..]);
      assert s[k..k + |n|] == n && s[k + |n|..] == rest;
      FirstUnit(s, k, n, rest);
    }
  }

  /** `s` consists of `lead`, the units, each after a start code, and possibly a start code with nothing
      after it. */
  ghost predicate Reassembles(s: Bytes, lead: Bytes, nals: seq<Bytes>, long: seq<bool>, tail: Bytes) {
    && |long| == |nals| && (tail == [] || tail == StartCode(false) || tail == StartCode(true))
    && s == lead + Write(nals, long) + tail
  }

  lemma ReassembleByte(s: Bytes, lead: Bytes, nals: seq<Bytes>, long: seq<bool>, tail: Bytes)
    requires s != [] && Reassembles(s[1..], lead, nals, long, tail)
    ensures Reassembles(s, [s[0]] + lead, nals, long, tail)
  {
    assert s == [s[0]] + s[1..];
    assert [s[0]] + (lead + Write(nals, long) + tail) == [s[0]] + lead + Write(nals, long) + tail;
  }

  lemma WriteCons(n: Bytes, nals: seq<Bytes>, l: bool, long: seq<bool>)
    requires |nals| == |long|
    ensures Write([n] + nals, [l] + long) == StartCode(l) + n + Write(nals, long)
  {
    assert ([n] + nals)[1..] == nals && ([l] + long)[1..] == long;
  }

  lemma {:induction false} ReassembleUnit(s: Bytes, k: nat, end: nat, nals: seq<Bytes>, long: seq<bool>, tail: Bytes)
    requires k <= end <= |s| && s[..k] == StartCode(k == 4) && Reassembles(s[end..], [], nals, long, tail)
    ensures Reassembles(s, [], [s[k..end]] + nals, [k == 4] + long, tail)
  {
    var unit, rest := s[k..end], Write(nals, long);
    assert Write([unit] + nals, [k == 4] + long) == StartCode(k == 4) + unit + rest by {
      WriteCons(unit, nals, k == 4, long);
    }
    assert s == [] + (StartCode(k == 4) + unit + rest) + tail by {
      CutTwice(s, k, end);
      Assemble(s, s[..k], unit, s[end..], rest, tail);
    }
  }

  lemma CutTwice(s: Bytes, k: nat, end: nat)
    requires k <= end <= |s|
    ensures s == s[..k] + s[k..end] + s[end..]
  {
  }

  lemma Assemble(s: Bytes, code: Bytes, unit: Bytes, after: Bytes, rest: Bytes, tail: Bytes)
    requires s == code + unit + after && after == [] + rest + tail
    ensures s == [] + (code + unit + rest) + tail
  {
  }

  lemma CodeAtFront(s: Bytes, k: nat)
    requires 0 < k == StartCodeLength(s, 0)
    ensures k <= |s| && s[..k] == StartCode(k == 4)
  {
  }

  lemma CodeAtEnd(s: Bytes)
    requires 0 < StartCodeLength(s, 0) == |s|
    ensures Reassembles(s, [], [], [], s) && Nals(s) == []
  {
    assert s == StartCode(|s| == 4);
    assert s == [] + Write([], []) + s;
  }

  /** The inverse, on arbitrary bytes: scanning forgets only what comes before the first start code, which
      start codes are long, and a start code at the very end. */
  lemma {:induction false} WriteOfScanned(s: Bytes) returns (long: seq<bool>, tail: Bytes)
    ensures Reassembles(s, s[..FindStart(s, 0)], Nals(s), long, tail)
    decreases |s|
  {
    var k := StartCodeLength(s, 0);
    if s == [] {
      long, tail := [], [];
    } else if k == 0 {
      long, tail := WriteOfScanned(s[1..]);
      ReassembleByte(s, s[1..][..FindStart(s[1..], 0)], Nals(s[1..]), long, tail);
      LeadGrows(s);
    } else if k == |s| {
      long, tail := [], s;
      CodeAtEnd(s);
    } else {
      var end := FindStart(s, k + 1);
      long, tail := WriteOfScanned(s[end..]);
      StartsAtFound(s, k + 1, end);
      CodeAtFront(s, k);
      ReassembleUnit(s, k, end, Nals(s[end..]), long, tail);
      NalsFront(s, k, end);
      long := [k == 4] + long;
    }
  }

  lemma LeadGrows(s: Bytes)
    requires s != [] && StartCodeLength(s, 0) == 0
    ensures s[..FindStart(s, 0)] == [s[0]] + s[1..][..FindStart(s[1..], 0)]
  {
    FindStartInSuffix(s, 1, 0);
  }

  lemma StartsAtFound(s: Bytes, i: nat, end: nat)
    requires i <= |s| && end == FindStart(s, i)
    ensures FindStart(s[end..], 0) == 0
  {
    FindStartFinds(s, i);
    FindStartInSuffix(s, end, 0);
  }

  // ---------------------------------------------------------------- the length-prefixed form

  function FromBigEndian(b: Bytes): nat {
    if b == [] then 0 else FromBigEndian(b[..|b| - 1]) * 0x100 + b[|b| - 1] as int
  }

  lemma OneMoreDigit(n: nat, digits: nat)
    requires digits > 0 && FromBigEndian(BigEndian(n / 0x100, digits - 1)) == n / 0x100
    ensures FromBigEndian(BigEndian(n, digits)) == n
  {
  }

  lemma LengthRoundTrip(n: nat)
    requires n < U32_LIMIT
    ensures FromBigEndian(LengthPrefix(n)) == n
  {
    var n1 := n / 0x100;
    var n2 := n1 / 0x100;
    var n3 := n2 / 0x100;
    assert n3 / 0x100 == 0;
    OneMoreDigit(n3, 1);
    OneMoreDigit(n2, 2);
    OneMoreDigit(n1, 3);
    OneMoreDigit(n, 4);
  }

  /** Reading length-prefixed units back. */
  function Unprefix(s: Bytes): Option<seq<Bytes>>
    decreases |s|
  {
    if s == [] then Some([])
    else if |s| < 4 then None
    else
      var n := FromBigEndian(s[..4]);
      if 4 + n > |s| then None
      else
        var rest := Unprefix(s[4 + n..]);
        if rest.None? then None else Some([s[4..4 + n]] + rest.value)
  }

  lemma UnprefixFirst(len: Bytes, n: Bytes, rest: Bytes)
    requires |len| == 4 && FromBigEndian(len) == |n| && Unprefix(rest).Some?
    ensures Unprefix(len + n + rest) == Some([n] + Unprefix(rest).value)
  {
    var s := len + n + rest;
    assert s[..4] == len && s[4..4 + |n|] == n && s[4 + |n|..] == rest;
  }

  lemma {:induction false} UnprefixOfPrefixed(nals: seq<Bytes>)
    requires forall i :: 0 <= i < |nals| ==> |nals[i]| < U32_LIMIT
    ensures Unprefix(Prefixed(nals)) == Some(nals)
  {
    if nals != [] {
      UnprefixOfPrefixed(nals[1..]);
      LengthRoundTrip(|nals[0]|);
      UnprefixFirst(LengthPrefix(|nals[0]|), nals[0], Prefixed(nals[1..]));
      assert nals == [nals[0]] + nals[1..];
    }
  }

  // ---------------------------------------------------------------- agreement

  /** Some start code is directly followed by another one. */
  ghost predicate BackToBack(s: Bytes) {
    exists i: nat :: StartCodeLength(s, i) > 0 && IsStart(s, i + StartCodeLength(s, i))
  }

  lemma BackToBackOfSuffix(s: Bytes, e: nat)
    requires e <= |s|
    ensures BackToBack(s[e..]) <==> exists i: nat :: i >= e && StartCodeLength(s, i) > 0 && IsStart(s, i + StartCodeLength(s, i))
  {
    if BackToBack(s[e..]) {
      var i: nat :| StartCodeLength(s[e..], i) > 0 && IsStart(s[e..], i + StartCodeLength(s[e..], i));
      StartsOfSuffix(s, e, i);
      StartsOfSuffix(s, e, i + StartCodeLength(s[e..], i));
      assert StartCodeLength(s, e + i) > 0 && IsStart(s, e + i + StartCodeLength(s, e + i));
    }
    if exists i: nat :: i >= e && StartCodeLength(s, i) > 0 && IsStart(s, i + StartCodeLength(s, i)) {
      var i: nat :| i >= e && StartCodeLength(s, i) > 0 && IsStart(s, i + StartCodeLength(s, i));
      StartsOfSuffix(s, e, i - e);
      StartsOfSuffix(s, e, i - e + StartCodeLength(s, i));
      assert StartCodeLength(s[e..], i - e) > 0 && IsStart(s[e..], i - e + StartCodeLength(s[e..], i - e));
    }
  }

  /** Without a start code at the front, the front byte is irrelevant. */
  lemma SkipByte(s: Bytes)
    requires |s| > 0 && StartCodeLength(s, 0) == 0
    ensures BackToBack(s) <==> BackToBack(s[1..])
  {
    BackToBackOfSuffix(s, 1);
    if BackToBack(s) {
      var i: nat :| StartCodeLength(s, i) > 0 && IsStart(s, i + StartCodeLength(s, i));
      assert i >= 1;
    }
  }

  /** A unit between two start codes does not matter either. */
  lemma SkipUnit(s: Bytes, k: nat, end: nat)
    requires |s| > 0 && k == StartCodeLength(s, 0) > 0 && !IsStart(s, k) && end == FindStart(s, k)
    ensures BackToBack(s) <==> BackToBack(s[end..])
  {
    BackToBackOfSuffix(s, end);
    FindStartFinds(s, k);
    if BackToBack(s) {
      var i: nat :| StartCodeLength(s, i) > 0 && IsStart(s, i + StartCodeLength(s, i));
      assert IsStart(s, i);
      if i < k {
        assert i <= 1;
      } else {
        assert i >= end;
      }
    }
  }

  lemma UnitHoldsNoStart(s: Bytes, k: nat, end: nat, j: nat)
    requires k <= |s| && end == FindStart(s, k)
    ensures !StartCode3(s[k..end], j)
  {
    FindStartFinds(s, k);
    if j + 3 <= end - k {
      assert !IsStart(s, k + j);
      assert s[k..end][j] == s[k + j] && s[k..end][j + 1] == s[k + j + 1] && s[k..end][j + 2] == s[k + j + 2];
    }
  }

  /** The rewriter's units hold no start code. */
  lemma {:induction false} AvcUnitsHoldNoStart(s: Bytes, m: nat, j: nat)
    requires m < |AvcNals(s)|
    ensures !StartCode3(AvcNals(s)[m], j)
    decreases |s|
  {
    var k := StartCodeLength(s, 0);
    if k == 0 {
      AvcUnitsHoldNoStart(s[1..], m, j);
    } else {
      var end := FindStart(s, k);
      if end > k && m == 0 {
        UnitHoldsNoStart(s, k, end, j);
      } else {
        AvcUnitsHoldNoStart(s[end..], if end > k then m - 1 else m, j);
      }
    }
  }

  /** The scanner never finds fewer units than the rewriter. */
  lemma {:induction false} RewriterFindsNoMore(s: Bytes)
    ensures |AvcNals(s)| <= |Nals(s)|
    decreases |s|
  {
    if |s| > 0 {
      var k := StartCodeLength(s, 0);
      if k == 0 {
        RewriterFindsNoMore(s[1..]);
      } else if k < |s| {
        var end := FindStart(s, k + 1);
        RewriterFindsNoMore(s[end..]);
        if IsStart(s, k) {
          RewriterAfterBackToBack(s, k, end);
        }
      }
    }
  }

  /** No start code begins inside a short start code. */
  lemma AfterShortCode(s: Bytes, k: nat)
    requires StartCode3(s, k)
    ensures FindStart(s, k + 1) == FindStart(s, k + 3)
  {
  }

  lemma AvcSkipsEmptyUnit(s: Bytes, k: nat)
    requires 0 < k == StartCodeLength(s, 0) < |s| && IsStart(s, k)
    ensures AvcNals(s) == AvcNals(s[k..])
  {
  }

  /** After two adjacent start codes the rewriter finds at most one unit before the scanner's next
      position. */
  lemma RewriterAfterBackToBack(s: Bytes, k: nat, end: nat)
    requires 0 < k == StartCodeLength(s, 0) < |s| && IsStart(s, k) && end == FindStart(s, k + 1)
    ensures |AvcNals(s)| <= 1 + |AvcNals(s[end..])|
  {
    var l := StartCodeLength(s, k);
    var avcEnd := FindStart(s, k + l);
    AvcSkipsEmptyUnit(s, k);
    AvcNalsUnit(s, k, l, avcEnd);
    if l == 3 {
      AfterShortCode(s, k);
    } else {
      AvcNalsUnit(s, k + 1, 3, avcEnd);
    }
  }

  lemma SameHead(h: Bytes, a: seq<Bytes>, b: seq<Bytes>)
    ensures [h] + a == [h] + b <==> a == b
  {
    assert ([h] + a)[1..] == a && ([h] + b)[1..] == b;
  }

  /** The two scanners agree exactly on the streams in which no start code directly follows another. */
  lemma {:induction false} ScannersAgreeIff(s: Bytes)
    ensures Nals(s) == AvcNals(s) <==> !BackToBack(s)
    decreases |s|
  {
    if |s| == 0 {
    } else {
      var k := StartCodeLength(s, 0);
      if k == 0 {
        SkipByte(s);
        ScannersAgreeIff(s[1..]);
      } else if k == |s| {
        AtEndOfStream(s, k);
      } else if !IsStart(s, k) {
        var end := FindStart(s, k);
        SkipUnit(s, k, end);
        ScannersAgreeIff(s[end..]);
        SameHead(s[k..end], Nals(s[end..]), AvcNals(s[end..]));
      } else {
        assert StartCodeLength(s, 0) > 0 && IsStart(s, 0 + StartCodeLength(s, 0));
        BackToBackDiffers(s, k);
      }
    }
  }

  lemma AtEndOfStream(s: Bytes, k: nat)
    requires k == StartCodeLength(s, 0) == |s| > 0
    ensures Nals(s) == AvcNals(s) == [] && !BackToBack(s)
  {
  }

  lemma BackToBackDiffers(s: Bytes, k: nat)
    requires 0 < k == StartCodeLength(s, 0) < |s| && IsStart(s, k)
    ensures Nals(s) != AvcNals(s)
  {
    var end := FindStart(s, k + 1);
    if StartCode3(s, k) {
      // The scanner's first unit starts with a start code, which no unit of the rewriter holds.
      AfterShortCode(s, k);
      assert StartCode3(Nals(s)[0], 0);
      if AvcNals(s) != [] {
        AvcUnitsHoldNoStart(s, 0, 0);
      }
    } else {
      // The scanner splits a long start code after its first byte; the rewriter skips it.
      var avcEnd := FindStart(s, k + 4);
      AvcSkipsEmptyUnit(s, k);
      AvcNalsUnit(s, k, 4, avcEnd);
      AvcNalsUnit(s, k + 1, 3, avcEnd);
      RewriterFindsNoMore(s[k + 1..]);
    }
  }

  /** A stream on which they differ: the scanner takes the second start code for the content of a unit,
      the rewriter skips the empty unit. */
  lemma {:induction false} BackToBackExample(s: Bytes)
    requires s == [0, 0, 1, 0, 0, 1, 5]
    ensures BackToBack(s) && Nals(s) == [[0, 0, 1, 5]] && AvcNals(s) == [[5]]
  {
    assert StartCodeLength(s, 0) == 3 && IsStart(s, 0 + StartCodeLength(s, 0));
    assert s[7..] == [];
    ScannedExample(s);
    RewrittenExample(s);
  }

  lemma {:induction false} ScannedExample(s: Bytes)
    requires s == [0, 0, 1, 0, 0, 1, 5]
    ensures Nals(s) == [[0, 0, 1, 5]]
  {
    FindStartIs(s, 4, 7);
    NalsFront(s, 3, 7);
    assert s[3..7] == [0, 0, 1, 5] && s[7..] == [];
  }

  lemma {:induction false} RewrittenExample(s: Bytes)
    requires s == [0, 0, 1, 0, 0, 1, 5]
    ensures AvcNals(s) == [[5]]
  {
    FindStartIs(s, 6, 7);
    AvcSkipsEmptyUnit(s, 3);
    AvcNalsUnit(s, 3, 3, 7);
    assert s[6..7] == [5] && s[7..] == [];
  }

  /** Reading back the rewriter's output gives the scanner's units exactly when no start code directly
      follows another, for units shorter than 2^32 bytes. */
  lemma LengthPrefixedFormAgreesIff(s: Bytes)
    requires forall i :: 0 <= i < |AvcNals(s)| ==> |AvcNals(s)[i]| < U32_LIMIT
    ensures Unprefix(Prefixed(AvcNals(s))) == Some(Nals(s)) <==> !BackToBack(s)
  {
    UnprefixOfPrefixed(AvcNals(s));
    ScannersAgreeIff(s);
  }

  lemma {:induction false} WrittenIsNotBackToBack(nals: seq<Bytes>, long: seq<bool>)
    requires |nals| == |long| && forall i :: 0 <= i < |nals| ==> WellFormedNal(nals[i])
    ensures !BackToBack(Write(nals, long))
  {
    if nals != [] {
      var s, n, rest := Write(nals, long), nals[0], Write(nals[1..], long[1..]);
      var k := |StartCode(long[0])|;
      WrittenIsNotBackToBack(nals[1..], long[1..]);
      WrittenStartsWithCode(nals, long);
      WrittenStartsWithCode(nals[1..], long[1..]);
      assert s[k..k + |n|] == n && s[k + |n|..] == rest;
      FirstUnit(s, k, n, rest);
      NoStartInsideUnit(s, k, n, k);
      SkipUnit(s, k, k + |n|);
    }
  }

  /** Well-formed units written with any start codes come back from the length-prefixed form too. */
  lemma RewriteOfWritten(nals: seq<Bytes>, long: seq<bool>)
    requires |nals| == |long|
    requires forall i :: 0 <= i < |nals| ==> WellFormedNal(nals[i]) && |nals[i]| < U32_LIMIT
    ensures Unprefix(Prefixed(AvcNals(Write(nals, long)))) == Some(nals)
  {
    ScanOfWritten(nals, long);
    WrittenIsNotBackToBack(nals, long);
    ScannersAgreeIff(Write(nals, long));
    UnprefixOfPrefixed(nals);
  }
}
