/**
 What the specification of `merge_regions` implies: the result exists and is unique, its rectangles
 are separated and cover the input, a second call changes nothing, and the order of the input does
 not matter.
 */
module MergeProperties {
  import opened Regions
  import opened RegionMerging

  // ---------------------------------------------------------------- uniqueness

  lemma CanonicalLabelsAreEqual(a: Labels, b: Labels)
    requires Canonical(a) && Canonical(b) && Refines(a, b) && Refines(b, a)
    ensures a == b
  {
    forall t | 0 <= t < |a|
      ensures a[t] == b[t]
    {
      assert a[a[t]] == a[t] && b[a[t]] == b[t];
      assert b[b[t]] == b[t] && a[b[t]] == a[t];
    }
  }

  /** Without its last and largest entry, an increasing list loses exactly that entry. */
  lemma {:induction false} DropLargest(a: seq<nat>, a': seq<nat>, la: nat)
    requires StrictlyIncreasing(a) && a == a' + [la]
    ensures StrictlyIncreasing(a')
    ensures forall v :: v in a' <==> v in a && v != la
    ensures forall v :: v in a ==> v <= la
  {
    assert a[|a'|] == la;
    assert forall k :: 0 <= k < |a'| ==> a'[k] == a[k];
  }

  lemma {:induction false} IncreasingIsDetermined(a: seq<nat>, b: seq<nat>)
    requires StrictlyIncreasing(a) && StrictlyIncreasing(b)
    requires forall v :: v in a <==> v in b
    ensures a == b
    decreases |a|
  {
    assert a != [] ==> a[0] in a;
    assert b != [] ==> b[0] in b;
    if a != [] && b != [] {
      var a', la := a[..|a| - 1], a[|a| - 1];
      var b', lb := b[..|b| - 1], b[|b| - 1];
      DropLargest(a, a', la);
      DropLargest(b, b', lb);
      assert la in a && lb in b;
      IncreasingIsDetermined(a', b');
    }
  }

  /** The specification determines the output list, order included. */
  lemma MergeIsUnique(input: seq<Region>, d: nat, out1: seq<Region>, out2: seq<Region>)
    requires IsMergeOf(input, d, out1) && IsMergeOf(input, d, out2)
    ensures out1 == out2
  {
    var lab1, reps1 :| FinestStable(input, lab1, d) && Lists(input, lab1, reps1, out1);
    var lab2, reps2 :| FinestStable(input, lab2, d) && Lists(input, lab2, reps2, out2);
    CanonicalLabelsAreEqual(lab1, lab2);
    forall v | v in reps1
      ensures v in reps2
    {
      assert lab1[v] == v;
    }
    forall v | v in reps2
      ensures v in reps1
    {
      assert lab2[v] == v;
    }
    IncreasingIsDetermined(reps1, reps2);
    forall k | 0 <= k < |out1|
      ensures out1[k] == out2[k]
    {
      BoxIsUnique(input, ClassOf(lab1, reps1[k]), out1[k], out2[k]);
    }
  }

  // ---------------------------------------------------------------- existence

  ghost predicate LiveSeparated(boxes: seq<Region>, live: set<nat>, d: nat) {
    forall a, b :: a in live && b in live && a < b < |boxes| ==> !boxes[a].IsAdjacent(boxes[b], d)
  }

  /** Joining adjacent live groups in any order whatsoever reaches a stable grouping. */
  lemma {:induction false} JoinUntilStable(input: seq<Region>, d: nat, lab: Labels, reps: seq<nat>,
                                           boxes: seq<Region>, live: set<nat>)
    returns (lab': Labels, boxes': seq<Region>, live': set<nat>)
    requires PassState(input, d, lab, reps, boxes, live, [], [])
    ensures PassState(input, d, lab', reps, boxes', live', [], [])
    ensures LiveSeparated(boxes', live', d)
    decreases |live|
  {
    lab', boxes', live' := lab, boxes, live;
    if !LiveSeparated(boxes, live, d) {
      var a, b :| a in live && b in live && a < b < |boxes| && boxes[a].IsAdjacent(boxes[b], d);
      MergeStep(input, d, lab, reps, boxes, live, [], [], a, b);
      lab', boxes', live' := JoinUntilStable(input, d, Relabel(lab, reps[b], reps[a]), reps,
                                             boxes[a := boxes[a].Union(boxes[b])], live - {b});
    }
  }

  lemma {:induction false} PushKeepsApart(boxes: seq<Region>, live: set<nat>, merged: seq<Region>, d: nat, a: nat)
    requires a in live && forall b :: b in live ==> a <= b < |boxes|
    requires LiveSeparated(boxes, live, d) && PairwiseNonAdjacent(merged, d)
    requires forall p, b :: 0 <= p < |merged| && b in live ==> !merged[p].IsAdjacent(boxes[b], d)
    ensures LiveSeparated(boxes, live - {a}, d) && PairwiseNonAdjacent(merged + [boxes[a]], d)
    ensures forall p, b :: 0 <= p < |merged + [boxes[a]]| && b in live - {a} ==> !(merged + [boxes[a]])[p].IsAdjacent(boxes[b], d)
  {
  }

  /** The live groups can be listed by increasing least member. */
  lemma {:induction false} ListLive(input: seq<Region>, d: nat, lab: Labels, reps: seq<nat>, boxes: seq<Region>,
                                    live: set<nat>, mreps: seq<nat>, merged: seq<Region>)
    returns (out: seq<Region>)
    requires PassState(input, d, lab, reps, boxes, live, mreps, merged)
    requires LiveSeparated(boxes, live, d)
    requires forall p, b :: 0 <= p < |merged| && b in live ==> !merged[p].IsAdjacent(boxes[b], d)
    requires PairwiseNonAdjacent(merged, d)
    ensures IsMergeOf(input, d, out)
    decreases |live|
  {
    if live == {} {
      out := merged;
      EndOfPass(input, d, lab, reps, boxes, live, mreps, merged);
      StableIffBoxesNonAdjacent(input, d, lab, mreps, merged);
    } else {
      var a := Least(live);
      PushStep(input, d, lab, reps, boxes, live, mreps, merged, a);
      PushKeepsApart(boxes, live, merged, d, a);
      out := ListLive(input, d, lab, reps, boxes, live - {a}, mreps + [reps[a]], merged + [boxes[a]]);
    }
  }

  lemma {:induction false} Least(s: set<nat>) returns (m: nat)
    requires s != {}
    ensures m in s && forall k :: k in s ==> m <= k
    decreases |s|
  {
    m :| m in s;
    if s == {m} {
    } else {
      assert s == (s - {m}) + {m};
      var n := Least(s - {m});
      if n < m {
        m := n;
      }
    }
  }

  lemma MergeExists(input: seq<Region>, d: nat)
    ensures exists out :: IsMergeOf(input, d, out)
  {
    var id := Identity(|input|);
    IdentityGrouping(input, d);
    StartOfPass(input, d, id, id, input, UpTo(|id|));
    var lab, boxes, live := JoinUntilStable(input, d, id, id, input, UpTo(|id|));
    var out := ListLive(input, d, lab, id, boxes, live, [], []);
  }

  /** The result of `merge_regions` as a function of its arguments. */
  ghost function Merged(input: seq<Region>, d: nat): (out: seq<Region>)
    ensures IsMergeOf(input, d, out)
  {
    MergeExists(input, d);
    var out :| IsMergeOf(input, d, out);
    out
  }

  // ---------------------------------------------------------------- consequences

  /** The outputs are pairwise non-adjacent. */
  lemma MergeSeparates(input: seq<Region>, d: nat, out: seq<Region>)
    requires IsMergeOf(input, d, out)
    ensures PairwiseNonAdjacent(out, d)
    ensures |out| <= |input|
  {
    var lab, reps :| FinestStable(input, lab, d) && Lists(input, lab, reps, out);
    StableIffBoxesNonAdjacent(input, d, lab, reps, out);
    IncreasingBounded(reps, |input|);
  }

  /** Pixels of different outputs are more than `d + 1` apart in some axis: more than `d` pixels lie between
      any two outputs. */
  lemma MergeKeepsPixelsApart(input: seq<Region>, d: nat, out: seq<Region>, i: nat, j: nat, px: int, py: int, qx: int, qy: int)
    requires IsMergeOf(input, d, out) && i < |out| && j < |out| && i != j
    requires out[i].Contains(px, py) && out[j].Contains(qx, qy)
    ensures !Near(px, py, qx, qy, d + 1)
  {
    MergeSeparates(input, d, out);
    if i < j {
      AdjacentIffPixelsNear(out[i], out[j], d);
    } else {
      AdjacentIffPixelsNear(out[j], out[i], d);
    }
  }

  lemma ListedBoxesCover(input: seq<Region>, lab: Labels, reps: seq<nat>, out: seq<Region>, t: nat) returns (k: nat)
    requires Lists(input, lab, reps, out) && t < |input|
    ensures k < |out| && reps[k] == lab[t] && input[t].Within(out[k])
  {
    assert lab[t] in reps;
    k :| 0 <= k < |reps| && reps[k] == lab[t];
    assert t in ClassOf(lab, reps[k]);
  }

  /** Every input lies in some output. */
  lemma MergeCovers(input: seq<Region>, d: nat, out: seq<Region>, t: nat) returns (k: nat)
    requires IsMergeOf(input, d, out) && t < |input|
    ensures k < |out| && input[t].Within(out[k])
  {
    var lab, reps :| FinestStable(input, lab, d) && Lists(input, lab, reps, out);
    k := ListedBoxesCover(input, lab, reps, out, t);
  }

  /** Each side of an output is a side of some input that it contains. */
  lemma MergeIsTight(input: seq<Region>, d: nat, out: seq<Region>, k: nat, side: Side) returns (t: nat)
    requires IsMergeOf(input, d, out) && k < |out|
    ensures t < |input| && side.Of(input[t]) == side.Of(out[k]) && input[t].Within(out[k])
  {
    var lab, reps :| FinestStable(input, lab, d) && Lists(input, lab, reps, out);
    assert Touches(input, ClassOf(lab, reps[k]), side, side.Of(out[k]));
    t :| t in ClassOf(lab, reps[k]) && t < |input| && side.Of(input[t]) == side.Of(out[k]);
  }

  lemma {:induction false} IncreasingBounded(s: seq<nat>, n: nat)
    requires StrictlyIncreasing(s) && forall k :: 0 <= k < |s| ==> s[k] < n
    ensures |s| <= n
    decreases n
  {
    if s != [] {
      IncreasingBounded(s[..|s| - 1], s[|s| - 1]);
    }
  }

  /** Outputs share no pixel and stay inside any frame that holds the inputs. */
  lemma MergeStaysInFrame(input: seq<Region>, d: nat, out: seq<Region>, frame: Region)
    requires IsMergeOf(input, d, out)
    requires forall t :: 0 <= t < |input| ==> input[t].Within(frame)
    ensures PairwiseDisjoint(out)
    ensures forall k :: 0 <= k < |out| ==> out[k].Within(frame)
    ensures TotalArea(out) <= frame.Area()
  {
    MergeSeparates(input, d, out);
    forall k | 0 <= k < |out|
      ensures out[k].Within(frame)
    {
      var left := MergeIsTight(input, d, out, k, Left);
      var top := MergeIsTight(input, d, out, k, Top);
      var right := MergeIsTight(input, d, out, k, Right);
      var bottom := MergeIsTight(input, d, out, k, Bottom);
    }
    forall i, j, px, py | 0 <= i < j < |out|
      ensures !(out[i].Contains(px, py) && out[j].Contains(px, py))
    {
      NonAdjacentAreDisjoint(out[i], out[j], d, px, py);
    }
    DisjointAreasFitFrame(out, frame);
  }

  /** A list that is already separated is its own merge. */
  lemma SeparatedIsFixed(rs: seq<Region>, d: nat)
    ensures IsMergeOf(rs, d, rs) <==> PairwiseNonAdjacent(rs, d)
  {
    if PairwiseNonAdjacent(rs, d) {
      var id := Identity(|rs|);
      IdentityGrouping(rs, d);
      StableIffBoxesNonAdjacent(rs, d, id, id, rs);
      assert FinestStable(rs, id, d);
    }
    if IsMergeOf(rs, d, rs) {
      MergeSeparates(rs, d, rs);
    }
  }

  /** Merging is idempotent. */
  lemma MergeIsIdempotent(input: seq<Region>, d: nat)
    ensures Merged(Merged(input, d), d) == Merged(input, d)
  {
    var out := Merged(input, d);
    MergeSeparates(input, d, out);
    SeparatedIsFixed(out, d);
    MergeIsUnique(out, d, Merged(out, d), out);
  }

  // ---------------------------------------------------------------- order independence

  /** `p` maps positions of `b` to positions of `a`, `q` is its inverse. */
  ghost predicate Permutes(a: seq<Region>, b: seq<Region>, p: seq<nat>, q: seq<nat>) {
    && |a| == |b| == |p| == |q|
    && (forall i :: 0 <= i < |p| ==> p[i] < |a| && q[p[i]] == i && b[i] == a[p[i]])
    && (forall t :: 0 <= t < |q| ==> q[t] < |b| && p[q[t]] == t)
  }

  function Pull(lab: Labels, q: seq<nat>): (r: Labels)
    requires forall t :: 0 <= t < |q| ==> q[t] < |lab|
    ensures |r| == |q|
  {
    seq(|q|, t requires 0 <= t < |q| => lab[q[t]])
  }

  lemma BoxOfPulledClass(a: seq<Region>, b: seq<Region>, p: seq<nat>, q: seq<nat>, lab: Labels, v: nat, r: Region)
    requires Permutes(a, b, p, q) && |lab| == |b| && IsBox(b, ClassOf(lab, v), r)
    ensures IsBox(a, ClassOf(Pull(lab, q), v), r)
  {
    forall t | t in ClassOf(Pull(lab, q), v)
      ensures t < |a| && a[t].Within(r)
    {
      assert q[t] in ClassOf(lab, v);
      assert b[q[t]] == a[p[q[t]]];
    }
    forall side: Side
      ensures Touches(a, ClassOf(Pull(lab, q), v), side, side.Of(r))
    {
      assert Touches(b, ClassOf(lab, v), side, side.Of(r));
      var i :| i in ClassOf(lab, v) && i < |b| && side.Of(b[i]) == side.Of(r);
      assert p[i] in ClassOf(Pull(lab, q), v);
    }
  }

  /** A stable grouping of the permuted list is a stable grouping of the list. */
  lemma PulledIsStable(a: seq<Region>, b: seq<Region>, p: seq<nat>, q: seq<nat>, lab: Labels, d: nat)
    requires Permutes(a, b, p, q) && Stable(b, lab, d)
    ensures Stable(a, Pull(lab, q), d)
  {
    var l := Pull(lab, q);
    forall t | 0 <= t < |a|
      ensures BoxAt(a, l, t) == BoxAt(b, lab, q[t])
    {
      BoxOfPulledClass(a, b, p, q, lab, lab[q[t]], BoxAt(b, lab, q[t]));
      BoxIsUnique(a, ClassOf(l, l[t]), BoxAt(a, l, t), BoxAt(b, lab, q[t]));
    }
  }

  /** The finest stable groupings of a list and of its permutation have the same classes. */
  lemma SameClasses(a: seq<Region>, b: seq<Region>, p: seq<nat>, q: seq<nat>, d: nat, labA: Labels, labB: Labels, i: nat)
    requires Permutes(a, b, p, q) && FinestStable(a, labA, d) && FinestStable(b, labB, d) && i < |b|
    ensures ClassOf(labA, labA[p[i]]) == ClassOf(Pull(labB, q), labB[i])
  {
    var pulledB, pulledA := Pull(labB, q), Pull(labA, p);
    PulledIsStable(a, b, p, q, labB, d);
    assert Permutes(b, a, q, p);
    PulledIsStable(b, a, q, p, labA, d);
    assert Refines(labA, pulledB) && Refines(labB, pulledA);
    forall u: nat | u < |a|
      ensures labA[u] == labA[p[i]] <==> pulledB[u] == labB[i]
    {
      assert pulledB[p[i]] == labB[i] && pulledA[q[u]] == labA[u];
      if pulledB[u] == labB[i] {
        assert pulledA[q[u]] == pulledA[i];
      }
    }
  }

  lemma PermutedOutputsIncluded(a: seq<Region>, b: seq<Region>, p: seq<nat>, q: seq<nat>, d: nat,
                                outA: seq<Region>, outB: seq<Region>, r: Region)
    requires Permutes(a, b, p, q) && IsMergeOf(a, d, outA) && IsMergeOf(b, d, outB) && r in outB
    ensures r in outA
  {
    var labA, repsA :| FinestStable(a, labA, d) && Lists(a, labA, repsA, outA);
    var labB, repsB :| FinestStable(b, labB, d) && Lists(b, labB, repsB, outB);
    var k :| 0 <= k < |outB| && outB[k] == r;
    var i := repsB[k];
    SameClasses(a, b, p, q, d, labA, labB, i);
    BoxOfPulledClass(a, b, p, q, labB, i, r);
    var m := ListedBoxesCover(a, labA, repsA, outA, p[i]);
    BoxIsUnique(a, ClassOf(labA, repsA[m]), outA[m], r);
  }

  /** Permuting the input never changes the set of output rectangles. */
  lemma MergeIgnoresOrder(a: seq<Region>, b: seq<Region>, p: seq<nat>, q: seq<nat>, d: nat)
    requires Permutes(a, b, p, q)
    ensures forall r :: r in Merged(a, d) <==> r in Merged(b, d)
    ensures multiset(Merged(a, d)) == multiset(Merged(b, d))
  {
    var outA, outB := Merged(a, d), Merged(b, d);
    assert Permutes(b, a, q, p);
    forall r
      ensures r in outA <==> r in outB
    {
      if r in outB {
        PermutedOutputsIncluded(a, b, p, q, d, outA, outB, r);
      }
      if r in outA {
        PermutedOutputsIncluded(b, a, q, p, d, outB, outA, r);
      }
    }
    forall r
      ensures multiset(outA)[r] == multiset(outB)[r]
    {
      OccursAtMostOnce(a, d, outA, r);
      OccursAtMostOnce(b, d, outB, r);
    }
  }

  lemma OccursAtMostOnce(input: seq<Region>, d: nat, out: seq<Region>, r: Region)
    requires IsMergeOf(input, d, out)
    ensures multiset(out)[r] == if r in out then 1 else 0
  {
    MergeSeparates(input, d, out);
    ApartOccurOnce(out, d, r);
  }

  lemma {:induction false} ApartOccurOnce(out: seq<Region>, d: nat, r: Region)
    requires PairwiseNonAdjacent(out, d)
    ensures multiset(out)[r] == if r in out then 1 else 0
  {
    forall i, j | 0 <= i < j < |out|
      ensures out[i] != out[j]
    {
      assert !out[i].IsAdjacent(out[j], d);
    }
    DistinctOccurOnce(out, r);
  }

  lemma {:induction false} DistinctOccurOnce(s: seq<Region>, r: Region)
    requires forall i, j :: 0 <= i < j < |s| ==> s[i] != s[j]
    ensures multiset(s)[r] == if r in s then 1 else 0
  {
    if s != [] {
      DistinctOccurOnce(s[1..], r);
      assert s == [s[0]] + s[1..];
    }
  }
}
