/**
 The merge fixpoint `merge_regions` (src/damage/mod.rs:414-455).

 A grouping of the input list is a labelling: inputs with equal labels share a group. A grouping is
 stable when the bounding boxes of different groups are not adjacent. The merge loop is proved to
 return the bounding boxes of the finest stable grouping, ordered by the least member of each group.
 That description does not mention passes or the order of merges, and it determines the result.
 */
module RegionMerging {
  import opened Regions

  type Labels = seq<nat>

  ghost function ClassOf(lab: Labels, v: nat): set<nat> {
    set t: nat | t < |lab| && lab[t] == v
  }

  datatype Side = Left | Top | Right | Bottom {
    function Of(r: Region): nat {
      match this
      case Left => r.x
      case Top => r.y
      case Right => r.Right()
      case Bottom => r.Bottom()
    }
  }

  ghost predicate Touches(input: seq<Region>, group: set<nat>, side: Side, v: nat) {
    exists t :: t in group && t < |input| && side.Of(input[t]) == v
  }

  /** `r` is the bounding box of the rectangles `input[t]`, `t in group`: it contains them all and
      each of its four sides is touched by one of them. */
  ghost predicate IsBox(input: seq<Region>, group: set<nat>, r: Region) {
    && (forall t :: t in group ==> t < |input| && input[t].Within(r))
    && (forall side: Side :: Touches(input, group, side, side.Of(r)))
  }

  lemma BoxIsUnique(input: seq<Region>, group: set<nat>, r: Region, s: Region)
    requires IsBox(input, group, r) && IsBox(input, group, s)
    ensures r == s
  {
    BoxIsMonotone(input, group, group, r, s);
    BoxIsMonotone(input, group, group, s, r);
  }

  lemma BoxIsMonotone(input: seq<Region>, g: set<nat>, h: set<nat>, r: Region, s: Region)
    requires IsBox(input, g, r) && IsBox(input, h, s) && g <= h
    ensures r.Within(s)
  {
    assert Touches(input, g, Left, Left.Of(r)) && Touches(input, g, Right, Right.Of(r));
    assert Touches(input, g, Top, Top.Of(r)) && Touches(input, g, Bottom, Bottom.Of(r));
  }

  lemma BoxOfSingleton(input: seq<Region>, t: nat)
    requires t < |input|
    ensures IsBox(input, {t}, input[t])
  {
  }

  lemma BoxOfUnion(input: seq<Region>, g: set<nat>, h: set<nat>, r: Region, s: Region)
    requires IsBox(input, g, r) && IsBox(input, h, s)
    ensures IsBox(input, g + h, r.Union(s))
  {
    forall side: Side
      ensures Touches(input, g + h, side, side.Of(r.Union(s)))
    {
      assert side.Of(r.Union(s)) == side.Of(r) || side.Of(r.Union(s)) == side.Of(s);
      var i :| i in g && i < |input| && side.Of(input[i]) == side.Of(r);
      var j :| j in h && j < |input| && side.Of(input[j]) == side.Of(s);
      assert i in g + h && j in g + h;
    }
  }

  lemma {:induction false} BoxExists(input: seq<Region>, group: set<nat>)
    requires group != {} && forall t :: t in group ==> t < |input|
    ensures exists r :: IsBox(input, group, r)
    decreases |group|
  {
    var t :| t in group;
    BoxOfSingleton(input, t);
    if group == {t} {
    } else {
      var rest := group - {t};
      assert rest != {} by {
        assert group == rest + {t};
      }
      BoxExists(input, rest);
      var r :| IsBox(input, rest, r);
      BoxOfUnion(input, rest, {t}, r, input[t]);
      assert group == rest + {t};
    }
  }

  /** The bounding box of the group that input `t` belongs to. */
  ghost function BoxAt(input: seq<Region>, lab: Labels, t: nat): (r: Region)
    requires |lab| == |input| && t < |input|
    ensures IsBox(input, ClassOf(lab, lab[t]), r)
  {
    assert t in ClassOf(lab, lab[t]);
    BoxExists(input, ClassOf(lab, lab[t]));
    var r :| IsBox(input, ClassOf(lab, lab[t]), r);
    r
  }

  /** No two groups have adjacent bounding boxes. */
  ghost predicate Stable(input: seq<Region>, lab: Labels, d: nat) {
    && |lab| == |input|
    && forall t, u :: 0 <= t < |lab| && 0 <= u < |lab| && lab[t] != lab[u] ==>
                        !BoxAt(input, lab, t).IsAdjacent(BoxAt(input, lab, u), d)
  }

  /** Every group of `fine` lies inside one group of `coarse`. */
  ghost predicate Refines(fine: Labels, coarse: Labels) {
    && |fine| == |coarse|
    && forall t, u :: 0 <= t < |fine| && 0 <= u < |fine| && fine[t] == fine[u] ==> coarse[t] == coarse[u]
  }

  ghost predicate RefinesEveryStable(input: seq<Region>, lab: Labels, d: nat) {
    forall coarse :: Stable(input, coarse, d) ==> Refines(lab, coarse)
  }

  /** Each label is the least member of its group. */
  ghost predicate Canonical(lab: Labels) {
    forall t :: 0 <= t < |lab| ==> lab[t] <= t && lab[lab[t]] == lab[t]
  }

  ghost predicate StrictlyIncreasing(s: seq<nat>) {
    forall i, j :: 0 <= i < j < |s| ==> s[i] < s[j]
  }

  /** `out` lists the bounding boxes of all groups of `lab`, by increasing least member. */
  ghost predicate Lists(input: seq<Region>, lab: Labels, reps: seq<nat>, out: seq<Region>) {
    && |lab| == |input| && |reps| == |out|
    && StrictlyIncreasing(reps)
    && (forall k :: 0 <= k < |reps| ==> reps[k] < |lab| && lab[reps[k]] == reps[k])
    && (forall t :: 0 <= t < |lab| ==> lab[t] in reps)
    && (forall k :: 0 <= k < |reps| ==> IsBox(input, ClassOf(lab, reps[k]), out[k]))
  }

  /** `lab` is the finest stable grouping of `input`. */
  ghost predicate FinestStable(input: seq<Region>, lab: Labels, d: nat) {
    Stable(input, lab, d) && RefinesEveryStable(input, lab, d) && Canonical(lab)
  }

  /** The specification of `merge_regions`. */
  ghost predicate IsMergeOf(input: seq<Region>, d: nat, out: seq<Region>) {
    exists lab, reps :: FinestStable(input, lab, d) && Lists(input, lab, reps, out)
  }

  // ---------------------------------------------------------------- one merge step

  function Relabel(lab: Labels, from: nat, to: nat): (r: Labels)
    ensures |r| == |lab|
  {
    seq(|lab|, t requires 0 <= t < |lab| => if lab[t] == from then to else lab[t])
  }

  /** The state in the middle of a pass: `merged` holds the finished groups and the live entries of
      `boxes` the groups still to be considered; together they are all groups of `lab`. */
  ghost predicate PassState(input: seq<Region>, d: nat, lab: Labels, reps: seq<nat>, boxes: seq<Region>,
                            live: set<nat>, mreps: seq<nat>, merged: seq<Region>)
  {
    && |lab| == |input| && |reps| == |boxes| && (forall k :: k in live ==> k < |reps|) && |mreps| == |merged|
    && Canonical(lab) && RefinesEveryStable(input, lab, d)
    && StrictlyIncreasing(reps) && StrictlyIncreasing(mreps)
    && (forall k :: k in live && mreps != [] ==> mreps[|mreps| - 1] < reps[k])
    && (forall k :: k in live ==>
          reps[k] < |lab| && lab[reps[k]] == reps[k] && IsBox(input, ClassOf(lab, reps[k]), boxes[k]))
    && (forall p :: 0 <= p < |mreps| ==>
          mreps[p] < |lab| && lab[mreps[p]] == mreps[p] && IsBox(input, ClassOf(lab, mreps[p]), merged[p]))
    && (forall t :: 0 <= t < |lab| ==> lab[t] in mreps || Waiting(reps, live, lab[t]))
  }

  ghost predicate Waiting(reps: seq<nat>, live: set<nat>, v: nat) {
    exists k :: k in live && k < |reps| && reps[k] == v
  }

  /** Joining two groups with adjacent boxes keeps the grouping finer than every stable one. */
  lemma JoinStaysBelowStable(input: seq<Region>, d: nat, lab: Labels, a: nat, b: nat, r: Region, s: Region)
    requires |lab| == |input| && RefinesEveryStable(input, lab, d)
    requires a < |lab| && b < |lab| && lab[a] == a && lab[b] == b
    requires IsBox(input, ClassOf(lab, a), r) && IsBox(input, ClassOf(lab, b), s) && r.IsAdjacent(s, d)
    ensures RefinesEveryStable(input, Relabel(lab, b, a), d)
  {
    forall coarse | Stable(input, coarse, d)
      ensures Refines(Relabel(lab, b, a), coarse)
    {
      assert Refines(lab, coarse);
      assert ClassOf(lab, a) <= ClassOf(coarse, coarse[a]);
      assert ClassOf(lab, b) <= ClassOf(coarse, coarse[b]);
      BoxIsMonotone(input, ClassOf(lab, a), ClassOf(coarse, coarse[a]), r, BoxAt(input, coarse, a));
      BoxIsMonotone(input, ClassOf(lab, b), ClassOf(coarse, coarse[b]), s, BoxAt(input, coarse, b));
      AdjacencyMonotone(r, s, BoxAt(input, coarse, a), BoxAt(input, coarse, b), d);
      assert coarse[a] == coarse[b];
    }
  }

  lemma ClassesAfterRelabel(lab: Labels, from: nat, to: nat)
    requires from != to
    ensures ClassOf(Relabel(lab, from, to), to) == ClassOf(lab, to) + ClassOf(lab, from)
    ensures forall v :: v != from && v != to ==> ClassOf(Relabel(lab, from, to), v) == ClassOf(lab, v)
  {
  }

  lemma MergeStep(input: seq<Region>, d: nat, lab: Labels, reps: seq<nat>, boxes: seq<Region>,
                  live: set<nat>, mreps: seq<nat>, merged: seq<Region>, a: nat, b: nat)
    requires PassState(input, d, lab, reps, boxes, live, mreps, merged)
    requires a < b < |reps| && a in live && b in live && boxes[a].IsAdjacent(boxes[b], d)
    ensures PassState(input, d, Relabel(lab, reps[b], reps[a]), reps, boxes[a := boxes[a].Union(boxes[b])],
                      live - {b}, mreps, merged)
  {
    JoinStaysBelowStable(input, d, lab, reps[a], reps[b], boxes[a], boxes[b]);
    ClassesAfterRelabel(lab, reps[b], reps[a]);
    BoxOfUnion(input, ClassOf(lab, reps[a]), ClassOf(lab, reps[b]), boxes[a], boxes[b]);
    WaitingAfterRelabel(lab, reps, live, mreps, a, b);
  }

  /** When the group of `b` joins the group of `a`, every group is still finished or waiting. */
  lemma {:induction false} WaitingAfterRelabel(lab: Labels, reps: seq<nat>, live: set<nat>, mreps: seq<nat>, a: nat, b: nat)
    requires a < |reps| && b < |reps| && a in live && b in live && a != b && StrictlyIncreasing(reps)
    requires forall t :: 0 <= t < |lab| ==> lab[t] in mreps || Waiting(reps, live, lab[t])
    ensures forall t :: 0 <= t < |lab| ==>
      Relabel(lab, reps[b], reps[a])[t] in mreps || Waiting(reps, live - {b}, Relabel(lab, reps[b], reps[a])[t])
  {
    var lab', live' := Relabel(lab, reps[b], reps[a]), live - {b};
    forall t | 0 <= t < |lab'|
      ensures lab'[t] in mreps || Waiting(reps, live', lab'[t])
    {
      if lab[t] == reps[b] {
        assert a in live' && reps[a] == lab'[t];
      } else if lab[t] !in mreps {
        var k :| k in live && k < |reps| && reps[k] == lab[t];
        assert k in live' && reps[k] == lab'[t];
      }
    }
  }

  lemma PushStep(input: seq<Region>, d: nat, lab: Labels, reps: seq<nat>, boxes: seq<Region>,
                 live: set<nat>, mreps: seq<nat>, merged: seq<Region>, a: nat)
    requires PassState(input, d, lab, reps, boxes, live, mreps, merged)
    requires a < |reps| && a in live && forall k :: k in live ==> a <= k
    ensures PassState(input, d, lab, reps, boxes, live - {a}, mreps + [reps[a]], merged + [boxes[a]])
  {
    var live', mreps' := live - {a}, mreps + [reps[a]];
    forall t | 0 <= t < |lab|
      ensures lab[t] in mreps' || Waiting(reps, live', lab[t])
    {
      if lab[t] in mreps {
      } else {
        var k :| k in live && reps[k] == lab[t];
        if k == a {
          assert mreps'[|mreps|] == lab[t];
        } else {
          assert k in live';
        }
      }
    }
  }

  lemma StartOfPass(input: seq<Region>, d: nat, lab: Labels, reps: seq<nat>, out: seq<Region>, live: set<nat>)
    requires Lists(input, lab, reps, out) && Canonical(lab) && RefinesEveryStable(input, lab, d)
    requires live == UpTo(|reps|)
    ensures PassState(input, d, lab, reps, out, live, [], [])
  {
    forall t | 0 <= t < |lab|
      ensures Waiting(reps, live, lab[t])
    {
      var k :| 0 <= k < |reps| && reps[k] == lab[t];
      assert k in live;
    }
  }

  lemma EndOfPass(input: seq<Region>, d: nat, lab: Labels, reps: seq<nat>, boxes: seq<Region>,
                  live: set<nat>, mreps: seq<nat>, merged: seq<Region>)
    requires PassState(input, d, lab, reps, boxes, live, mreps, merged)
    requires live == {}
    ensures Lists(input, lab, mreps, merged) && Canonical(lab) && RefinesEveryStable(input, lab, d)
  {
  }

  function Identity(n: nat): (s: seq<nat>)
    ensures |s| == n && forall t :: 0 <= t < n ==> s[t] == t
  {
    seq(n, t => t)
  }

  lemma IdentityGrouping(input: seq<Region>, d: nat)
    ensures Lists(input, Identity(|input|), Identity(|input|), input)
    ensures Canonical(Identity(|input|)) && RefinesEveryStable(input, Identity(|input|), d)
  {
    var id := Identity(|input|);
    forall k | 0 <= k < |id|
      ensures IsBox(input, ClassOf(id, id[k]), input[k]) && id[k] in id
    {
      assert ClassOf(id, id[k]) == {k};
      BoxOfSingleton(input, k);
    }
  }

  ghost predicate PairwiseNonAdjacent(rs: seq<Region>, d: nat) {
    forall i, j :: 0 <= i < j < |rs| ==> !rs[i].IsAdjacent(rs[j], d)
  }

  /** A listed grouping is stable exactly when its boxes are pairwise non-adjacent. */
  lemma StableIffBoxesNonAdjacent(input: seq<Region>, d: nat, lab: Labels, reps: seq<nat>, out: seq<Region>)
    requires Lists(input, lab, reps, out)
    ensures Stable(input, lab, d) <==> PairwiseNonAdjacent(out, d)
  {
    forall k | 0 <= k < |reps|
      ensures BoxAt(input, lab, reps[k]) == out[k]
    {
      BoxIsUnique(input, ClassOf(lab, reps[k]), BoxAt(input, lab, reps[k]), out[k]);
    }
    if PairwiseNonAdjacent(out, d) {
      forall t, u | 0 <= t < |lab| && 0 <= u < |lab| && lab[t] != lab[u]
        ensures !BoxAt(input, lab, t).IsAdjacent(BoxAt(input, lab, u), d)
      {
        var i :| 0 <= i < |reps| && reps[i] == lab[t];
        var j :| 0 <= j < |reps| && reps[j] == lab[u];
        BoxIsUnique(input, ClassOf(lab, lab[t]), BoxAt(input, lab, t), out[i]);
        BoxIsUnique(input, ClassOf(lab, lab[u]), BoxAt(input, lab, u), out[j]);
      }
    }
  }

  // ---------------------------------------------------------------- the method

  /** `merge_regions`: repeated passes over a replaced vector until a pass merges nothing. Each
      changing pass strictly shortens the list. */
  method MergeRegions(input: seq<Region>, mergeDistance: nat) returns (regions: seq<Region>)
    ensures IsMergeOf(input, mergeDistance, regions)
  {
    regions := input;
    ghost var lab, reps := Identity(|input|), Identity(|input|);
    IdentityGrouping(input, mergeDistance);
    if |regions| <= 1 {
      StableIffBoxesNonAdjacent(input, mergeDistance, lab, reps, regions);
      return;
    }
    var changed := true;
    while changed
      invariant Lists(input, lab, reps, regions) && Canonical(lab)
      invariant RefinesEveryStable(input, lab, mergeDistance)
      invariant !changed ==> PairwiseNonAdjacent(regions, mergeDistance)
      decreases |regions|, changed
    {
      regions, changed, lab, reps := OnePass(input, mergeDistance, regions, lab, reps);
    }
    StableIffBoxesNonAdjacent(input, mergeDistance, lab, reps, regions);
  }

  /** The body of the `while changed` loop. */
  method OnePass(ghost input: seq<Region>, d: nat, regions: seq<Region>, ghost lab0: Labels, ghost reps: seq<nat>)
    returns (merged: seq<Region>, changed: bool, ghost lab: Labels, ghost mreps: seq<nat>)
    requires Lists(input, lab0, reps, regions) && Canonical(lab0) && RefinesEveryStable(input, lab0, d)
    ensures Lists(input, lab, mreps, merged) && Canonical(lab) && RefinesEveryStable(input, lab, d)
    ensures changed ==> |merged| < |regions|
    ensures !changed ==> merged == regions && PairwiseNonAdjacent(regions, d)
  {
    changed, merged, lab, mreps := false, [], lab0, [];
    var used := seq(|regions|, _ => false);
    ghost var boxes, live := regions, UpTo(|reps|);
    StartOfPass(input, d, lab, reps, regions, live);
    for i := 0 to |regions|
      invariant |used| == |boxes| == |regions|
      invariant PassState(input, d, lab, reps, boxes, live, mreps, merged)
      invariant InSync(regions, boxes, used, live, i)
      invariant |merged| + |live| <= |regions| && (changed ==> |merged| + |live| < |regions|)
      invariant !changed ==> Untouched(regions, merged, used, d, i)
    {
      if used[i] {
        SyncSkip(regions, boxes, used, live, i);
        continue;
      }
      SyncTake(regions, boxes, used, live, i);
      ghost var before := used;
      used := used[i := true];
      var current, absorbed;
      current, absorbed, used, boxes, live, lab :=
        Absorb(input, d, regions, i, used, lab, reps, boxes, live, mreps, merged);
      changed := changed || absorbed;
      if !changed {
        UntouchedStep(regions, merged, before, used, d, i);
      }
      SyncPush(regions, boxes, used, live, i);
      PushStep(input, d, lab, reps, boxes, live, mreps, merged, i);
      merged := merged + [current];
      mreps, live := mreps + [reps[i]], live - {i};
    }
    assert live == {};
    EndOfPass(input, d, lab, reps, boxes, live, mreps, merged);
  }

  /** The inner `for j` loop: rectangle `i` absorbs every later unused rectangle that is adjacent to
      what it has grown into. */
  method Absorb(ghost input: seq<Region>, d: nat, regions: seq<Region>, i: nat, used0: seq<bool>,
                ghost lab0: Labels, ghost reps: seq<nat>, ghost boxes0: seq<Region>, ghost live0: set<nat>,
                ghost mreps: seq<nat>, ghost merged: seq<Region>)
    returns (current: Region, absorbed: bool, used: seq<bool>,
             ghost boxes: seq<Region>, ghost live: set<nat>, ghost lab: Labels)
    requires i < |regions|
    requires Absorbing(input, d, regions, i, used0, regions[i], lab0, reps, boxes0, live0, mreps, merged)
    ensures Absorbing(input, d, regions, i, used, current, lab, reps, boxes, live, mreps, merged)
    ensures if absorbed then |live| < |live0| else live == live0 && used == used0 && current == regions[i]
    ensures !absorbed ==> NoneAdjacent(regions, used0, d, i, |regions|)
  {
    current, absorbed, used, boxes, live, lab := regions[i], false, used0, boxes0, live0, lab0;
    for j := i + 1 to |regions|
      invariant Absorbing(input, d, regions, i, used, current, lab, reps, boxes, live, mreps, merged)
      invariant if absorbed then |live| < |live0| else live == live0 && used == used0 && current == regions[i]
      invariant !absorbed ==> NoneAdjacent(regions, used0, d, i, j)
    {
      NoneAdjacentStep(regions, used0, d, i, j);
      if used[j] {
        continue;
      }
      if current.IsAdjacent(regions[j], d) {
        AbsorbStep(input, d, regions, i, used, current, lab, reps, boxes, live, mreps, merged, j);
        current := current.Union(regions[j]);
        used := used[j := true];
        absorbed := true;
        boxes, live, lab := boxes[i := current], live - {j}, Relabel(lab, reps[j], reps[i]);
      }
    }
  }

  /** No unused rectangle between `i` and `j` is adjacent to rectangle `i`. */
  ghost predicate NoneAdjacent(regions: seq<Region>, used: seq<bool>, d: nat, i: nat, j: nat)
    requires |used| == |regions| && i < |regions|
  {
    forall k :: i < k < j && k < |regions| && !used[k] ==> !regions[i].IsAdjacent(regions[k], d)
  }

  lemma NoneAdjacentStep(regions: seq<Region>, used: seq<bool>, d: nat, i: nat, j: nat)
    requires |used| == |regions| && i < j < |regions|
    ensures NoneAdjacent(regions, used, d, i, j) && (used[j] || !regions[i].IsAdjacent(regions[j], d))
            ==> NoneAdjacent(regions, used, d, i, j + 1)
  {
  }

  /** The state of the inner loop: a pass whose live rectangle `i` has grown into `current`. */
  ghost predicate Absorbing(input: seq<Region>, d: nat, regions: seq<Region>, i: nat, used: seq<bool>, current: Region,
                            lab: Labels, reps: seq<nat>, boxes: seq<Region>, live: set<nat>,
                            mreps: seq<nat>, merged: seq<Region>)
  {
    && |used| == |boxes| == |regions| && i < |regions|
    && PassState(input, d, lab, reps, boxes, live, mreps, merged)
    && InSync(regions, boxes, used, live - {i}, i + 1)
    && i in live && boxes[i] == current
  }

  lemma AbsorbStep(input: seq<Region>, d: nat, regions: seq<Region>, i: nat, used: seq<bool>, current: Region,
                   lab: Labels, reps: seq<nat>, boxes: seq<Region>, live: set<nat>,
                   mreps: seq<nat>, merged: seq<Region>, j: nat)
    requires Absorbing(input, d, regions, i, used, current, lab, reps, boxes, live, mreps, merged)
    requires i < j < |regions| && !used[j] && current.IsAdjacent(regions[j], d)
    ensures Absorbing(input, d, regions, i, used[j := true], current.Union(regions[j]), Relabel(lab, reps[j], reps[i]),
                      reps, boxes[i := current.Union(regions[j])], live - {j}, mreps, merged)
    ensures |live - {j}| < |live|
  {
    SyncMerge(regions, boxes, used, live, i, j, current.Union(regions[j]));
    MergeStep(input, d, lab, reps, boxes, live, mreps, merged, i, j);
  }

  /** From position `i` on, the ghost `boxes` and `live` mirror the vectors `regions` and `used`. */
  ghost predicate InSync(regions: seq<Region>, boxes: seq<Region>, used: seq<bool>, live: set<nat>, i: nat)
    requires |used| == |boxes| == |regions|
  {
    && (forall k :: k in live ==> i <= k < |regions|)
    && (forall k: nat :: i <= k < |regions| ==> (k in live <==> !used[k]) && boxes[k] == regions[k])
  }

  lemma SyncSkip(regions: seq<Region>, boxes: seq<Region>, used: seq<bool>, live: set<nat>, i: nat)
    requires |used| == |boxes| == |regions| && i < |regions|
    requires InSync(regions, boxes, used, live, i) && used[i]
    ensures InSync(regions, boxes, used, live, i + 1)
  {
  }

  lemma SyncTake(regions: seq<Region>, boxes: seq<Region>, used: seq<bool>, live: set<nat>, i: nat)
    requires |used| == |boxes| == |regions| && i < |regions|
    requires InSync(regions, boxes, used, live, i) && !used[i]
    ensures i in live && boxes[i] == regions[i]
    ensures InSync(regions, boxes, used[i := true], live - {i}, i + 1)
  {
  }

  lemma SyncPush(regions: seq<Region>, boxes: seq<Region>, used: seq<bool>, live: set<nat>, i: nat)
    requires |used| == |boxes| == |regions| && i < |regions| && i in live
    requires InSync(regions, boxes, used, live - {i}, i + 1)
    ensures (forall k :: k in live ==> i <= k) && |live - {i}| == |live| - 1
  {
    assert forall k :: k in live ==> k == i || k in live - {i};
  }

  lemma SyncMerge(regions: seq<Region>, boxes: seq<Region>, used: seq<bool>, live: set<nat>, i: nat, j: nat, r: Region)
    requires |used| == |boxes| == |regions| && i < j < |regions| && i in live
    requires InSync(regions, boxes, used, live - {i}, i + 1) && !used[j]
    ensures j in live && |live - {j}| == |live| - 1
    ensures InSync(regions, boxes[i := r], used[j := true], live - {j} - {i}, i + 1)
  {
    assert j in live - {i};
    forall k | k in live - {j} - {i}
      ensures i + 1 <= k < |regions|
    {
      assert k in live - {i};
    }
    forall k: nat | i + 1 <= k < |regions|
      ensures k in live - {j} - {i} <==> !used[j := true][k]
    {
      assert k in live - {i} <==> !used[k];
    }
  }

  /** What a pass has established at position `i` if it has merged nothing so far. */
  ghost predicate Untouched(regions: seq<Region>, merged: seq<Region>, used: seq<bool>, d: nat, i: nat)
    requires |used| == |regions|
  {
    && i <= |regions| && merged == regions[..i]
    && (forall k :: i <= k < |used| ==> !used[k])
    && (forall p, q :: 0 <= p < i && p < q < |regions| ==> !regions[p].IsAdjacent(regions[q], d))
  }

  lemma UntouchedStep(regions: seq<Region>, merged: seq<Region>, used: seq<bool>, taken: seq<bool>, d: nat, i: nat)
    requires |used| == |regions| && i < |regions| && taken == used[i := true]
    requires Untouched(regions, merged, used, d, i)
    requires NoneAdjacent(regions, taken, d, i, |regions|)
    ensures Untouched(regions, merged + [regions[i]], taken, d, i + 1)
  {
  }

  ghost function UpTo(n: nat): (s: set<nat>)
    ensures forall k: nat :: k in s <==> k < n
    ensures |s| == n
  {
    if n == 0 then {} else UpTo(n - 1) + {n - 1}
  }
}
