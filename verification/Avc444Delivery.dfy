/**
 "Don't encode what you don't send" (src/egfx/avc444_encoder.rs:646-661, 702-744), and what becomes of
 a requested keyframe.
 */
module Avc444Delivery {
  import opened Common
  import opened IdrTimer
  import opened Avc444
  import opened Avc444Properties

  /** The non-empty pictures that the H.264 encoder produced, which its reference buffer now holds. */
  function Produced(calls: seq<EncoderCall>): seq<Bytes> {
    if calls == [] then []
    else
      var n := |calls| - 1;
      var before, c := Produced(calls[..n]), calls[n];
      if c.Encode? && c.outcome.Encoded? && c.outcome.data != [] then before + [c.outcome.data] else before
  }

  /** The pictures that a result hands to the client. */
  function Handed(r: Result): seq<Bytes> {
    if !r.Delivered? then []
    else if r.aux.Some? then [r.main, r.aux.value]
    else [r.main]
  }

  function ProducedLog(s: State, es: seq<Event>): seq<Bytes> {
    if es == [] then []
    else
      var n := |es| - 1;
      var before := ProducedLog(s, es[..n]);
      if es[n].Encode? then before + Produced(Calls(Run(s, es[..n]), es[n].p)) else before
  }

  function HandedLog(s: State, es: seq<Event>): seq<Bytes> {
    if es == [] then []
    else
      var n := |es| - 1;
      var before := HandedLog(s, es[..n]);
      if es[n].Encode? then before + Handed(Step(Run(s, es[..n]), es[n].p).1) else before
  }

  /** The auxiliary stream is encoded with this picture. */
  predicate TakesAux(s: State, p: Picture) {
    s.AfterIdrCheck(p.now).SendsAux(p.hash)
  }

  /** The two ways to lose a picture: the auxiliary stream fails after a main picture was encoded, or an
      auxiliary picture was encoded but the main one is empty. */
  predicate Loses(s: State, p: Picture) {
    && Decides(p) && TakesAux(s, p)
    && (if p.main.data == [] then p.aux.Encoded? && p.aux.data != [] else p.aux.Failed?)
  }

  lemma {:induction false} ProducedOfMain(s: State, p: Picture)
    ensures Produced(MainCalls(s, p)) == if p.main.Encoded? && p.main.data != [] then [p.main.data] else []
  {
    var force := (if s.timer.Due(p.now) then [ForceIntra] else []) + (if s.allKeyframes then [ForceIntra] else []);
    ForcedThenEncoded(force, Main, p.main);
  }

  lemma {:induction false} ForcedThenEncoded(force: seq<EncoderCall>, stream: Stream, outcome: Outcome)
    requires forall i :: 0 <= i < |force| ==> force[i].ForceIntra?
    ensures Produced(force + [EncoderCall.Encode(stream, outcome)])
         == if outcome.Encoded? && outcome.data != [] then [outcome.data] else []
  {
    var calls := force + [EncoderCall.Encode(stream, outcome)];
    NothingFromForcing(force);
    assert calls[..|force|] == force;
  }

  lemma {:induction false} NothingFromForcing(calls: seq<EncoderCall>)
    requires forall i :: 0 <= i < |calls| ==> calls[i].ForceIntra?
    ensures Produced(calls) == []
  {
    if calls != [] {
      NothingFromForcing(calls[..|calls| - 1]);
    }
  }

  lemma {:induction false} ProducedOfConcat(a: seq<EncoderCall>, b: seq<EncoderCall>)
    ensures Produced(a + b) == Produced(a) + Produced(b)
    decreases |b|
  {
    if b == [] {
      assert a + b == a;
    } else {
      var n := |b| - 1;
      ProducedOfConcat(a, b[..n]);
      assert (a + b)[..|a + b| - 1] == a + b[..n];
    }
  }

  lemma {:induction false} ProducedOfAux(s: State, p: Picture)
    requires p.main.Encoded?
    ensures Produced(AuxCalls(s, p))
         == if s.SendsAux(p.hash) && p.aux.Encoded? && p.aux.data != [] then [p.aux.data] else []
  {
    var encode := EncoderCall.Encode(Aux, p.aux);
    assert [ForceIntra, encode] == [ForceIntra] + [encode] && [encode] == [] + [encode];
    ForcedThenEncoded([ForceIntra], Aux, p.aux);
    ForcedThenEncoded([], Aux, p.aux);
  }

  /** The non-empty data of an outcome, if there is any. */
  function DataOf(o: Outcome): seq<Bytes> {
    if o.Encoded? && o.data != [] then [o.data] else []
  }

  lemma {:induction false} ProducedByPicture(s: State, p: Picture)
    ensures Produced(Calls(s, p)) == if !p.Validated() then []
                                     else if Decides(p) && TakesAux(s, p) then DataOf(p.main) + DataOf(p.aux)
                                     else DataOf(p.main)
  {
    if p.Validated() {
      ProducedOfMain(s, p);
      if p.main.Encoded? {
        var s1 := s.AfterIdrCheck(p.now);
        ProducedOfAux(s1, p);
        ProducedOfConcat(MainCalls(s, p), AuxCalls(s1, p));
      }
    }
  }

  lemma HandedByPicture(s: State, p: Picture)
    ensures Handed(Step(s, p).1) == if !Decides(p) || p.main.data == [] || (TakesAux(s, p) && p.aux.Failed?) then []
                                    else if TakesAux(s, p) then DataOf(p.main) + DataOf(p.aux)
                                    else DataOf(p.main)
  {
  }

  /** One picture: what was produced is what is handed over, unless the picture loses something. */
  lemma {:induction false} ProducedIsHandedUnlessLost(s: State, p: Picture)
    ensures |Handed(Step(s, p).1)| <= |Produced(Calls(s, p))|
    ensures if Loses(s, p) then |Handed(Step(s, p).1)| < |Produced(Calls(s, p))|
            else Handed(Step(s, p).1) == Produced(Calls(s, p))
  {
    ProducedByPicture(s, p);
    HandedByPicture(s, p);
  }

  lemma {:induction false} HandedIsNoLonger(s: State, es: seq<Event>)
    ensures |HandedLog(s, es)| <= |ProducedLog(s, es)|
  {
    if es != [] {
      var n := |es| - 1;
      HandedIsNoLonger(s, es[..n]);
      if es[n].Encode? {
        ProducedIsHandedUnlessLost(Run(s, es[..n]), es[n].p);
      }
    }
  }

  /** Event `i` of the run loses a picture. */
  predicate LosesAt(s: State, es: seq<Event>, i: nat) {
    i < |es| && es[i].Encode? && Loses(Run(s, es[..i]), es[i].p)
  }

  predicate NothingLost(s: State, es: seq<Event>) {
    forall i :: 0 <= i < |es| ==> !LosesAt(s, es, i)
  }

  lemma {:induction false} NothingLostStep(s: State, es: seq<Event>, n: nat)
    requires |es| == n + 1
    ensures NothingLost(s, es) <==> NothingLost(s, es[..n]) && !LosesAt(s, es, n)
  {
    forall i | 0 <= i < n
      ensures LosesAt(s, es[..n], i) == LosesAt(s, es, i)
    {
      assert es[..n][..i] == es[..i];
    }
  }

  lemma {:induction false} LogsStep(s: State, es: seq<Event>, n: nat)
    requires |es| == n + 1
    ensures ProducedLog(s, es) == HandedLog(s, es)
       <==> ProducedLog(s, es[..n]) == HandedLog(s, es[..n]) && !LosesAt(s, es, n)
  {
    HandedIsNoLonger(s, es[..n]);
    if es[n].Encode? {
      var before, p := Run(s, es[..n]), es[n].p;
      ProducedIsHandedUnlessLost(before, p);
      SplitLogs(ProducedLog(s, es[..n]), Produced(Calls(before, p)), HandedLog(s, es[..n]), Handed(Step(before, p).1));
    }
  }

  /** Over a whole run the pictures encoded are exactly the pictures handed over, in order, if and only
      if no picture of the run takes one of the two losing branches. */
  lemma {:induction false} EncodedIsDeliveredIff(s: State, es: seq<Event>)
    ensures ProducedLog(s, es) == HandedLog(s, es) <==> NothingLost(s, es)
  {
    if es != [] {
      var n := |es| - 1;
      EncodedIsDeliveredIff(s, es[..n]);
      LogsStep(s, es, n);
      NothingLostStep(s, es, n);
    }
  }

  lemma SplitLogs(a: seq<Bytes>, b: seq<Bytes>, c: seq<Bytes>, d: seq<Bytes>)
    requires |c| <= |a| && |d| <= |b| && (|d| == |b| ==> d == b)
    ensures a + b == c + d <==> a == c && b == d
  {
    if a + b == c + d {
      assert |a| == |c|;
      assert a == (a + b)[..|a|] == (c + d)[..|a|] == c;
    }
  }

  // ---------------------------------------------------------------- bytes counted

  function TotalBytes(log: seq<Bytes>): nat {
    if log == [] then 0 else TotalBytes(log[..|log| - 1]) + |log[|log| - 1]|
  }

  lemma {:induction false} TotalOfConcat(a: seq<Bytes>, b: seq<Bytes>)
    ensures TotalBytes(a + b) == TotalBytes(a) + TotalBytes(b)
    decreases |b|
  {
    if b == [] {
      assert a + b == a;
    } else {
      var n := |b| - 1;
      TotalOfConcat(a, b[..n]);
      assert (a + b)[..|a + b| - 1] == a + b[..n];
    }
  }

  lemma {:induction false} BytesOfStep(s: State, p: Picture)
    ensures Step(s, p).0.bytes == s.bytes + TotalBytes(Handed(Step(s, p).1))
    ensures Step(s, p).0.frames == s.frames + (if Step(s, p).1.Delivered? then 1 else 0)
  {
    var r := Step(s, p).1;
    if r.Delivered? {
      assert [r.main][..0] == [] && TotalBytes([r.main]) == |r.main|;
      if r.aux.Some? {
        assert [r.main, r.aux.value][..1] == [r.main];
      }
    }
  }

  /** The number of frames that a run delivers. */
  function Deliveries(s: State, es: seq<Event>): nat {
    if es == [] then 0
    else
      var n := |es| - 1;
      Deliveries(s, es[..n]) + (if es[n].Encode? && Step(Run(s, es[..n]), es[n].p).1.Delivered? then 1 else 0)
  }

  /** The bytes and frames counted over a run are exactly those handed to the client. */
  lemma {:induction false} BytesCountedAreHanded(s: State, es: seq<Event>)
    ensures Run(s, es).bytes == s.bytes + TotalBytes(HandedLog(s, es))
    ensures Run(s, es).frames == s.frames + Deliveries(s, es)
  {
    if es != [] {
      var n := |es| - 1;
      BytesCountedAreHanded(s, es[..n]);
      if es[n].Encode? {
        BytesOfStep(Run(s, es[..n]), es[n].p);
        TotalOfConcat(HandedLog(s, es[..n]), Handed(Step(Run(s, es[..n]), es[n].p).1));
      }
    }
  }

  // ---------------------------------------------------------------- auxiliary keyframes

  lemma {:induction false} LastCalls(s: State, p: Picture)
    requires Decides(p) && TakesAux(s, p)
    ensures var calls, s1 := Calls(s, p), s.AfterIdrCheck(p.now);
            && |calls| >= 2 && calls[|calls| - 1] == EncoderCall.Encode(Aux, p.aux)
            && (calls[|calls| - 2] == ForceIntra <==> p.main.keyframe || (s1.idrOnReturn && s1.sinceAux > 0))
  {
    var main, aux := MainCalls(s, p), AuxCalls(s.AfterIdrCheck(p.now), p);
    assert Calls(s, p) == main + aux;
    assert main[|main| - 1] == EncoderCall.Encode(Main, p.main);
    assert |aux| == 1 ==> (main + aux)[|main + aux| - 2] == main[|main| - 1];
  }

  /** On every run, an auxiliary picture is forced to be a keyframe exactly when the main picture before
      it is one, or when it returns after omitted frames and the encoder is configured for that. */
  lemma ReturningAuxIsForced(s: State, es: seq<Event>, p: Picture)
    requires Decides(p) && TakesAux(Run(s, es), p) && AnySent(Decisions(s, es))
    ensures var calls := Calls(Run(s, es), p);
            && |calls| >= 2 && calls[|calls| - 1] == EncoderCall.Encode(Aux, p.aux)
            && (calls[|calls| - 2] == ForceIntra
                <==> p.main.keyframe || (Run(s, es).idrOnReturn && WithoutSince(Decisions(s, es)) > 0))
  {
    LastCalls(Run(s, es), p);
    CounterMatchesLog(s, es);
  }

  // ---------------------------------------------------------------- frames without aux

  /** Event `i` of the run hands over a frame, with or without the auxiliary stream. */
  predicate HandsOver(s: State, es: seq<Event>, i: nat, withAux: bool) {
    && i < |es| && es[i].Encode?
    && Step(Run(s, es[..i]), es[i].p).1.Delivered? && Step(Run(s, es[..i]), es[i].p).1.aux.Some? == withAux
  }

  /** A frame without the auxiliary stream makes the client reuse the auxiliary picture it cached: there
      always is one. */
  ghost predicate AlwaysCached(s: State, es: seq<Event>) {
    forall k: nat :: HandsOver(s, es, k, false) ==> exists j :: 0 <= j < k && HandsOver(s, es, j, true)
  }

  /** The picture gets through all checks: a non-empty main picture, and no failure of an auxiliary one. */
  predicate GetsThrough(s: State, p: Picture) {
    Decides(p) && p.main.data != [] && !(TakesAux(s, p) && p.aux.Failed?)
  }

  /** Event `i` is the first picture of the run that gets through. */
  predicate FirstThrough(s: State, es: seq<Event>, i: nat) {
    && i < |es| && es[i].Encode? && GetsThrough(Run(s, es[..i]), es[i].p)
    && forall j :: 0 <= j < i && es[j].Encode? ==> !GetsThrough(Run(s, es[..j]), es[j].p)
  }

  lemma HandedMeansThrough(s: State, es: seq<Event>, i: nat)
    requires i < |es| && es[i].Encode?
    ensures HandsOver(s, es, i, true) || HandsOver(s, es, i, false) <==> GetsThrough(Run(s, es[..i]), es[i].p)
    ensures HandsOver(s, es, i, true)
       <==> GetsThrough(Run(s, es[..i]), es[i].p) && TakesAux(Run(s, es[..i]), es[i].p) && es[i].p.aux.data != []
  {
  }

  lemma {:induction false} FirstThroughExists(s: State, es: seq<Event>, k: nat) returns (i: nat)
    requires k < |es| && es[k].Encode? && GetsThrough(Run(s, es[..k]), es[k].p)
    ensures i <= k && FirstThrough(s, es, i)
    decreases k
  {
    i := k;
    if j :| 0 <= j < k && es[j].Encode? && GetsThrough(Run(s, es[..j]), es[j].p) {
      i := FirstThroughExists(s, es, j);
    }
  }

  /** On every run: every frame without the auxiliary stream follows one with it, if and only if the
      first picture that gets through takes the auxiliary stream and its auxiliary data is not empty. */
  lemma WithoutAuxFollowsAux(s: State, es: seq<Event>)
    ensures AlwaysCached(s, es)
       <==> forall i: nat :: FirstThrough(s, es, i) ==> TakesAux(Run(s, es[..i]), es[i].p) && es[i].p.aux.data != []
  {
    forall i: nat | FirstThrough(s, es, i) && AlwaysCached(s, es)
      ensures HandsOver(s, es, i, true)
    {
      FirstIsNotWithout(s, es, i);
    }
    forall i: nat | FirstThrough(s, es, i)
      ensures HandsOver(s, es, i, true) <==> TakesAux(Run(s, es[..i]), es[i].p) && es[i].p.aux.data != []
    {
      HandedMeansThrough(s, es, i);
    }
    if forall i: nat :: FirstThrough(s, es, i) ==> HandsOver(s, es, i, true) {
      forall k: nat | HandsOver(s, es, k, false)
        ensures exists j :: 0 <= j < k && HandsOver(s, es, j, true)
      {
        HandedMeansThrough(s, es, k);
        var i := FirstThroughExists(s, es, k);
        assert HandsOver(s, es, i, true);
      }
    }
  }

  lemma FirstIsNotWithout(s: State, es: seq<Event>, i: nat)
    requires FirstThrough(s, es, i) && AlwaysCached(s, es)
    ensures HandsOver(s, es, i, true)
  {
    HandedMeansThrough(s, es, i);
    if HandsOver(s, es, i, false) {
      var j :| 0 <= j < i && HandsOver(s, es, j, true);
      HandedMeansThrough(s, es, j);
    }
  }

  /** The H.264 encoder skips the auxiliary picture. */
  predicate SkipsAux(p: Picture) {
    p.aux.Encoded? && p.aux.data == []
  }

  /** Until a picture gets through, a new encoder that loses nothing has sent nothing. */
  lemma {:induction false} NothingSentBefore(s: State, es: seq<Event>, k: nat)
    requires s.lastHash.None? && k <= |es| && forall j :: 0 <= j < k ==> !LosesAt(s, es, j)
    requires forall j :: 0 <= j < k && es[j].Encode? ==> !GetsThrough(Run(s, es[..j]), es[j].p)
    ensures Run(s, es[..k]).lastHash.None?
    decreases k
  {
    if k > 0 {
      NothingSentBefore(s, es, k - 1);
      RunStep(s, es, k - 1);
      assert !LosesAt(s, es, k - 1);
      NothingSentByEvent(Run(s, es[..k - 1]), es[k - 1]);
    }
  }

  lemma {:induction false} NothingSentByEvent(s: State, e: Event)
    requires s.lastHash.None? && (e.Encode? ==> !GetsThrough(s, e.p) && !Loses(s, e.p))
    ensures Apply(s, e).lastHash.None?
  {
    if e.Encode? {
      StepEffect(s, e.p);
    }
  }

  /** For a new encoder that loses nothing before its first picture gets through, the condition is on the
      auxiliary data of that picture alone. */
  lemma WithoutLossOnlyEmptyAuxMatters(s: State, es: seq<Event>)
    requires s.lastHash.None?
    requires forall i: nat, j: nat :: FirstThrough(s, es, i) && j < i ==> !LosesAt(s, es, j)
    ensures AlwaysCached(s, es) <==> forall i: nat :: FirstThrough(s, es, i) ==> !SkipsAux(es[i].p)
  {
    WithoutAuxFollowsAux(s, es);
    forall i: nat | FirstThrough(s, es, i)
      ensures TakesAux(Run(s, es[..i]), es[i].p) && es[i].p.aux.Encoded?
    {
      NothingSentBefore(s, es, i);
    }
  }

  // ---------------------------------------------------------------- witnesses

  /** An empty main picture makes the encoder believe that the client has an auxiliary picture: the next
      frame goes without one, although no auxiliary picture was empty or failed. */
  lemma EmptyMainLeavesClientWithout(s: State)
    requires s.lastHash.None? && s.omission && s.maxInterval >= 1
    ensures var es := [Event.Encode(FirstPicture(Encoded([], false), Encoded([1], true))),
                       Event.Encode(FirstPicture(Encoded([2], false), Encoded([3], true)))];
            HandsOver(s, es, 1, false) && !AlwaysCached(s, es)
  {
    var p, q := FirstPicture(Encoded([], false), Encoded([1], true)), FirstPicture(Encoded([2], false), Encoded([3], true));
    var es := [Event.Encode(p), Event.Encode(q)];
    FirstPictureIsValid(p.main, p.aux);
    FirstPictureIsValid(q.main, q.aux);
    assert es[..1] == [es[0]] && es[..0] == [];
    RunStep(s, es, 0);
    assert Run(s, es[..1]) == Step(s, p).0;
    assert !HandsOver(s, es, 0, true);
    assert HandsOver(s, es, 1, false);
  }

  function FirstPicture(main: Outcome, aux: Outcome): Picture {
    Picture(2, 2, 16, 0, 7, main, aux)
  }

  lemma FirstPictureIsValid(main: Outcome, aux: Outcome)
    ensures FirstPicture(main, aux).Validated()
  {
    assert Flat(0, 2, 8) == 8 + Flat(0, 1, 8) == 16 + Flat(0, 0, 8);
  }

  /** An empty main picture throws away an auxiliary picture that was encoded. */
  lemma EmptyMainLosesAux(s: State)
    requires s.lastHash.None?
    ensures var es := [Event.Encode(FirstPicture(Encoded([], false), Encoded([1], true)))];
            ProducedLog(s, es) == [[1]] && HandedLog(s, es) == []
  {
    var p := FirstPicture(Encoded([], false), Encoded([1], true));
    FirstPictureIsValid(p.main, p.aux);
    OnePictureRun(s, p);
    ProducedOfMain(s, p);
    ProducedOfAux(s.AfterIdrCheck(0), p);
    ProducedOfConcat(MainCalls(s, p), AuxCalls(s.AfterIdrCheck(0), p));
  }

  /** A failing auxiliary stream throws away a main picture that was encoded. */
  lemma AuxErrorLosesMain(s: State)
    requires s.lastHash.None?
    ensures var es := [Event.Encode(FirstPicture(Encoded([1], true), Failed))];
            ProducedLog(s, es) == [[1]] && HandedLog(s, es) == []
  {
    var p := FirstPicture(Encoded([1], true), Failed);
    FirstPictureIsValid(p.main, p.aux);
    OnePictureRun(s, p);
    ProducedOfMain(s, p);
    ProducedOfAux(s.AfterIdrCheck(0), p);
    ProducedOfConcat(MainCalls(s, p), AuxCalls(s.AfterIdrCheck(0), p));
  }

  /** If the very first auxiliary picture comes back empty, the client gets a frame that relies on an
      auxiliary picture it never had. */
  lemma EmptyFirstAuxLeavesClientWithout(s: State)
    requires s.lastHash.None?
    ensures HandsOver(s, [Event.Encode(FirstPicture(Encoded([1], true), Encoded([], false)))], 0, false)
  {
    FirstPictureIsValid(Encoded([1], true), Encoded([], false));
  }

  lemma {:induction false} OnePictureRun(s: State, p: Picture)
    ensures ProducedLog(s, [Event.Encode(p)]) == Produced(Calls(s, p))
    ensures HandedLog(s, [Event.Encode(p)]) == Handed(Step(s, p).1)
  {
    var es := [Event.Encode(p)];
    assert es[..0] == [];
    assert ProducedLog(s, es) == [] + Produced(Calls(s, p));
  }

  // ---------------------------------------------------------------- requested keyframes

  /** A picture is rejected for its dimensions if and only if one is zero or odd, and for its buffer if and
      only if that is shorter than four bytes per pixel, counted in 32 bits; a rejected picture leaves no
      trace. */
  lemma RejectedIff(s: State, p: Picture)
    ensures var bad := p.width == 0 || p.height == 0 || p.width % 2 == 1 || p.height % 2 == 1;
            && (Step(s, p).1 == InvalidDimensions <==> bad)
            && (Step(s, p).1 == BufferTooSmall <==> !bad && p.length < (p.width * p.height * 4) % 0x1_0000_0000)
    ensures !p.Validated() ==> Step(s, p).0 == s && Calls(s, p) == []
    ensures p.Validated() <==> Step(s, p).1 != InvalidDimensions && Step(s, p).1 != BufferTooSmall
  {
    FlatIsRowMajor(0, p.height, 4 * p.width);
    assert p.height * (4 * p.width) == p.width * p.height * 4;
  }

  /** What is delivered: the main picture, its keyframe flag, and the auxiliary picture if it was taken and
      not skipped. */
  lemma DeliveredContents(s: State, p: Picture)
    requires Step(s, p).1.Delivered?
    ensures p.main == Encoded(Step(s, p).1.main, Step(s, p).1.keyframe)
    ensures if TakesAux(s, p) && p.aux.Encoded? && p.aux.data != [] then Step(s, p).1.aux == Some(p.aux.data)
            else Step(s, p).1.aux == None
  {
  }

  /** The encoder is told to make a keyframe before anything else if and only if one is due or all pictures
      are keyframes. */
  lemma MainIsForcedIff(s: State, p: Picture)
    requires p.Validated()
    ensures Calls(s, p) != [] && (Calls(s, p)[0] == ForceIntra <==> s.timer.Due(p.now) || s.allKeyframes)
  {
    assert MainCalls(s, p)[0] == Calls(s, p)[0];
  }

  /** A keyframe that is due is forced before the main picture is encoded. */
  lemma DueForcesBeforeMain(s: State, p: Picture)
    requires p.Validated() && s.timer.Due(p.now)
    ensures |Calls(s, p)| >= 2 && Calls(s, p)[0] == ForceIntra
    ensures EncoderCall.Encode(Main, p.main) in Calls(s, p)[1..]
  {
    var main := MainCalls(s, p);
    assert main[|main| - 1] == EncoderCall.Encode(Main, p.main);
    assert Calls(s, p)[1..][|main| - 2] == EncoderCall.Encode(Main, p.main);
  }

  /** No event of the list reaches an auxiliary decision. */
  predicate NoDecision(es: seq<Event>) {
    forall i :: 0 <= i < |es| ==> es[i].Encode? ==> !Decides(es[i].p)
  }

  lemma {:induction false} ForceSurvives(s: State, es: seq<Event>)
    requires (s.timer.requested || s.forceAux) && NoDecision(es)
    ensures Run(s, es).timer.requested || Run(s, es).forceAux
  {
    if es != [] {
      ForceSurvives(s, es[..|es| - 1]);
    }
  }

  /** After a request, through any number of rejected frames and main-encoder errors, the first picture
      that reaches the auxiliary decision sends the auxiliary stream. */
  lemma RequestReachesAux(s: State, es: seq<Event>, p: Picture)
    requires s.timer.requested && NoDecision(es) && Decides(p)
    ensures DecisionOf(Run(s, es), p).forced
    ensures EncoderCall.Encode(Aux, p.aux) in Calls(Run(s, es), p)
  {
    ForceSurvives(s, es);
    var now := Run(s, es);
    var aux := AuxCalls(now.AfterIdrCheck(p.now), p);
    assert aux[|aux| - 1] == EncoderCall.Encode(Aux, p.aux);
  }

  /** What one event does to the timer. */
  function TickOf(e: Event): Tick {
    match e
    case Encode(p) => if p.Validated() then Tick.Frame(p.now) else Untouched
    case RequestIdr => Tick.Request
    case ConfigureIdr(secs, now) => Tick.Configure(secs, now)
    case _ => Untouched
  }

  function Ticks(es: seq<Event>): (ticks: seq<Tick>)
    ensures |ticks| == |es| && forall i :: 0 <= i < |es| ==> ticks[i] == TickOf(es[i])
  {
    seq(|es|, i requires 0 <= i < |es| => TickOf(es[i]))
  }

  /** The encoder's timer runs as the shared timer does. */
  lemma {:induction false} TimerFollowsTicks(s: State, es: seq<Event>)
    ensures Run(s, es).timer == RunTimer(s.timer, Ticks(es))
  {
    if es != [] {
      var n := |es| - 1;
      TimerFollowsTicks(s, es[..n]);
      assert Ticks(es)[..n] == Ticks(es[..n]);
      if es[n].Encode? {
        TimerOfStep(Run(s, es[..n]), es[n].p);
      }
    }
  }

  lemma TimerOfStep(s: State, p: Picture)
    ensures Step(s, p).0.timer == if p.Validated() then s.timer.AfterFrame(p.now) else s.timer
  {
  }

  /** Event `k` of the run is a validated picture on which a keyframe is forced. */
  predicate ForcedEvent(s: State, es: seq<Event>, k: nat) {
    k < |es| && es[k].Encode? && es[k].p.Validated() && Run(s, es[..k]).timer.Due(es[k].p.now)
  }

  /** The forced pictures of a run are the forced ticks of its timer. */
  lemma {:induction false} ForcedEventIsForcedTick(s: State, es: seq<Event>, k: nat)
    ensures ForcedEvent(s, es, k) <==> ForcedAt(s.timer, Ticks(es), k)
  {
    if k < |es| {
      TimerFollowsTicks(s, es[..k]);
      assert Ticks(es)[..k] == Ticks(es[..k]);
    }
  }

  /** Events `i` and `j` are consecutive forced pictures, with no configuration of the timer between them. */
  predicate Consecutive(s: State, es: seq<Event>, i: nat, j: nat) {
    && i < j && ForcedEvent(s, es, i) && ForcedEvent(s, es, j)
    && forall k :: i < k < j ==> !ForcedEvent(s, es, k) && !es[k].ConfigureIdr?
  }

  lemma ConsecutiveTicks(s: State, es: seq<Event>, i: nat, j: nat)
    requires Consecutive(s, es, i, j)
    ensures ConsecutiveForced(s.timer, Ticks(es), i, j)
  {
    forall k | i <= k <= j
      ensures ForcedEvent(s, es, k) <==> ForcedAt(s.timer, Ticks(es), k)
    {
      ForcedEventIsForcedTick(s, es, k);
    }
  }

  /** The interval in force at event `i`, in nanoseconds. */
  function IntervalNanos(s: State, es: seq<Event>, i: nat): nat
    requires i <= |es|
  {
    IntervalAt(s.timer, Ticks(es)[..i]) * 1_000_000_000
  }

  /** On the encoder's own runs: without a request between them, consecutive forced pictures are at least
      the interval apart. */
  lemma EncoderForcesAreApart(s: State, es: seq<Event>, i: nat, j: nat)
    requires Consecutive(s, es, i, j) && forall k :: i < k < j ==> !es[k].RequestIdr?
    ensures IntervalNanos(s, es, i) > 0 && es[j].p.now >= es[i].p.now + IntervalNanos(s, es, i)
  {
    ConsecutiveTicks(s, es, i, j);
    ForcedFramesAreApart(s.timer, Ticks(es), i, j);
  }

  /** If validated pictures arrive at most `gap` apart, consecutive forced pictures are less than the
      interval plus `gap` apart. */
  lemma EncoderForcesAreClose(s: State, es: seq<Event>, i: nat, j: nat, gap: nat)
    requires Consecutive(s, es, i, j) && FramesWithin(Ticks(es), i, gap) && IntervalNanos(s, es, i) > 0
    ensures es[j].p.now < es[i].p.now + IntervalNanos(s, es, i) + gap
  {
    ConsecutiveTicks(s, es, i, j);
    ForcedFramesAreClose(s.timer, Ticks(es), i, j, gap);
  }

  /** A validated picture that arrives a full interval after a forced one finds another one forced or the
      timer configured since, or is forced itself. */
  lemma EncoderKeepsForcing(s: State, es: seq<Event>, i: nat, j: nat) returns (k: nat)
    requires ForcedEvent(s, es, i) && i < j < |es| && es[j].Encode? && es[j].p.Validated()
    requires IntervalNanos(s, es, i) > 0 && es[j].p.now >= es[i].p.now + IntervalNanos(s, es, i)
    ensures i < k <= j && (ForcedEvent(s, es, k) || es[k].ConfigureIdr?)
  {
    ForcedEventIsForcedTick(s, es, i);
    KeyframesKeepComing(s.timer, Ticks(es), i, j);
    k :| i < k <= j && Restarts(s.timer, Ticks(es), k);
    ForcedEventIsForcedTick(s, es, k);
  }

  /** No event from `j` on reaches an auxiliary decision. */
  predicate UndecidedFrom(es: seq<Event>, j: nat) {
    forall i :: j <= i < |es| && es[i].Encode? ==> !Decides(es[i].p)
  }

  /** A picture on which a keyframe was forced has not been followed by an auxiliary decision yet. */
  ghost predicate AuxOwed(s: State, es: seq<Event>) {
    (s.forceAux && UndecidedFrom(es, 0)) || exists j :: 0 <= j < |es| && ForcedEvent(s, es, j) && UndecidedFrom(es, j)
  }

  lemma {:induction false} AuxOwedStep(s: State, es: seq<Event>, n: nat)
    requires |es| == n + 1
    ensures AuxOwed(s, es) <==> (AuxOwed(s, es[..n]) || ForcedEvent(s, es, n)) && !(es[n].Encode? && Decides(es[n].p))
  {
    forall j | 0 <= j < n
      ensures ForcedEvent(s, es, j) <==> ForcedEvent(s, es[..n], j)
    {
      assert es[..n][..j] == es[..j];
    }
    forall j | 0 <= j <= n
      ensures UndecidedFrom(es, j) <==> UndecidedFrom(es[..n], j) && !(es[n].Encode? && Decides(es[n].p))
    {
    }
    if AuxOwed(s, es[..n]) && !(es[n].Encode? && Decides(es[n].p)) && !(s.forceAux && UndecidedFrom(es[..n], 0)) {
      var j :| 0 <= j < n && ForcedEvent(s, es[..n], j) && UndecidedFrom(es[..n], j);
      assert ForcedEvent(s, es, j) && UndecidedFrom(es, j);
    }
  }

  lemma ForceAuxOfStep(s: State, p: Picture)
    ensures Step(s, p).0.forceAux <==> !Decides(p) && (s.forceAux || (p.Validated() && s.timer.Due(p.now)))
  {
  }

  /** On every run the auxiliary stream is forced if and only if a forced keyframe is still owed one. */
  lemma {:induction false} ForceAuxIffOwed(s: State, es: seq<Event>)
    ensures Run(s, es).forceAux <==> AuxOwed(s, es)
  {
    if es != [] {
      var n := |es| - 1;
      ForceAuxIffOwed(s, es[..n]);
      AuxOwedStep(s, es, n);
      if es[n].Encode? {
        ForceAuxOfStep(Run(s, es[..n]), es[n].p);
      }
    }
  }

  /** A decision is forced if and only if a keyframe is forced on its picture or an earlier one is still owed
      an auxiliary stream. */
  lemma DecisionForcedIff(s: State, es: seq<Event>, p: Picture)
    requires Decides(p)
    ensures DecisionOf(Run(s, es), p).forced <==> Run(s, es).timer.Due(p.now) || AuxOwed(s, es)
  {
    ForceAuxIffOwed(s, es);
  }
}
