/** What the AVC444 schedule guarantees over whole runs. */
module Avc444Properties {
  import opened Common
  import opened IdrTimer
  import opened Avc444

  datatype Event =
    | Encode(p: Picture)
    | RequestIdr
    | ConfigureIdr(secs: nat, now: Instant)
    | ConfigureOmission(enable: bool, max: nat, onReturn: bool)
    | SetMaxInterval(max: nat)

  function Apply(s: State, e: Event): State {
    match e
    case Encode(p) => Step(s, p).0
    case RequestIdr => s.(timer := s.timer.Request())
    case ConfigureIdr(secs, now) => s.(timer := s.timer.Configure(secs, now))
    case ConfigureOmission(enable, max, onReturn) =>
      s.(omission := enable, maxInterval := Clamp(max, 1, 120), idrOnReturn := onReturn)
    case SetMaxInterval(max) => s.(maxInterval := Clamp(max, 1, 120))
  }

  function Run(s: State, es: seq<Event>): State {
    if es == [] then s else Apply(Run(s, es[..|es| - 1]), es[|es| - 1])
  }

  lemma RunStep(s: State, es: seq<Event>, k: nat)
    requires k < |es|
    ensures Run(s, es[..k + 1]) == Apply(Run(s, es[..k]), es[k])
  {
    assert es[..k + 1][..k] == es[..k];
  }

  // ---------------------------------------------------------------- auxiliary decisions

  datatype Kind = Sent | Without | Errored

  datatype Decision = Decision(kind: Kind, forced: bool)

  /** A picture reaches the auxiliary decision. */
  predicate Decides(p: Picture) {
    p.Validated() && p.main.Encoded?
  }

  function DecisionOf(s: State, p: Picture): Decision
    requires Decides(p)
  {
    var s1 := s.AfterIdrCheck(p.now);
    var kind := if s1.SendsAux(p.hash) && p.aux.Failed? then Errored
                else if AuxBytes(s1, p).Some? then Sent
                else Without;
    Decision(kind, s1.forceAux)
  }

  /** The decisions of a run, in order. */
  function Decisions(s: State, es: seq<Event>): seq<Decision> {
    if es == [] then []
    else
      var n := |es| - 1;
      var log := Decisions(s, es[..n]);
      if es[n].Encode? && Decides(es[n].p) then log + [DecisionOf(Run(s, es[..n]), es[n].p)] else log
  }

  predicate AnySent(log: seq<Decision>) {
    exists i :: 0 <= i < |log| && log[i].kind == Sent
  }

  /** The number of aux-less frames after the last send of the log. */
  function WithoutSince(log: seq<Decision>): nat {
    if log == [] || log[|log| - 1].kind == Sent then 0
    else WithoutSince(log[..|log| - 1]) + (if log[|log| - 1].kind == Without then 1 else 0)
  }

  function Sends(log: seq<Decision>): nat {
    if log == [] then 0 else Sends(log[..|log| - 1]) + (if log[|log| - 1].kind == Sent then 1 else 0)
  }

  function Forced(log: seq<Decision>): nat {
    if log == [] then 0 else Forced(log[..|log| - 1]) + (if log[|log| - 1].forced then 1 else 0)
  }

  /** The events leave the omission settings alone. */
  predicate KeepsSettings(es: seq<Event>) {
    forall i :: 0 <= i < |es| ==> !es[i].ConfigureOmission? && !es[i].SetMaxInterval?
  }

  /** The minimum spacing under a maximum interval. */
  function Spacing(maxInterval: nat): nat {
    Min(maxInterval, 10)
  }

  /** Every unforced send but the first comes after at least `m` aux-less frames. */
  ghost predicate Spaced(log: seq<Decision>, m: nat) {
    forall j :: 0 <= j < |log| && log[j] == Decision(Sent, false) && AnySent(log[..j]) ==> WithoutSince(log[..j]) >= m
  }

  lemma AnySentGrows(log: seq<Decision>, d: Decision)
    ensures AnySent(log + [d]) <==> AnySent(log) || d.kind == Sent
  {
    if AnySent(log) {
      var i :| 0 <= i < |log| && log[i].kind == Sent;
      assert (log + [d])[i].kind == Sent;
    }
    if d.kind == Sent {
      assert (log + [d])[|log|].kind == Sent;
    }
  }

  lemma WithoutSinceGrows(log: seq<Decision>, d: Decision)
    ensures WithoutSince(log + [d]) == if d.kind == Sent then 0 else WithoutSince(log) + (if d.kind == Without then 1 else 0)
  {
    assert (log + [d])[..|log|] == log;
  }

  /** How one picture changes the counter and the hash. */
  lemma StepEffect(s: State, p: Picture)
    ensures !Decides(p) ==> Step(s, p).0.lastHash == s.lastHash && Step(s, p).0.sinceAux == s.sinceAux
    ensures Decides(p) ==>
              match DecisionOf(s, p).kind
              case Sent => Step(s, p).0.lastHash == Some(p.hash) && Step(s, p).0.sinceAux == 0
              case Without => Step(s, p).0.lastHash == s.lastHash && Step(s, p).0.sinceAux == s.sinceAux + 1
              case Errored => Step(s, p).0.lastHash == s.lastHash && Step(s, p).0.sinceAux == s.sinceAux
    ensures Step(s, p).0.omission == s.omission && Step(s, p).0.maxInterval == s.maxInterval
    ensures Step(s, p).0.idrOnReturn == s.idrOnReturn
  {
  }

  /** A picture goes without aux only if the interval has not run out or the H.264 encoder skipped it. */
  lemma WithoutMeansEarly(s: State, p: Picture)
    requires s.omission && s.lastHash.Some? && Decides(p) && DecisionOf(s, p).kind == Without
    ensures s.sinceAux < s.maxInterval || p.aux == Encoded([], p.aux.keyframe)
  {
  }

  /** The counter and the hash of `now` are what the log says, for a run that began in `s`. */
  predicate Matches(s: State, now: State, log: seq<Decision>) {
    && (now.lastHash.Some? <==> s.lastHash.Some? || AnySent(log))
    && now.sinceAux == WithoutSince(log) + (if AnySent(log) then 0 else s.sinceAux)
  }

  /** The encoder's counter and hash are exactly what the log of decisions says, from any state and
      through any change of settings. */
  lemma {:induction false} CounterMatchesLog(s: State, es: seq<Event>)
    ensures Matches(s, Run(s, es), Decisions(s, es))
  {
    if es != [] {
      var n := |es| - 1;
      var before, log := Run(s, es[..n]), Decisions(s, es[..n]);
      CounterMatchesLog(s, es[..n]);
      if es[n].Encode? && Decides(es[n].p) {
        CounterStep(s, before, es[n].p, log);
      } else {
        OtherEventsKeepCounter(s, before, es[n], log);
      }
    }
  }

  lemma {:induction false} OtherEventsKeepCounter(s: State, before: State, e: Event, log: seq<Decision>)
    requires Matches(s, before, log) && !(e.Encode? && Decides(e.p))
    ensures Matches(s, Apply(before, e), log)
  {
    if e.Encode? {
      StepEffect(before, e.p);
    }
  }

  lemma {:induction false} CounterStep(s: State, before: State, p: Picture, log: seq<Decision>)
    requires Decides(p) && Matches(s, before, log)
    ensures Matches(s, Step(before, p).0, log + [DecisionOf(before, p)])
  {
    StepEffect(before, p);
    AnySentGrows(log, DecisionOf(before, p));
    WithoutSinceGrows(log, DecisionOf(before, p));
  }

  /** Event `k` configures the omission, and the settings are not changed after it. */
  predicate LatestSettings(es: seq<Event>, k: nat) {
    && k < |es| && es[k].ConfigureOmission?
    && forall j :: k < j < |es| ==> !es[j].ConfigureOmission? && !es[j].SetMaxInterval?
  }

  /** The settings in force are those configured last, with the interval brought into 1 to 120. */
  lemma {:induction false} SettingsAreLatest(s: State, es: seq<Event>, k: nat)
    requires LatestSettings(es, k)
    ensures Run(s, es).omission == es[k].enable && Run(s, es).idrOnReturn == es[k].onReturn
    ensures 1 <= Run(s, es).maxInterval <= 120
    ensures Run(s, es).maxInterval == if es[k].max == 0 then 1 else if es[k].max >= 120 then 120 else es[k].max
    decreases |es|
  {
    var n := |es| - 1;
    if k < n {
      SettingsAreLatest(s, es[..n], k);
      if es[n].Encode? {
        StepEffect(Run(s, es[..n]), es[n].p);
      }
    }
  }

  /** The interval stays in range on every run. */
  lemma {:induction false} MaximumStaysInRange(s: State, es: seq<Event>)
    requires 1 <= s.maxInterval <= 120
    ensures 1 <= Run(s, es).maxInterval <= 120
  {
    if es != [] {
      var n := |es| - 1;
      MaximumStaysInRange(s, es[..n]);
      if es[n].Encode? {
        StepEffect(Run(s, es[..n]), es[n].p);
      }
    }
  }

  /** An encoder that is never configured takes the auxiliary stream with every picture, forces its first
      keyframe after five seconds, and would omit up to 30 frames. */
  lemma DefaultsOnRuns(start: Instant, es: seq<Event>, p: Picture)
    requires KeepsSettings(es)
    ensures Run(InitialState(start), es).AfterIdrCheck(p.now).SendsAux(p.hash)
    ensures Run(InitialState(start), es).maxInterval == 30 && !Run(InitialState(start), es).idrOnReturn
    ensures InitialState(start).timer.Due(p.now) <==> p.now >= start + 5_000_000_000
  {
    SettingsStay(InitialState(start), es);
  }

  lemma {:induction false} SettingsStay(s: State, es: seq<Event>)
    requires KeepsSettings(es)
    ensures Run(s, es).omission == s.omission && Run(s, es).maxInterval == s.maxInterval
    ensures Run(s, es).idrOnReturn == s.idrOnReturn
  {
    if es != [] {
      SettingsStay(s, es[..|es| - 1]);
      if es[|es| - 1].Encode? {
        StepEffect(Run(s, es[..|es| - 1]), es[|es| - 1].p);
      }
    }
  }

  lemma {:induction false} DecisionsArePrefixes(s: State, es: seq<Event>, j: nat) returns (k: nat)
    requires j < |Decisions(s, es)|
    ensures k < |es| && es[k].Encode? && Decides(es[k].p)
    ensures Decisions(s, es)[..j] == Decisions(s, es[..k])
    ensures Decisions(s, es)[j] == DecisionOf(Run(s, es[..k]), es[k].p)
  {
    var n := |es| - 1;
    var log := Decisions(s, es[..n]);
    if j < |log| {
      k := DecisionsArePrefixes(s, es[..n], j);
      assert es[..n][..k] == es[..k];
      assert Decisions(s, es)[..j] == log[..j];
    } else {
      k := n;
    }
  }

  /** Event `k` of the run sends the auxiliary stream. */
  predicate SendsAt(s: State, es: seq<Event>, k: nat) {
    k < |es| && es[k].Encode? && Decides(es[k].p) && DecisionOf(Run(s, es[..k]), es[k].p).kind == Sent
  }

  /** Event `k` is the latest of the run that sends the auxiliary stream. */
  predicate LatestSend(s: State, es: seq<Event>, k: nat) {
    SendsAt(s, es, k) && forall j :: k < j < |es| ==> !SendsAt(s, es, j)
  }

  lemma {:induction false} LatestSendOfPrefix(s: State, es: seq<Event>, n: nat, k: nat)
    requires |es| == n + 1 && k < n && LatestSend(s, es, k)
    ensures LatestSend(s, es[..n], k) && !SendsAt(s, es, n)
  {
    forall j | 0 <= j < n
      ensures SendsAt(s, es[..n], j) == SendsAt(s, es, j)
    {
      assert es[..n][..j] == es[..j];
    }
  }

  /** The encoder remembers the hash of the auxiliary picture it sent last. */
  lemma {:induction false} HashIsLatestSend(s: State, es: seq<Event>, k: nat)
    requires LatestSend(s, es, k)
    ensures Run(s, es).lastHash == Some(es[k].p.hash) && AnySent(Decisions(s, es))
    decreases |es|
  {
    var n := |es| - 1;
    var before, log := Run(s, es[..n]), Decisions(s, es[..n]);
    if es[n].Encode? {
      StepEffect(before, es[n].p);
      if Decides(es[n].p) {
        AnySentGrows(log, DecisionOf(before, es[n].p));
      }
    }
    if k < n {
      LatestSendOfPrefix(s, es, n, k);
      HashIsLatestSend(s, es[..n], k);
    }
  }

  /** On every run, after a send: the auxiliary stream is taken if and only if it is forced, omission is
      off, the maximum has been reached, or at least ten frames went without it and the auxiliary view has
      changed since it was last sent. */
  lemma AuxTakenIff(s: State, es: seq<Event>, p: Picture, k: nat)
    requires LatestSend(s, es, k) && Decides(p)
    ensures var now, without := Run(s, es), WithoutSince(Decisions(s, es));
            now.AfterIdrCheck(p.now).SendsAux(p.hash)
            <==> DecisionOf(now, p).forced || !now.omission || without >= now.maxInterval
                 || (without >= 10 && p.hash != es[k].p.hash)
  {
    HashIsLatestSend(s, es, k);
    CounterMatchesLog(s, es);
  }

  /** A new encoder takes the auxiliary stream until it has sent it once. */
  lemma FirstAuxIsTaken(s: State, es: seq<Event>, p: Picture)
    requires s.lastHash.None? && !AnySent(Decisions(s, es)) && Decides(p)
    ensures Run(s, es).AfterIdrCheck(p.now).SendsAux(p.hash)
  {
    CounterMatchesLog(s, es);
  }

  /** Whatever the settings were before: an unforced send while omission is on comes at least
      `min(max, 10)` aux-less frames after the send before it, for the maximum in force at that moment. */
  lemma UnforcedSendIsSpaced(s: State, es: seq<Event>, p: Picture)
    requires Run(s, es).omission && Decides(p) && DecisionOf(Run(s, es), p) == Decision(Sent, false)
    requires AnySent(Decisions(s, es))
    ensures WithoutSince(Decisions(s, es)) >= Spacing(Run(s, es).maxInterval)
  {
    CounterMatchesLog(s, es);
  }

  /** With omission on and a fixed maximum, unforced sends are at least `min(max, 10)` aux-less frames
      apart. */
  lemma SendsAreSpaced(s: State, es: seq<Event>)
    requires s.omission && KeepsSettings(es)
    ensures Spaced(Decisions(s, es), Spacing(s.maxInterval))
  {
    var log := Decisions(s, es);
    forall j | 0 <= j < |log| && log[j] == Decision(Sent, false) && AnySent(log[..j])
      ensures WithoutSince(log[..j]) >= Spacing(s.maxInterval)
    {
      var k := DecisionsArePrefixes(s, es, j);
      SettingsStay(s, es[..k]);
      UnforcedSendIsSpaced(s, es[..k], es[k].p);
    }
  }

  /** After the first send there are never more than `max` aux-less frames in a row, if the H.264 encoder
      never skips an auxiliary picture. */
  lemma {:induction false} GapsAreBounded(s: State, es: seq<Event>)
    requires s.omission && KeepsSettings(es)
    requires forall i :: 0 <= i < |es| && es[i].Encode? && es[i].p.aux.Encoded? ==> es[i].p.aux.data != []
    ensures AnySent(Decisions(s, es)) ==> WithoutSince(Decisions(s, es)) <= s.maxInterval
  {
    if es != [] {
      var n := |es| - 1;
      GapsAreBounded(s, es[..n]);
      CounterMatchesLog(s, es[..n]);
      SettingsStay(s, es[..n]);
      if es[n].Encode? && Decides(es[n].p) {
        var log, d := Decisions(s, es[..n]), DecisionOf(Run(s, es[..n]), es[n].p);
        AnySentGrows(log, d);
        WithoutSinceGrows(log, d);
        if AnySent(log) && d.kind == Without {
          WithoutMeansEarly(Run(s, es[..n]), es[n].p);
        }
      }
    }
  }

  lemma {:induction false} SentIffCounted(log: seq<Decision>)
    ensures AnySent(log) <==> Sends(log) > 0
  {
    if log != [] {
      var n := |log| - 1;
      SentIffCounted(log[..n]);
      assert log == log[..n] + [log[n]];
      AnySentGrows(log[..n], log[n]);
    }
  }

  lemma {:induction false} SpacedPotential(log: seq<Decision>, m: nat)
    requires Spaced(log, m)
    ensures Sends(log) > 0 ==> (m + 1) * (Sends(log) - 1 - Forced(log)) + WithoutSince(log) <= |log|
  {
    if log != [] {
      var n := |log| - 1;
      var before, d := log[..n], log[n];
      assert forall j :: 0 <= j < n ==> before[..j] == log[..j];
      SpacedPotential(before, m);
      SentIffCounted(before);
      var x := Sends(before) - 1 - Forced(before);
      var y := Sends(log) - 1 - Forced(log);
      assert y == x || y == x + 1 || y == x - 1;
      MultiplyOut(m, x);
      if Sends(before) == 0 && d.kind == Sent {
        NoMoreThanOne(m, Forced(log));
      }
    }
  }

  lemma MultiplyOut(m: nat, x: int)
    ensures (m + 1) * (x + 1) == (m + 1) * x + m + 1 && (m + 1) * (x - 1) == (m + 1) * x - m - 1
  {
  }

  lemma NoMoreThanOne(m: nat, f: nat)
    ensures (m + 1) * (0 - f) <= 0
  {
  }

  /** Over `n` decisions of which `f` are forced there are at most `1 + f + n / (min(max, 10) + 1)`
      auxiliary sends. */
  lemma SendsAreFew(s: State, es: seq<Event>)
    requires s.omission && KeepsSettings(es)
    ensures var log := Decisions(s, es);
            Sends(log) <= 1 + Forced(log) + |log| / (Spacing(s.maxInterval) + 1)
  {
    SendsAreSpaced(s, es);
    SpacedSendsAreFew(Decisions(s, es), Spacing(s.maxInterval));
  }

  lemma {:induction false} SpacedSendsAreFew(log: seq<Decision>, m: nat)
    requires Spaced(log, m)
    ensures Sends(log) <= 1 + Forced(log) + |log| / (m + 1)
  {
    SpacedPotential(log, m);
    BoundFromPotential(m, Sends(log), Forced(log), WithoutSince(log), |log|);
  }

  lemma BoundFromPotential(m: nat, sends: nat, forced: nat, open: nat, n: nat)
    requires sends > 0 ==> (m + 1) * (sends - 1 - forced) + open <= n
    ensures sends <= 1 + forced + n / (m + 1)
  {
    var q := sends - 1 - forced;
    if q > 0 {
      QuotientBound(m + 1, q, n);
    } else {
      assert n / (m + 1) >= 0;
    }
  }

  lemma QuotientBound(d: nat, q: nat, n: nat)
    requires d > 0 && d * q <= n
    ensures q <= n / d
  {
    assert n == d * (n / d) + n % d;
    MulMonotone(Min(q, n / d + 1), q, d);
  }
}
