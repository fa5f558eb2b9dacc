/**
 Clipboard ownership and echo protection (src/clipboard/sync.rs:30-350). The loop detector belongs to
 another crate: its answers are inputs, and the calls made on it are recorded.
 */
module ClipboardSync {
  import opened Common

  datatype Format = Format(id: nat, name: Option<string>)

  datatype Direction = RdpToPortal | PortalToRdp

  /** Times are nanoseconds of the system clock, which may be set back. */
  datatype Ownership =
    | Idle
    | RdpOwned(formats: seq<Format>, since: int)
    | PortalOwned(mimeTypes: seq<string>)
    | Syncing(direction: Direction)

  datatype PortalDecision = Allow | Block | KlipperReannounce

  datatype DetectorCall =
    | RecordFormats(formats: seq<Format>)
    | RecordMimeTypes(mimeTypes: seq<string>)
    | RecordSync(remote: bool)
    | ClearDetector

  const ECHO_PROTECTION_WINDOW_MS := 2000

  const NANOS_PER_MILLI := 1_000_000

  function KlipperSignatures(): seq<string> {
    ["application/x-kde-onlyReplaceEmpty", "application/x-kde-cutselection"]
  }

  /** `str::contains`. */
  predicate Contains(text: string, part: string) {
    part <= text || (text != [] && Contains(text[1..], part))
  }

  predicate HasKlipperSignature(mimeTypes: seq<string>) {
    exists m, s :: m in mimeTypes && s in KlipperSignatures() && Contains(m, s)
  }

  /** `duration_since`, zero where the clock ran backwards, in whole milliseconds. */
  function ElapsedMillis(since: int, now: int): nat {
    if now >= since then (now - since) / NANOS_PER_MILLI else 0
  }

  /** What `handle_portal_formats` decides. */
  function Decide(owner: Ownership, mimeTypes: seq<string>, force: bool, now: int, loops: bool, klipperPresent: bool): PortalDecision {
    if owner.RdpOwned? then
      if !force then Block
      else if ElapsedMillis(owner.since, now) >= ECHO_PROTECTION_WINDOW_MS then Allow
      else if HasKlipperSignature(mimeTypes) || (mimeTypes == [] && klipperPresent) then KlipperReannounce
      else Block
    else if !force && loops then Block
    else Allow
  }

  datatype State = State(owner: Ownership, detector: seq<DetectorCall>, klipperPresent: bool)

  datatype Event =
    | RdpFormats(formats: seq<Format>, now: int, loops: bool)
    | PortalFormats(mimeTypes: seq<string>, force: bool, now: int, loops: bool)
    | SetRdpFormats(formats: seq<Format>, now: int)
    | SetPortalFormats(mimeTypes: seq<string>)
    | SetSyncing(direction: Direction)
    | Reset
    | ResetDetector
    | SetKlipperPresent(present: bool)

  function DecisionAt(s: State, e: Event): PortalDecision
    requires e.PortalFormats?
  {
    Decide(s.owner, e.mimeTypes, e.force, e.now, e.loops, s.klipperPresent)
  }

  function Apply(s: State, e: Event): State {
    match e
    case RdpFormats(formats, now, loops) =>
      if loops then s
      else s.(owner := RdpOwned(formats, now), detector := s.detector + [RecordFormats(formats), RecordSync(true)])
    case PortalFormats(mimeTypes, _, _, _) =>
      if DecisionAt(s, e) != Allow then s
      else s.(owner := PortalOwned(mimeTypes), detector := s.detector + [RecordMimeTypes(mimeTypes), RecordSync(false)])
    case SetRdpFormats(formats, now) =>
      s.(owner := RdpOwned(formats, now), detector := s.detector + [RecordFormats(formats)])
    case SetPortalFormats(mimeTypes) =>
      s.(owner := PortalOwned(mimeTypes), detector := s.detector + [RecordMimeTypes(mimeTypes)])
    case SetSyncing(direction) => s.(owner := Syncing(direction))
    case Reset => s.(owner := Idle)
    case ResetDetector => s.(detector := s.detector + [ClearDetector])
    case SetKlipperPresent(present) => s.(klipperPresent := present)
  }

  class SyncManager {
    var state: Ownership
    var loopDetector: seq<DetectorCall>
    var klipperPresent: bool

    function Abs(): State
      reads this
    {
      State(state, loopDetector, klipperPresent)
    }

    constructor ()
      ensures Abs() == State(Idle, [], false)
    {
      state, loopDetector, klipperPresent := Idle, [], false;
    }

    method HandleRdpFormats(formats: seq<Format>, now: int, loops: bool) returns (proceed: bool)
      modifies this
      ensures proceed == !loops && Abs() == Apply(old(Abs()), Event.RdpFormats(formats, now, loops))
    {
      if loops {
        return false;
      }
      state := RdpOwned(formats, now);
      loopDetector := loopDetector + [RecordFormats(formats)];
      loopDetector := loopDetector + [RecordSync(true)];
      return true;
    }

    method HandlePortalFormats(mimeTypes: seq<string>, force: bool, now: int, loops: bool)
      returns (decision: PortalDecision)
      modifies this
      ensures decision == DecisionAt(old(Abs()), Event.PortalFormats(mimeTypes, force, now, loops))
      ensures Abs() == Apply(old(Abs()), Event.PortalFormats(mimeTypes, force, now, loops))
    {
      var isKlipper := HasKlipperSignature(mimeTypes);
      if state.RdpOwned? {
        var elapsed := ElapsedMillis(state.since, now);
        if !force {
          return Block;
        } else if elapsed < ECHO_PROTECTION_WINDOW_MS {
          if isKlipper {
            return KlipperReannounce;
          } else if mimeTypes == [] && klipperPresent {
            return KlipperReannounce;
          }
          return Block;
        }
      }
      if !force && loops {
        return Block;
      }
      state := PortalOwned(mimeTypes);
      loopDetector := loopDetector + [RecordMimeTypes(mimeTypes)];
      loopDetector := loopDetector + [RecordSync(false)];
      return Allow;
    }

    method SetRdpFormats(formats: seq<Format>, now: int)
      modifies this
      ensures Abs() == Apply(old(Abs()), Event.SetRdpFormats(formats, now))
    {
      state := RdpOwned(formats, now);
      loopDetector := loopDetector + [RecordFormats(formats)];
    }

    method SetPortalFormats(mimeTypes: seq<string>)
      modifies this
      ensures Abs() == Apply(old(Abs()), Event.SetPortalFormats(mimeTypes))
    {
      state := PortalOwned(mimeTypes);
      loopDetector := loopDetector + [RecordMimeTypes(mimeTypes)];
    }

    method SetSyncing(direction: Direction)
      modifies this
      ensures Abs() == Apply(old(Abs()), Event.SetSyncing(direction))
    {
      state := Syncing(direction);
    }

    method Reset()
      modifies this
      ensures Abs() == Apply(old(Abs()), Event.Reset)
    {
      state := Idle;
    }

    method ResetLoopDetector()
      modifies this
      ensures Abs() == Apply(old(Abs()), Event.ResetDetector)
    {
      loopDetector := loopDetector + [ClearDetector];
    }

    method SetKlipperPresent(present: bool)
      modifies this
      ensures Abs() == Apply(old(Abs()), Event.SetKlipperPresent(present))
    {
      klipperPresent := present;
    }
  }

  // ---------------------------------------------------------------- whole runs

  function Run(s: State, es: seq<Event>): State {
    if es == [] then s else Apply(Run(s, es[..|es| - 1]), es[|es| - 1])
  }

  /** The event announces RDP formats and is accepted. */
  predicate Announces(e: Event) {
    (e.RdpFormats? && !e.loops) || e.SetRdpFormats?
  }

  /** In a state of the run, the event leaves the owner as it is. */
  predicate LeavesOwner(s: State, e: Event) {
    || (e.RdpFormats? && e.loops)
    || (e.PortalFormats? && DecisionAt(s, e) != Allow)
    || e.ResetDetector?
    || e.SetKlipperPresent?
  }

  /** Event `k` is the latest accepted RDP announcement and still owns the clipboard. */
  ghost predicate OwnsSince(s: State, es: seq<Event>, k: nat) {
    k < |es| && Announces(es[k]) && forall i :: k < i < |es| ==> LeavesOwner(Run(s, es[..i]), es[i])
  }

  lemma {:induction false} OwnsSinceStep(s: State, es: seq<Event>, k: nat)
    requires es != []
    ensures OwnsSince(s, es, k) <==>
              var n := |es| - 1;
              if k == n then Announces(es[n])
              else k < n && OwnsSince(s, es[..n], k) && LeavesOwner(Run(s, es[..n]), es[n])
  {
    var n := |es| - 1;
    assert forall i :: 0 <= i < n ==> es[..n][..i] == es[..i] && es[..n][i] == es[i];
  }

  /** What each event does to the owner. */
  lemma OwnerAfter(s: State, e: Event)
    ensures LeavesOwner(s, e) ==> Apply(s, e).owner == s.owner
    ensures Announces(e) ==> Apply(s, e).owner == RdpOwned(e.formats, e.now)
    ensures (e.PortalFormats? && DecisionAt(s, e) == Allow) || e.SetPortalFormats? ==>
              Apply(s, e).owner == PortalOwned(e.mimeTypes)
    ensures e.SetSyncing? ==> Apply(s, e).owner == Syncing(e.direction)
    ensures e.Reset? ==> Apply(s, e).owner == Idle
  {
  }

  /** The announcement that owns the clipboard fixes formats and timestamp. */
  lemma {:induction false} OwnerIsAnnouncement(s: State, es: seq<Event>, k: nat)
    requires OwnsSince(s, es, k)
    ensures Run(s, es).owner == RdpOwned(es[k].formats, es[k].now)
    decreases |es|
  {
    var n := |es| - 1;
    OwnsSinceStep(s, es, k);
    OwnerAfter(Run(s, es[..n]), es[n]);
    if k < n {
      OwnerIsAnnouncement(s, es[..n], k);
    }
  }

  /** If RDP owns the clipboard, an accepted announcement has owned it ever since it was made. */
  lemma {:induction false} OwnerHasAnnouncement(s: State, es: seq<Event>) returns (k: nat)
    requires !s.owner.RdpOwned? && Run(s, es).owner.RdpOwned?
    ensures OwnsSince(s, es, k) && Run(s, es).owner == RdpOwned(es[k].formats, es[k].now)
    decreases |es|
  {
    var n := |es| - 1;
    OwnerAfter(Run(s, es[..n]), es[n]);
    if Announces(es[n]) {
      k := n;
    } else {
      k := OwnerHasAnnouncement(s, es[..n]);
    }
    OwnsSinceStep(s, es, k);
    OwnerIsAnnouncement(s, es, k);
  }

  /** On every run, whatever the clock does: a portal announcement taken over while RDP owns the clipboard
      is forced, and measures at least 2000 ms since the latest accepted RDP announcement. */
  lemma TakeoverNeedsForceAndTime(s: State, es: seq<Event>, e: Event)
    requires !s.owner.RdpOwned? && e.PortalFormats? && Run(s, es).owner.RdpOwned?
    requires DecisionAt(Run(s, es), e) == Allow
    ensures e.force
    ensures exists k: nat :: OwnsSince(s, es, k) && ElapsedMillis(es[k].now, e.now) >= ECHO_PROTECTION_WINDOW_MS
  {
    var k := OwnerHasAnnouncement(s, es);
  }

  /** Every re-announcement is issued within 2000 measured milliseconds of the latest accepted RDP
      announcement, which still owns the clipboard. */
  lemma ReannounceOnlyInsideWindow(s: State, es: seq<Event>, e: Event)
    requires !s.owner.RdpOwned? && e.PortalFormats? && DecisionAt(Run(s, es), e) == KlipperReannounce
    ensures exists k: nat :: OwnsSince(s, es, k) && ElapsedMillis(es[k].now, e.now) < ECHO_PROTECTION_WINDOW_MS
    ensures Run(s, es + [e]) == Run(s, es)
  {
    var k := OwnerHasAnnouncement(s, es);
    assert (es + [e])[..|es|] == es;
  }

  /** A decision other than Allow, and a rejected RDP announcement, change nothing at all: owner,
      timestamp and detector stay. Everything else that a handler does changes the state. */
  lemma OnlyAcceptedEventsChangeTheState(s: State, e: Event)
    requires e.RdpFormats? || e.PortalFormats?
    ensures Apply(s, e) == s <==> (if e.RdpFormats? then e.loops else DecisionAt(s, e) != Allow)
  {
  }

  // ---------------------------------------------------------------- exactly what is decided

  /** `text` has `part` somewhere in it. */
  ghost predicate Holds(text: string, part: string) {
    exists a, b :: text == a + part + b
  }

  lemma {:induction false} ContainsIffHolds(text: string, part: string)
    ensures Contains(text, part) <==> Holds(text, part)
  {
    if part <= text {
      assert text == "" + part + text[|part|..];
    } else if text != [] {
      ContainsIffHolds(text[1..], part);
      if Holds(text[1..], part) {
        var a, b :| text[1..] == a + part + b;
        assert text == ([text[0]] + a) + part + b;
      }
      if Holds(text, part) {
        var a, b :| text == a + part + b;
        assert a != [] by {
          assert a == [] ==> part <= text;
        }
        assert text[1..] == a[1..] + part + b;
      }
    }
  }

  /** Some announced type carries one of Klipper's marks. */
  ghost predicate FromKlipper(mimeTypes: seq<string>) {
    exists m :: m in mimeTypes
      && (Holds(m, "application/x-kde-onlyReplaceEmpty") || Holds(m, "application/x-kde-cutselection"))
  }

  lemma SignatureIffFromKlipper(mimeTypes: seq<string>)
    ensures HasKlipperSignature(mimeTypes) <==> FromKlipper(mimeTypes)
  {
    forall m | m in mimeTypes
      ensures (exists s :: s in KlipperSignatures() && Contains(m, s))
         <==> Holds(m, "application/x-kde-onlyReplaceEmpty") || Holds(m, "application/x-kde-cutselection")
    {
      ContainsIffHolds(m, "application/x-kde-onlyReplaceEmpty");
      ContainsIffHolds(m, "application/x-kde-cutselection");
      assert KlipperSignatures()[0] in KlipperSignatures() && KlipperSignatures()[1] in KlipperSignatures();
    }
  }

  /** On every run, while the announcement at `k` owns the clipboard: a portal announcement is answered with a
      re-announcement if and only if it is forced, comes within two seconds by the clock, and is Klipper's or
      an empty one with Klipper present; it is allowed if and only if it is forced and comes later. */
  lemma DecisionWhileOwned(s: State, es: seq<Event>, e: Event, k: nat)
    requires OwnsSince(s, es, k) && e.PortalFormats?
    ensures DecisionAt(Run(s, es), e) == KlipperReannounce
       <==> e.force && e.now - es[k].now < 2_000_000_000
            && (FromKlipper(e.mimeTypes) || (e.mimeTypes == [] && Run(s, es).klipperPresent))
    ensures DecisionAt(Run(s, es), e) == Allow <==> e.force && e.now - es[k].now >= 2_000_000_000
  {
    OwnerIsAnnouncement(s, es, k);
    SignatureIffFromKlipper(e.mimeTypes);
  }

  /** While RDP does not own the clipboard, a portal announcement is allowed if and only if it is forced or
      causes no loop, and blocked otherwise. */
  lemma DecisionWhileNotOwned(s: State, e: Event)
    requires e.PortalFormats? && !s.owner.RdpOwned?
    ensures DecisionAt(s, e) == (if e.force || !e.loops then Allow else Block)
  {
  }

  /** Klipper is present if the latest report says so. */
  lemma {:induction false} KlipperPresenceIsLatest(s: State, es: seq<Event>, k: nat)
    requires k < |es| && es[k].SetKlipperPresent? && forall j :: k < j < |es| ==> !es[j].SetKlipperPresent?
    ensures Run(s, es).klipperPresent == es[k].present
    decreases |es|
  {
    if k < |es| - 1 {
      KlipperPresenceIsLatest(s, es[..|es| - 1], k);
    }
  }

  // ---------------------------------------------------------------- what the loop detector is told

  /** What was last recorded in the detector. */
  function LatestRecord(log: seq<DetectorCall>): Option<DetectorCall> {
    if log == [] then None
    else if log[|log| - 1].RecordFormats? || log[|log| - 1].RecordMimeTypes? then Some(log[|log| - 1])
    else LatestRecord(log[..|log| - 1])
  }

  /** The owner's formats are what the detector was last told. */
  predicate OwnerRecorded(s: State) {
    match s.owner
    case RdpOwned(formats, _) => LatestRecord(s.detector) == Some(RecordFormats(formats))
    case PortalOwned(mimeTypes) => LatestRecord(s.detector) == Some(RecordMimeTypes(mimeTypes))
    case _ => true
  }

  lemma RecordGrows(log: seq<DetectorCall>, c: DetectorCall, d: DetectorCall)
    ensures LatestRecord(log + [c]) == if c.RecordFormats? || c.RecordMimeTypes? then Some(c) else LatestRecord(log)
    ensures log + [c, d] == log + [c] + [d]
  {
    assert (log + [c])[..|log|] == log;
  }

  lemma OwnerRecordedStep(s: State, e: Event)
    requires OwnerRecorded(s)
    ensures OwnerRecorded(Apply(s, e))
  {
    match e
    case RdpFormats(formats, _, _) =>
      RecordGrows(s.detector, RecordFormats(formats), RecordSync(true));
      RecordGrows(s.detector + [RecordFormats(formats)], RecordSync(true), RecordSync(true));
    case PortalFormats(mimeTypes, _, _, _) =>
      RecordGrows(s.detector, RecordMimeTypes(mimeTypes), RecordSync(false));
      RecordGrows(s.detector + [RecordMimeTypes(mimeTypes)], RecordSync(false), RecordSync(false));
    case SetRdpFormats(formats, _) => RecordGrows(s.detector, RecordFormats(formats), ClearDetector);
    case SetPortalFormats(mimeTypes) => RecordGrows(s.detector, RecordMimeTypes(mimeTypes), ClearDetector);
    case ResetDetector => RecordGrows(s.detector, ClearDetector, ClearDetector);
    case _ =>
  }

  /** On every run the formats of the owner are what the detector was last told. */
  lemma {:induction false} OwnerIsRecorded(s: State, es: seq<Event>)
    requires OwnerRecorded(s)
    ensures OwnerRecorded(Run(s, es))
  {
    if es != [] {
      OwnerIsRecorded(s, es[..|es| - 1]);
      OwnerRecordedStep(Run(s, es[..|es| - 1]), es[|es| - 1]);
    }
  }

  /** The syncs recorded from the remote or from the local side. */
  function Syncs(log: seq<DetectorCall>, remote: bool): nat {
    if log == [] then 0 else Syncs(log[..|log| - 1], remote) + (if log[|log| - 1] == RecordSync(remote) then 1 else 0)
  }

  lemma SyncsGrow(log: seq<DetectorCall>, c: DetectorCall, remote: bool)
    ensures Syncs(log + [c], remote) == Syncs(log, remote) + (if c == RecordSync(remote) then 1 else 0)
  {
    assert (log + [c])[..|log|] == log;
  }

  /** The handler accepts the event in this state. */
  predicate Accepts(s: State, e: Event, remote: bool) {
    if remote then e.RdpFormats? && !e.loops else e.PortalFormats? && DecisionAt(s, e) == Allow
  }

  function Accepted(s: State, es: seq<Event>, remote: bool): nat {
    if es == [] then 0
    else
      var n := |es| - 1;
      Accepted(s, es[..n], remote) + (if Accepts(Run(s, es[..n]), es[n], remote) then 1 else 0)
  }

  lemma SyncsOfStep(s: State, e: Event, remote: bool)
    ensures Syncs(Apply(s, e).detector, remote) == Syncs(s.detector, remote) + (if Accepts(s, e, remote) then 1 else 0)
  {
    match e
    case RdpFormats(formats, _, _) =>
      SyncsGrow(s.detector, RecordFormats(formats), remote);
      SyncsGrow(s.detector + [RecordFormats(formats)], RecordSync(true), remote);
      RecordGrows(s.detector, RecordFormats(formats), RecordSync(true));
    case PortalFormats(mimeTypes, _, _, _) =>
      SyncsGrow(s.detector, RecordMimeTypes(mimeTypes), remote);
      SyncsGrow(s.detector + [RecordMimeTypes(mimeTypes)], RecordSync(false), remote);
      RecordGrows(s.detector, RecordMimeTypes(mimeTypes), RecordSync(false));
    case SetRdpFormats(formats, _) => SyncsGrow(s.detector, RecordFormats(formats), remote);
    case SetPortalFormats(mimeTypes) => SyncsGrow(s.detector, RecordMimeTypes(mimeTypes), remote);
    case ResetDetector => SyncsGrow(s.detector, ClearDetector, remote);
    case _ =>
  }

  /** On every run one remote sync is recorded for each accepted RDP announcement, and one local sync for each
      portal announcement that is allowed. */
  lemma {:induction false} SyncsAreAcceptances(s: State, es: seq<Event>, remote: bool)
    ensures Syncs(Run(s, es).detector, remote) == Syncs(s.detector, remote) + Accepted(s, es, remote)
  {
    if es != [] {
      var n := |es| - 1;
      SyncsAreAcceptances(s, es[..n], remote);
      SyncsOfStep(Run(s, es[..n]), es[n], remote);
    }
  }
}
