/**
 Forced keyframes: the request flag and the periodic timer that both encoders carry
 (src/egfx/avc444_encoder.rs:477-556, src/egfx/encoder.rs:465-509, 640-643).
 */
module IdrTimer {
  import opened Common

  const NANOS_PER_SECOND := 1_000_000_000

  /** Clock readings in nanoseconds. */
  type Instant = nat

  datatype Timer = Timer(requested: bool, last: Instant, intervalSecs: nat) {

    function Interval(): nat {
      intervalSecs * NANOS_PER_SECOND
    }

    /** `Instant::elapsed`, which saturates at zero. */
    function Elapsed(now: Instant): nat {
      SaturatingSub(now, last)
    }

    /** A keyframe is forced on a frame that arrives now. */
    predicate Due(now: Instant) {
      requested || (intervalSecs > 0 && Elapsed(now) >= Interval())
    }

    /** The timer after a validated frame. */
    function AfterFrame(now: Instant): Timer {
      if Due(now) then Timer(false, now, intervalSecs) else this
    }

    function Request(): Timer {
      this.(requested := true)
    }

    /** `configure_periodic_idr`. */
    function Configure(secs: nat, now: Instant): Timer {
      Timer(requested, now, secs)
    }
  }

  /** What happens to a timer: a validated frame, a request, a configuration, or something that does not
      touch it. */
  datatype Tick = Frame(now: Instant) | Request | Configure(secs: nat, now: Instant) | Untouched

  function After(t: Timer, tick: Tick): Timer {
    match tick
    case Frame(now) => t.AfterFrame(now)
    case Request => t.Request()
    case Configure(secs, now) => t.Configure(secs, now)
    case Untouched => t
  }

  function RunTimer(t: Timer, ticks: seq<Tick>): Timer {
    if ticks == [] then t else After(RunTimer(t, ticks[..|ticks| - 1]), ticks[|ticks| - 1])
  }

  /** Tick `k` is a frame on which a keyframe is forced. */
  predicate ForcedAt(t: Timer, ticks: seq<Tick>, k: nat) {
    k < |ticks| && ticks[k].Frame? && RunTimer(t, ticks[..k]).Due(ticks[k].now)
  }

  lemma RunTimerStep(t: Timer, ticks: seq<Tick>, k: nat)
    requires k < |ticks|
    ensures RunTimer(t, ticks[..k + 1]) == After(RunTimer(t, ticks[..k]), ticks[k])
  {
    assert ticks[..k + 1][..k] == ticks[..k];
  }

  // ---------------------------------------------------------------- what the timer knows

  /** The interval configured last, in seconds. */
  function IntervalAt(t: Timer, ticks: seq<Tick>): nat {
    if ticks == [] then t.intervalSecs
    else if ticks[|ticks| - 1].Configure? then ticks[|ticks| - 1].secs
    else IntervalAt(t, ticks[..|ticks| - 1])
  }

  lemma {:induction false} IntervalIsLatest(t: Timer, ticks: seq<Tick>)
    ensures RunTimer(t, ticks).intervalSecs == IntervalAt(t, ticks)
  {
    if ticks != [] {
      IntervalIsLatest(t, ticks[..|ticks| - 1]);
    }
  }

  lemma {:induction false} IntervalIsKept(t: Timer, ticks: seq<Tick>, i: nat, k: nat)
    requires i <= k <= |ticks| && forall j :: i <= j < k ==> !ticks[j].Configure?
    ensures IntervalAt(t, ticks[..k]) == IntervalAt(t, ticks[..i])
    decreases k
  {
    if i < k {
      assert ticks[..k][..k - 1] == ticks[..k - 1];
      IntervalIsKept(t, ticks, i, k - 1);
    }
  }

  /** A keyframe was requested and no frame has come since. */
  ghost predicate Pending(t: Timer, ticks: seq<Tick>, k: nat)
    requires k <= |ticks|
  {
    || (t.requested && forall i :: 0 <= i < k ==> !ticks[i].Frame?)
    || exists r :: 0 <= r < k && ticks[r].Request? && forall i :: r < i < k ==> !ticks[i].Frame?
  }

  lemma {:induction false} PendingIffRequested(t: Timer, ticks: seq<Tick>, k: nat)
    requires k <= |ticks|
    ensures RunTimer(t, ticks[..k]).requested <==> Pending(t, ticks, k)
    decreases k
  {
    if k > 0 {
      RunTimerStep(t, ticks, k - 1);
      PendingIffRequested(t, ticks, k - 1);
      if !ticks[k - 1].Frame? && Pending(t, ticks, k) && !ticks[k - 1].Request? {
        assert Pending(t, ticks, k - 1);
      }
    }
  }

  /** Tick `i` restarts the timer: a configuration or a forced keyframe. */
  predicate Restarts(t: Timer, ticks: seq<Tick>, i: nat) {
    i < |ticks| && (ticks[i].Configure? || ForcedAt(t, ticks, i))
  }

  /** The timer remembers when it was last restarted. */
  lemma {:induction false} RemembersRestart(t: Timer, ticks: seq<Tick>, i: nat, k: nat)
    requires Restarts(t, ticks, i) && i < k <= |ticks|
    requires forall j :: i < j < k ==> !Restarts(t, ticks, j)
    ensures RunTimer(t, ticks[..k]).last == ticks[i].now
    decreases k
  {
    RunTimerStep(t, ticks, k - 1);
    if k - 1 > i {
      RemembersRestart(t, ticks, i, k - 1);
      assert !Restarts(t, ticks, k - 1);
    }
  }

  lemma {:induction false} RemembersStart(t: Timer, ticks: seq<Tick>, k: nat)
    requires k <= |ticks| && forall j :: 0 <= j < k ==> !Restarts(t, ticks, j)
    ensures RunTimer(t, ticks[..k]).last == t.last
    decreases k
  {
    if k > 0 {
      RunTimerStep(t, ticks, k - 1);
      RemembersStart(t, ticks, k - 1);
      assert !Restarts(t, ticks, k - 1);
    }
  }

  // ---------------------------------------------------------------- exactly when a keyframe is forced

  /** A frame is forced if and only if a request is pending, or the timer is enabled and the configured
      number of seconds has passed since it was last restarted. */
  lemma ForcedIff(t: Timer, ticks: seq<Tick>, i: nat, k: nat)
    requires i < k < |ticks| && ticks[k].Frame? && Restarts(t, ticks, i)
    requires forall j :: i < j < k ==> !Restarts(t, ticks, j)
    ensures var secs := IntervalAt(t, ticks[..k]);
            ForcedAt(t, ticks, k)
            <==> Pending(t, ticks, k) || (secs > 0 && ticks[k].now >= ticks[i].now + secs * 1_000_000_000)
  {
    RemembersRestart(t, ticks, i, k);
    PendingIffRequested(t, ticks, k);
    IntervalIsLatest(t, ticks[..k]);
  }

  /** The same for a timer that was not restarted yet. */
  lemma FirstForcedIff(t: Timer, ticks: seq<Tick>, k: nat)
    requires k < |ticks| && ticks[k].Frame? && forall j :: 0 <= j < k ==> !Restarts(t, ticks, j)
    ensures ForcedAt(t, ticks, k)
       <==> Pending(t, ticks, k) || (t.intervalSecs > 0 && ticks[k].now >= t.last + t.intervalSecs * 1_000_000_000)
  {
    RemembersStart(t, ticks, k);
    PendingIffRequested(t, ticks, k);
    IntervalIsLatest(t, ticks[..k]);
    forall j | 0 <= j < k
      ensures !ticks[j].Configure?
    {
      assert !Restarts(t, ticks, j);
    }
    IntervalIsKept(t, ticks, 0, k);
  }

  /** A disabled timer forces nothing but what was requested. */
  lemma DisabledTimerForcesRequestsOnly(t: Timer, ticks: seq<Tick>, k: nat)
    requires k < |ticks| && ticks[k].Frame? && IntervalAt(t, ticks[..k]) == 0
    ensures ForcedAt(t, ticks, k) <==> Pending(t, ticks, k)
  {
    PendingIffRequested(t, ticks, k);
    IntervalIsLatest(t, ticks[..k]);
  }

  /** The frames `i` and `j` are forced, none between them is, and the timer is not configured between
      them. */
  predicate ConsecutiveForced(t: Timer, ticks: seq<Tick>, i: nat, j: nat) {
    && i < j && ForcedAt(t, ticks, i) && ForcedAt(t, ticks, j)
    && forall k :: i < k < j ==> !Restarts(t, ticks, k)
  }

  /** No keyframe is forced early: without a request between them, two consecutive forced keyframes are at
      least the interval apart. */
  lemma ForcedFramesAreApart(t: Timer, ticks: seq<Tick>, i: nat, j: nat)
    requires ConsecutiveForced(t, ticks, i, j) && forall k :: i < k < j ==> !ticks[k].Request?
    ensures IntervalAt(t, ticks[..i]) > 0
    ensures ticks[j].now >= ticks[i].now + IntervalAt(t, ticks[..i]) * 1_000_000_000
  {
    NoConfigurationBetween(t, ticks, i, j);
    ForcedIff(t, ticks, i, j);
    assert ticks[i].Frame?;
  }

  lemma NoConfigurationBetween(t: Timer, ticks: seq<Tick>, i: nat, k: nat)
    requires i < k <= |ticks| && ticks[i].Frame? && forall j :: i < j < k ==> !Restarts(t, ticks, j)
    ensures IntervalAt(t, ticks[..k]) == IntervalAt(t, ticks[..i])
  {
    forall j | i <= j < k
      ensures !ticks[j].Configure?
    {
      assert j > i ==> !Restarts(t, ticks, j);
    }
    IntervalIsKept(t, ticks, i, k);
  }

  /** No frame arrives later than `gap` after some earlier frame that follows tick `i` or is tick `i`. */
  predicate FramesWithin(ticks: seq<Tick>, i: nat, gap: nat) {
    forall j :: i < j < |ticks| && ticks[j].Frame? ==>
      exists p :: i <= p < j && ticks[p].Frame? && ticks[j].now <= ticks[p].now + gap
  }

  /** Two consecutive forced keyframes are less than the interval plus one frame gap apart, also if the
      clock readings do not increase. */
  lemma ForcedFramesAreClose(t: Timer, ticks: seq<Tick>, i: nat, j: nat, gap: nat)
    requires ConsecutiveForced(t, ticks, i, j) && FramesWithin(ticks, i, gap) && IntervalAt(t, ticks[..i]) > 0
    ensures ticks[j].now < ticks[i].now + IntervalAt(t, ticks[..i]) * 1_000_000_000 + gap
  {
    var p :| i <= p < j && ticks[p].Frame? && ticks[j].now <= ticks[p].now + gap;
    if p > i {
      NoConfigurationBetween(t, ticks, i, p);
      ForcedIff(t, ticks, i, p);
      assert !Restarts(t, ticks, p);
    }
  }

  /** Liveness: a frame that arrives a full interval after a forced keyframe finds another keyframe forced
      or the timer configured since, or forces one itself. */
  lemma KeyframesKeepComing(t: Timer, ticks: seq<Tick>, i: nat, j: nat)
    requires i < j < |ticks| && ForcedAt(t, ticks, i) && ticks[j].Frame? && IntervalAt(t, ticks[..i]) > 0
    requires ticks[j].now >= ticks[i].now + IntervalAt(t, ticks[..i]) * 1_000_000_000
    ensures exists k :: i < k <= j && Restarts(t, ticks, k)
  {
    if forall k :: i < k < j ==> !Restarts(t, ticks, k) {
      NoConfigurationBetween(t, ticks, i, j);
      ForcedIff(t, ticks, i, j);
      assert Restarts(t, ticks, j);
    }
  }

  /** A request is honoured by the next frame, whatever the clock says. */
  lemma RequestForcesNextFrame(t: Timer, ticks: seq<Tick>, r: nat, j: nat)
    requires r < j < |ticks| && ticks[r].Request? && ticks[j].Frame?
    requires forall k :: r < k < j ==> !ticks[k].Frame?
    ensures ForcedAt(t, ticks, j)
  {
    PendingIffRequested(t, ticks, j);
  }
}
