/** The forced-keyframe step of the AVC420 encoder (src/egfx/encoder.rs:465-575, 640-643). */
module Avc420 {
  import opened Common
  import opened IdrTimer
  import opened Avc444

  datatype Frame420 = InvalidSize | TooSmall | EncodeFailed | NoFrame | Frame420(data: Bytes, keyframe: bool)

  class Avc420Encoder {
    var frameCount: nat
    var lastIdrTime: Instant
    var periodicIdrIntervalSecs: nat
    var forceNextIdr: bool
    var calls: seq<EncoderCall>

    function Timer420(): Timer
      reads this
    {
      Timer(forceNextIdr, lastIdrTime, periodicIdrIntervalSecs)
    }

    constructor (now: Instant)
      ensures Timer420() == Timer(false, now, 0) && frameCount == 0 && calls == []
    {
      frameCount, lastIdrTime, periodicIdrIntervalSecs, forceNextIdr, calls := 0, now, 0, false, [];
    }

    method ConfigurePeriodicIdr(intervalSecs: nat, now: Instant)
      modifies this`periodicIdrIntervalSecs, this`lastIdrTime
      ensures Timer420() == TimerAfter(old(Timer420()), Event420.ConfigurePeriodicIdr(intervalSecs, now))
    {
      periodicIdrIntervalSecs := intervalSecs;
      lastIdrTime := now;
    }

    method ForceKeyframe()
      modifies this`forceNextIdr
      ensures Timer420() == TimerAfter(old(Timer420()), Event420.ForceKeyframe)
    {
      forceNextIdr := true;
    }

    method IsPeriodicIdrDue(now: Instant) returns (due: bool)
      ensures due == Timer420().Due(now)
    {
      due := forceNextIdr
             || (periodicIdrIntervalSecs > 0
                 && SaturatingSub(now, lastIdrTime) >= periodicIdrIntervalSecs * NANOS_PER_SECOND);
    }

    /** `encode_bgra`: on a validated frame the timer makes the step that the AVC444 encoder's makes, and
        a keyframe that is due is forced before the picture is encoded. */
    method EncodeBgra(p: Picture) returns (r: Frame420)
      modifies this
      ensures Timer420() == TimerAfter(old(Timer420()), Event420.Encode(p))
      ensures calls == old(calls)
                       + (if p.Validated() && old(Timer420()).Due(p.now) then [ForceIntra] else [])
                       + (if p.Validated() then [EncoderCall.Encode(Main, p.main)] else [])
      ensures r.InvalidSize? <==> !p.DimensionsOk()
      ensures r.TooSmall? <==> p.DimensionsOk() && !p.LargeEnough()
      ensures r.EncodeFailed? <==> p.Validated() && p.main.Failed?
      ensures p.Validated() && p.main.Encoded? ==>
                r == if p.main.data == [] then NoFrame else Frame420(p.main.data, p.main.keyframe)
      ensures frameCount == old(frameCount) + (if r.Frame420? then 1 else 0)
    {
      if !p.DimensionsOk() {
        return InvalidSize;
      }
      if !p.LargeEnough() {
        return TooSmall;
      }
      var due := IsPeriodicIdrDue(p.now);
      if due {
        forceNextIdr := false;
        lastIdrTime := p.now;
        calls := calls + [ForceIntra];
      }
      calls := calls + [EncoderCall.Encode(Main, p.main)];
      if p.main.Failed? {
        return EncodeFailed;
      }
      if p.main.data == [] {
        return NoFrame;
      }
      frameCount := frameCount + 1;
      return Frame420(p.main.data, p.main.keyframe);
    }
  }

  // ---------------------------------------------------------------- whole runs

  /** A call on the encoder. */
  datatype Event420 = Encode(p: Picture) | ForceKeyframe | ConfigurePeriodicIdr(secs: nat, now: Instant)

  /** The timer after a call, as the contracts of the encoder's methods state it. */
  function TimerAfter(t: Timer, e: Event420): Timer {
    match e
    case Encode(p) => if p.Validated() then t.AfterFrame(p.now) else t
    case ForceKeyframe => t.Request()
    case ConfigurePeriodicIdr(secs, now) => t.Configure(secs, now)
  }

  function Run420(t: Timer, es: seq<Event420>): Timer {
    if es == [] then t else TimerAfter(Run420(t, es[..|es| - 1]), es[|es| - 1])
  }

  /** Event `k` of the run forces a keyframe. */
  predicate ForcedEvent420(t: Timer, es: seq<Event420>, k: nat) {
    k < |es| && es[k].Encode? && es[k].p.Validated() && Run420(t, es[..k]).Due(es[k].p.now)
  }

  function Ticks420(es: seq<Event420>): (ticks: seq<Tick>)
    ensures |ticks| == |es|
  {
    seq(|es|, i requires 0 <= i < |es| =>
      match es[i]
      case Encode(p) => if p.Validated() then Tick.Frame(p.now) else Untouched
      case ForceKeyframe => Tick.Request
      case ConfigurePeriodicIdr(secs, now) => Tick.Configure(secs, now))
  }

  /** The AVC420 encoder's timer runs as the shared timer does. */
  lemma {:induction false} Timer420FollowsTicks(t: Timer, es: seq<Event420>)
    ensures Run420(t, es) == RunTimer(t, Ticks420(es))
  {
    if es != [] {
      Timer420FollowsTicks(t, es[..|es| - 1]);
      assert Ticks420(es)[..|es| - 1] == Ticks420(es[..|es| - 1]);
    }
  }

  lemma {:induction false} ForcedEvent420IsForcedTick(t: Timer, es: seq<Event420>, k: nat)
    ensures ForcedEvent420(t, es, k) <==> ForcedAt(t, Ticks420(es), k)
  {
    if k < |es| {
      Timer420FollowsTicks(t, es[..k]);
      assert Ticks420(es)[..k] == Ticks420(es[..k]);
    }
  }

  /** Events `i` and `j` are consecutive forced frames, with no configuration between them. */
  predicate Consecutive420(t: Timer, es: seq<Event420>, i: nat, j: nat) {
    && i < j && ForcedEvent420(t, es, i) && ForcedEvent420(t, es, j)
    && forall k :: i < k < j ==> !ForcedEvent420(t, es, k) && !es[k].ConfigurePeriodicIdr?
  }

  lemma ConsecutiveTicks420(t: Timer, es: seq<Event420>, i: nat, j: nat)
    requires Consecutive420(t, es, i, j)
    ensures ConsecutiveForced(t, Ticks420(es), i, j)
  {
    forall k | i <= k <= j
      ensures ForcedEvent420(t, es, k) <==> ForcedAt(t, Ticks420(es), k)
    {
      ForcedEvent420IsForcedTick(t, es, k);
    }
  }

  /** The interval in force at event `i`, in nanoseconds. */
  function Interval420(t: Timer, es: seq<Event420>, i: nat): nat
    requires i <= |es|
  {
    IntervalAt(t, Ticks420(es)[..i]) * 1_000_000_000
  }

  /** Without a request between them, consecutive forced frames are at least the interval apart. */
  lemma Encoder420ForcesAreApart(t: Timer, es: seq<Event420>, i: nat, j: nat)
    requires Consecutive420(t, es, i, j) && forall k :: i < k < j ==> !es[k].ForceKeyframe?
    ensures Interval420(t, es, i) > 0 && es[j].p.now >= es[i].p.now + Interval420(t, es, i)
  {
    ConsecutiveTicks420(t, es, i, j);
    ForcedFramesAreApart(t, Ticks420(es), i, j);
  }

  /** If validated frames arrive at most `gap` apart, consecutive forced frames are less than the interval
      plus `gap` apart. */
  lemma Encoder420ForcesAreClose(t: Timer, es: seq<Event420>, i: nat, j: nat, gap: nat)
    requires Consecutive420(t, es, i, j) && FramesWithin(Ticks420(es), i, gap) && Interval420(t, es, i) > 0
    ensures es[j].p.now < es[i].p.now + Interval420(t, es, i) + gap
  {
    ConsecutiveTicks420(t, es, i, j);
    ForcedFramesAreClose(t, Ticks420(es), i, j, gap);
  }

  /** A validated frame that arrives a full interval after a forced keyframe finds another one forced or the
      timer configured since, or is forced itself. */
  lemma Encoder420KeepsForcing(t: Timer, es: seq<Event420>, i: nat, j: nat) returns (k: nat)
    requires ForcedEvent420(t, es, i) && i < j < |es| && es[j].Encode? && es[j].p.Validated()
    requires Interval420(t, es, i) > 0 && es[j].p.now >= es[i].p.now + Interval420(t, es, i)
    ensures i < k <= j && (ForcedEvent420(t, es, k) || es[k].ConfigurePeriodicIdr?)
  {
    ForcedEvent420IsForcedTick(t, es, i);
    KeyframesKeepComing(t, Ticks420(es), i, j);
    k :| i < k <= j && Restarts(t, Ticks420(es), k);
    ForcedEvent420IsForcedTick(t, es, k);
  }
}
