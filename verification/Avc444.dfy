/**
 The AVC444 encoder's schedule (src/egfx/avc444_encoder.rs:400-556, 559-850, 942-1009): when keyframes
 are forced and when the auxiliary stream is encoded. One H.264 encoder produces both streams, as
 section 3.3.8.3.2 of MS-RDPEGFX demands; what it returns is an input of the model.
 */
module Avc444 {
  import opened Common
  import opened IdrTimer

  type Bytes = seq<byte>

  datatype Stream = Main | Aux

  /** What the H.264 encoder returns for one picture; no bytes means that it skipped the picture. */
  datatype Outcome = Failed | Encoded(data: Bytes, keyframe: bool)

  /** The calls made on the H.264 encoder. */
  datatype EncoderCall = ForceIntra | Encode(stream: Stream, outcome: Outcome)

  /** One call of `encode_bgra`, with the clock reading, the hash of the auxiliary view and what the
      H.264 encoder answers if asked. */
  datatype Picture = Picture(width: nat, height: nat, length: nat, now: Instant, hash: nat, main: Outcome, aux: Outcome) {

    predicate DimensionsOk() {
      width > 0 && height > 0 && width % 2 == 0 && height % 2 == 0
    }

    /** The size check computes `height` rows of `4 * width` bytes in 32 bits. */
    predicate LargeEnough() {
      length >= Flat(0, height, 4 * width) % U32_LIMIT
    }

    predicate Validated() {
      DimensionsOk() && LargeEnough()
    }
  }

  datatype Result =
    | InvalidDimensions
    | BufferTooSmall
    | MainFailed
    | AuxFailed
    | Skipped
    | Delivered(main: Bytes, aux: Option<Bytes>, keyframe: bool)

  const MIN_AUX_INTERVAL := 10

  datatype State = State(omission: bool, maxInterval: nat, idrOnReturn: bool, allKeyframes: bool, lastHash: Option<nat>,
                         sinceAux: nat, forceAux: bool, timer: Timer, frames: nat, bytes: nat) {

    /** After the forced-keyframe check of a validated frame. */
    function AfterIdrCheck(now: Instant): State {
      this.(timer := timer.AfterFrame(now), forceAux := forceAux || timer.Due(now))
    }

    /** Whether the auxiliary stream is sent with a picture whose auxiliary view hashes to `hash`. */
    predicate SendsAux(hash: nat) {
      || forceAux
      || !omission
      || lastHash.None?
      || sinceAux >= maxInterval
      || (sinceAux >= MIN_AUX_INTERVAL && lastHash != Some(hash))
    }

    /** After the auxiliary decision, given the bytes that were produced for the auxiliary stream. */
    function AfterAux(hash: nat, aux: Option<Bytes>): State {
      if aux.Some? then this.(forceAux := false, lastHash := Some(hash), sinceAux := 0)
      else this.(forceAux := false, sinceAux := sinceAux + 1)
    }
  }

  function InitialState(now: Instant): State {
    State(false, 30, false, false, None, 0, false, Timer(false, now, 5), 0, 0)
  }

  /** The auxiliary bytes of a picture: none if it is not sent or the encoder skips it. */
  function AuxBytes(s: State, p: Picture): Option<Bytes> {
    if s.SendsAux(p.hash) && p.aux.Encoded? && p.aux.data != [] then Some(p.aux.data) else None
  }

  function Size(aux: Option<Bytes>): nat {
    if aux.Some? then |aux.value| else 0
  }

  function Step(s: State, p: Picture): (State, Result) {
    if !p.DimensionsOk() then (s, InvalidDimensions)
    else if !p.LargeEnough() then (s, BufferTooSmall)
    else
      var s1 := s.AfterIdrCheck(p.now);
      if p.main.Failed? then (s1, MainFailed)
      else if s1.SendsAux(p.hash) && p.aux.Failed? then (s1.(forceAux := false), AuxFailed)
      else
        var aux := AuxBytes(s1, p);
        var s2 := s1.AfterAux(p.hash, aux);
        if p.main.data == [] then (s2, Skipped)
        else (s2.(frames := s2.frames + 1, bytes := s2.bytes + |p.main.data| + Size(aux)),
              Delivered(p.main.data, aux, p.main.keyframe))
  }

  /** The calls for the main stream of a validated picture. */
  function MainCalls(s: State, p: Picture): seq<EncoderCall> {
    (if s.timer.Due(p.now) then [ForceIntra] else []) + (if s.allKeyframes then [ForceIntra] else [])
    + [Encode(Main, p.main)]
  }

  /** The calls for the auxiliary stream, after the main stream was encoded. */
  function AuxCalls(s: State, p: Picture): seq<EncoderCall>
    requires p.main.Encoded?
  {
    if !s.SendsAux(p.hash) then []
    else if p.main.keyframe || (s.idrOnReturn && s.sinceAux > 0) then [ForceIntra, Encode(Aux, p.aux)]
    else [Encode(Aux, p.aux)]
  }

  /** The calls on the H.264 encoder for one picture, in order. */
  function Calls(s: State, p: Picture): seq<EncoderCall> {
    if !p.Validated() then []
    else if p.main.Failed? then MainCalls(s, p)
    else MainCalls(s, p) + AuxCalls(s.AfterIdrCheck(p.now), p)
  }

  class Avc444Encoder {
    var lastAuxHash: Option<nat>
    var framesSinceAux: nat
    var maxAuxInterval: nat
    var forceAuxIdrOnReturn: bool
    var enableAuxOmission: bool
    var forceAllKeyframes: bool
    var lastIdrTime: Instant
    var periodicIdrIntervalSecs: nat
    var forceNextIdr: bool
    var forceAuxOnNextFrame: bool
    var frameCount: nat
    var bytesEncoded: nat
    /** The calls made on the H.264 encoder so far. */
    var calls: seq<EncoderCall>

    function Abs(): State
      reads this
    {
      State(enableAuxOmission, maxAuxInterval, forceAuxIdrOnReturn, forceAllKeyframes, lastAuxHash, framesSinceAux,
            forceAuxOnNextFrame, Timer(forceNextIdr, lastIdrTime, periodicIdrIntervalSecs), frameCount, bytesEncoded)
    }

    constructor (now: Instant)
      ensures Abs() == InitialState(now) && calls == []
    {
      lastAuxHash, framesSinceAux, maxAuxInterval := None, 0, 30;
      forceAuxIdrOnReturn, enableAuxOmission, forceAllKeyframes := false, false, false;
      lastIdrTime, periodicIdrIntervalSecs, forceNextIdr, forceAuxOnNextFrame := now, 5, false, false;
      frameCount, bytesEncoded, calls := 0, 0, [];
    }

    method ConfigureAuxOmission(enable: bool, maxInterval: nat, forceIdrOnReturn: bool)
      modifies this
      ensures Abs() == old(Abs()).(omission := enable, maxInterval := Clamp(maxInterval, 1, 120),
                                   idrOnReturn := forceIdrOnReturn)
      ensures calls == old(calls)
    {
      enableAuxOmission := enable;
      maxAuxInterval := Clamp(maxInterval, 1, 120);
      forceAuxIdrOnReturn := forceIdrOnReturn;
    }

    method SetAuxMaxInterval(maxInterval: nat) returns (prev: nat)
      modifies this
      ensures prev == old(maxAuxInterval)
      ensures Abs() == old(Abs()).(maxInterval := Clamp(maxInterval, 1, 120)) && calls == old(calls)
    {
      prev := maxAuxInterval;
      maxAuxInterval := Clamp(maxInterval, 1, 120);
    }

    method ConfigurePeriodicIdr(intervalSecs: nat, now: Instant)
      modifies this
      ensures Abs() == old(Abs()).(timer := old(Abs()).timer.Configure(intervalSecs, now)) && calls == old(calls)
    {
      periodicIdrIntervalSecs := intervalSecs;
      lastIdrTime := now;
    }

    method RequestIdr()
      modifies this
      ensures Abs() == old(Abs()).(timer := old(Abs()).timer.Request()) && calls == old(calls)
    {
      forceNextIdr := true;
    }

    /** `is_periodic_idr_due`: the check that consumes nothing. */
    method IsPeriodicIdrDue(now: Instant) returns (due: bool)
      ensures due == Abs().timer.Due(now)
    {
      if forceNextIdr {
        return true;
      }
      if periodicIdrIntervalSecs > 0 {
        var elapsed := SaturatingSub(now, lastIdrTime);
        return elapsed >= periodicIdrIntervalSecs * NANOS_PER_SECOND;
      }
      return false;
    }

    /** `should_force_idr`: the check that consumes the request and restarts the timer. */
    method ShouldForceIdr(now: Instant) returns (force: bool)
      modifies this
      ensures force == old(Abs()).timer.Due(now)
      ensures Abs() == old(Abs()).AfterIdrCheck(now) && calls == old(calls)
    {
      if forceNextIdr {
        forceNextIdr := false;
        forceAuxOnNextFrame := true;
        lastIdrTime := now;
        return true;
      }
      if periodicIdrIntervalSecs > 0 {
        var elapsed := SaturatingSub(now, lastIdrTime);
        if elapsed >= periodicIdrIntervalSecs * NANOS_PER_SECOND {
          lastIdrTime := now;
          forceAuxOnNextFrame := true;
          return true;
        }
      }
      return false;
    }

    method ShouldSendAux(hash: nat) returns (send: bool)
      modifies this
      ensures send == old(Abs()).SendsAux(hash)
      ensures Abs() == old(Abs()).(forceAux := false) && calls == old(calls)
    {
      if forceAuxOnNextFrame {
        forceAuxOnNextFrame := false;
        return true;
      }
      if !enableAuxOmission {
        return true;
      }
      if lastAuxHash.None? {
        return true;
      }
      if framesSinceAux >= maxAuxInterval {
        return true;
      }
      if framesSinceAux < MIN_AUX_INTERVAL {
        return false;
      }
      return hash != lastAuxHash.value;
    }

    /** The forced-keyframe checks and the main stream. */
    method EncodeMain(p: Picture)
      modifies this
      ensures Abs() == old(Abs()).AfterIdrCheck(p.now)
      ensures calls == old(calls) + MainCalls(old(Abs()), p)
    {
      var force := ShouldForceIdr(p.now);
      if force {
        calls := calls + [ForceIntra];
      }
      if forceAllKeyframes {
        calls := calls + [ForceIntra];
      }
      calls := calls + [Encode(Main, p.main)];
    }

    /** The auxiliary decision and, if it is taken, the auxiliary stream. */
    method EncodeAux(p: Picture) returns (failed: bool, aux: Option<Bytes>)
      requires p.main.Encoded?
      modifies this
      ensures failed == (old(Abs()).SendsAux(p.hash) && p.aux.Failed?)
      ensures failed ==> Abs() == old(Abs()).(forceAux := false)
      ensures !failed ==> aux == AuxBytes(old(Abs()), p) && Abs() == old(Abs()).AfterAux(p.hash, aux)
      ensures calls == old(calls) + AuxCalls(old(Abs()), p)
    {
      failed, aux := false, None;
      var send := ShouldSendAux(p.hash);
      if send {
        if p.main.keyframe {
          calls := calls + [ForceIntra];
        } else if forceAuxIdrOnReturn && framesSinceAux > 0 {
          calls := calls + [ForceIntra];
        }
        calls := calls + [Encode(Aux, p.aux)];
        if p.aux.Failed? {
          return true, None;
        }
        if p.aux.data == [] {
          framesSinceAux := framesSinceAux + 1;
        } else {
          lastAuxHash := Some(p.hash);
          framesSinceAux := 0;
          aux := Some(p.aux.data);
        }
      } else {
        framesSinceAux := framesSinceAux + 1;
      }
    }

    /** `encode_bgra`. A validated buffer must have the exact size of the frame: the colour conversion
        asserts it. */
    method EncodeBgra(p: Picture) returns (r: Result)
      requires p.Validated() ==> p.length == Flat(0, p.height, 4 * p.width)
      modifies this
      ensures (Abs(), r) == Step(old(Abs()), p)
      ensures calls == old(calls) + Calls(old(Abs()), p)
    {
      if !p.DimensionsOk() {
        return InvalidDimensions;
      }
      if !p.LargeEnough() {
        return BufferTooSmall;
      }
      EncodeMain(p);
      if p.main.Failed? {
        return MainFailed;
      }
      var failed, aux := EncodeAux(p);
      if failed {
        return AuxFailed;
      }
      if p.main.data == [] {
        return Skipped;
      }
      frameCount := frameCount + 1;
      bytesEncoded := bytesEncoded + |p.main.data| + Size(aux);
      return Delivered(p.main.data, aux, p.main.keyframe);
    }
  }
}
