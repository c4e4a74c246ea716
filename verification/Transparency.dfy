/** Frames of unknown payload type cost one negative acknowledgement each and change nothing else. */
module Transparency {
  import opened Bytes
  import opened GenericHeader
  import opened DiagnosticMessages
  import opened RoutingActivation
  import opened Trace
  import opened ConnectionSpec
  import opened Frames
  import opened Runs
  import opened Closing

  function Known(fs: seq<Frame>): seq<Frame> {
    if fs == [] then []
    else (if Unknown(fs[0]) then [] else [fs[0]]) + Known(fs[1..])
  }

  function CountUnknown(fs: seq<Frame>): nat {
    if fs == [] then 0 else (if Unknown(fs[0]) then 1 else 0) + CountUnknown(fs[1..])
  }

  predicate IsUnknownNack(e: Event) {
    e == Sent(NackReply, NackWire(UNKNOWN_PAYLOAD_TYPE))
  }

  predicate IsVisible(e: Event) {
    !IsUnknownNack(e) && !e.TimerReset?
  }

  predicate SameFlags(s: TimerState, t: TimerState) {
    s.active == t.active && s.disabled == t.disabled && s.timeout == t.timeout
  }

  /** Two states that differ in acknowledgements of unknown frames and the times of timer restarts only. */
  predicate Similar(c: Core, d: Core) {
    && c.open == d.open && c.tls == d.tls && c.gateway == d.gateway
    && c.routed == d.routed && SameFlags(c.timer, d.timer)
    && Keep(IsVisible, c.trace) == Keep(IsVisible, d.trace)
    && Keep(IsCallback, c.trace) == Keep(IsCallback, d.trace)
  }

  /** The number of unknown-type acknowledgements grew by `n`. */
  predicate Nacks(t: seq<Event>, u: seq<Event>, n: nat) {
    |Keep(IsUnknownNack, u)| == |Keep(IsUnknownNack, t)| + n
  }

  lemma KeepsBoth(t: seq<Event>, e: Event)
    ensures Keep(IsVisible, t + [e]) == Keep(IsVisible, t) + if IsVisible(e) then [e] else []
    ensures Keep(IsCallback, t + [e]) == Keep(IsCallback, t) + if IsCallback(e) then [e] else []
    ensures Nacks(t, t + [e], if IsUnknownNack(e) then 1 else 0)
  {
    KeepSnoc(IsVisible, t, e);
    KeepSnoc(IsCallback, t, e);
    KeepSnoc(IsUnknownNack, t, e);
  }

  /** One more event, the same on both sides, keeps two states similar. */
  lemma SameEvent(c: Core, d: Core, e: Event)
    requires Similar(c, d)
    ensures Similar(Log(c, e), Log(d, e))
    ensures !IsUnknownNack(e) ==> Nacks(c.trace, Log(c, e).trace, 0) && Nacks(d.trace, Log(d, e).trace, 0)
  {
    KeepsBoth(c.trace, e);
    KeepsBoth(d.trace, e);
  }

  /** `c` and `d` become `x` and `y` without a further unknown-type acknowledgement. */
  predicate Moved(c: Core, d: Core, x: Core, y: Core) {
    Similar(x, y) && Nacks(c.trace, x.trace, 0) && Nacks(d.trace, y.trace, 0)
  }

  lemma SendSimilar(env: Env, c: Core, d: Core, kind: SendKind, wire: seq<byte>)
    requires Similar(c, d) && !IsUnknownNack(Sent(kind, wire))
    ensures Moved(c, d, Send(env, c, kind, wire), Send(env, d, kind, wire))
  {
    SameEvent(c, d, Sent(kind, wire));
  }

  lemma DoSimilar(env: Env, c: Core, d: Core, call: AppCall)
    requires Similar(c, d)
    ensures Moved(c, d, Do(env, c, call), Do(env, d, call))
  {
    if c.routed.None? {
      SameEvent(c, d, UnsetAddress);
    } else {
      match call {
        case SendAck(source, positive, code) =>
          SendSimilar(env, c, d, AckReply, AckWire(positive, source, c.routed.value, code));
        case SendPayload(source, data) =>
          SendSimilar(env, c, d, DiagnosticReply, MessageWire(source, c.routed.value, data));
      }
    }
  }

  lemma {:induction false} PerformSimilar(env: Env, c: Core, d: Core, calls: seq<AppCall>)
    requires Similar(c, d)
    ensures Moved(c, d, Perform(env, c, calls), Perform(env, d, calls))
    decreases |calls|
  {
    if calls != [] {
      DoSimilar(env, c, d, calls[0]);
      PerformSimilar(env, Do(env, c, calls[0]), Do(env, d, calls[0]), calls[1..]);
    }
  }

  lemma NotifySimilar(env: Env, c: Core, d: Core, target: uint16)
    requires Similar(c, d)
    ensures Moved(c, d, Notify(env, c, target), Notify(env, d, target))
  {
    SameEvent(c, d, Notified(target));
    PerformSimilar(env, Log(c, Notified(target)), Log(d, Notified(target)),
                   env.notify(Keep(IsCallback, c.trace), target).calls);
  }

  lemma PassSimilar(env: Env, c: Core, d: Core, payload: seq<byte>)
    requires Similar(c, d) && 5 <= |payload| < 0x1_0000_0000
    ensures Moved(c, d, Pass(env, c, payload), Pass(env, d, payload))
  {
    var length := ToInt32(|payload|);
    if length >= MINIMUM_LENGTH {
      if c.routed.None? {
        SameEvent(c, d, UnsetAddress);
      } else {
        var p := ParseMessage(c.routed.value, payload, length).delivery;
        if p.Some? {
          var e := Delivered(Addr(payload[0], payload[1]), p.value.target, p.value.data);
          SameEvent(c, d, e);
          PerformSimilar(env, Log(c, e), Log(d, e),
                         env.deliver(Keep(IsCallback, c.trace), p.value.target, p.value.data));
        }
      }
    }
  }

  lemma CloseSimilar(c: Core, d: Core)
    requires Similar(c, d)
    ensures Moved(c, d, CloseSocket(c, false), CloseSocket(d, false))
  {
    if c.open {
      SameEvent(c, d, CloseSocket(c, false).trace[|c.trace|]);
    }
  }

  lemma StartSimilar(env: Env, c: Core, d: Core)
    requires Similar(c, d)
    ensures Moved(c, d, StartTimer(env, c), StartTimer(env, d))
  {
    if !c.timer.disabled {
      SameEvent(c, d, TimerStarted);
    }
  }

  lemma ActivateSimilar(env: Env, c: Core, d: Core, payload: seq<byte>)
    requires Similar(c, d) && |payload| >= 3
    ensures Moved(c, d, Activate(env, c, payload).core, Activate(env, d, payload).core)
  {
    var client := Addr(payload[0], payload[1]);
    var wire := ResponseWire(c.gateway, client, ActivationCode(payload));
    SendSimilar(env, c, d, ActivationReply, wire);
    var c1, d1 := Send(env, c, ActivationReply, wire), Send(env, d, ActivationReply, wire);
    CloseSimilar(c1, d1);
    StartSimilar(env, c1.(routed := Some(client)), d1.(routed := Some(client)));
  }

  lemma NackSimilar(env: Env, c: Core, d: Core, code: byte)
    requires Similar(c, d) && code != UNKNOWN_PAYLOAD_TYPE
    ensures var x, y := Send(env, c, NackReply, NackWire(code)), Send(env, d, NackReply, NackWire(code));
            Moved(c, d, x, y) && Moved(c, d, CloseSocket(x, false), CloseSocket(y, false))
  {
    assert NackWire(code)[8] == code && NackWire(UNKNOWN_PAYLOAD_TYPE)[8] == UNKNOWN_PAYLOAD_TYPE;
    SendSimilar(env, c, d, NackReply, NackWire(code));
    CloseSimilar(Send(env, c, NackReply, NackWire(code)), Send(env, d, NackReply, NackWire(code)));
  }

  lemma DiagnoseSimilar(env: Env, c: Core, d: Core, payload: seq<byte>)
    requires Similar(c, d) && 5 <= |payload| < 0x1_0000_0000
    ensures Moved(c, d, Diagnose(env, c, payload), Diagnose(env, d, payload))
  {
    var target := Value16(payload[2], payload[3]);
    NotifySimilar(env, c, d, target);
    PassSimilar(env, Notify(env, c, target), Notify(env, d, target), payload);
  }

  lemma RejectSimilar(env: Env, c: Core, d: Core, a: Action, payload: seq<byte>)
    requires Similar(c, d) && Safe(a, payload) && a.typ.NegativeAck? && a.value != Some(UNKNOWN_PAYLOAD_TYPE)
    ensures Moved(c, d, React(env, c, a, payload).core, React(env, d, a, payload).core)
  {
    NackSimilar(env, c, d, a.value.value);
  }

  lemma UnhandledSimilar(env: Env, c: Core, d: Core, a: Action, payload: seq<byte>)
    requires Similar(c, d) && Safe(a, payload)
    requires !a.typ.NegativeAck? && !a.typ.RoutingActivationRequest? && !a.typ.DiagnosticMessage?
    ensures Moved(c, d, React(env, c, a, payload).core, React(env, d, a, payload).core)
  {
    SameEvent(c, d, Unhandled(a.typ));
  }

  /** Reactions to anything but an unknown type keep similar states similar. */
  lemma ReactSimilar(env: Env, c: Core, d: Core, a: Action, payload: seq<byte>)
    requires Similar(c, d) && Safe(a, payload)
    requires a.typ.NegativeAck? ==> a.value != Some(UNKNOWN_PAYLOAD_TYPE)
    ensures Moved(c, d, React(env, c, a, payload).core, React(env, d, a, payload).core)
  {
    if a.typ.NegativeAck? {
      RejectSimilar(env, c, d, a, payload);
    } else if a.typ.RoutingActivationRequest? {
      ActivateSimilar(env, c, d, payload);
    } else if a.typ.DiagnosticMessage? {
      DiagnoseSimilar(env, c, d, payload);
    } else {
      UnhandledSimilar(env, c, d, a, payload);
    }
  }

  lemma TouchSimilar(env: Env, c: Core)
    ensures Similar(Touch(env, c), c) && Nacks(c.trace, Touch(env, c).trace, 0)
  {
    KeepsBoth(c.trace, TimerReset);
  }

  lemma DispatchKnown(env: Env, c: Core, d: Core, f: Frame)
    requires Similar(c, d) && !Unknown(f)
    ensures Moved(c, d, Dispatch(env, c, f), Dispatch(env, d, f))
  {
    TouchSimilar(env, c);
    TouchSimilar(env, d);
    ParsedIsSafe(f.header, f.payload);
    ReactSimilar(env, Touch(env, c), Touch(env, d), Parse(f.header), f.payload);
  }

  lemma DispatchUnknown(env: Env, c: Core, f: Frame)
    requires Unknown(f)
    ensures Similar(Dispatch(env, c, f), c) && Nacks(c.trace, Dispatch(env, c, f).trace, 1)
  {
    TouchSimilar(env, c);
    KeepsBoth(Touch(env, c).trace, Sent(NackReply, NackWire(UNKNOWN_PAYLOAD_TYPE)));
  }

  /** The unknown frames that are reached before the close. */
  function Reached(fs: seq<Frame>): nat {
    CountUnknown(fs[..FirstRefused(fs)])
  }

  lemma ReachedStep(fs: seq<Frame>)
    requires fs != []
    ensures Reached(fs) == if Refused(fs[0]) then 0 else (if Unknown(fs[0]) then 1 else 0) + Reached(fs[1..])
  {
    var k := FirstRefused(fs);
    if k > 0 {
      assert fs[..k][0] == fs[0] && fs[..k][1..] == fs[1..][..k - 1];
    }
  }

  lemma KnownStep(env: Env, d: Core, fs: seq<Frame>)
    requires fs != [] && d.open
    ensures DispatchAll(env, d, Known(fs))
            == DispatchAll(env, if Unknown(fs[0]) then d else Dispatch(env, d, fs[0]), Known(fs[1..]))
  {
    if Unknown(fs[0]) {
      assert Known(fs) == Known(fs[1..]);
    } else {
      DispatchCons(env, d, fs[0], Known(fs[1..]));
    }
  }

  /** Without its unknown frames a sequence of frames leads to a similar state, and it loses
      exactly one acknowledgement for each unknown frame that was reached before the close. */
  lemma {:induction false} UnknownFramesAreTransparent(env: Env, c: Core, d: Core, fs: seq<Frame>)
    requires Similar(c, d) && c.open
    ensures var x, y := DispatchAll(env, c, fs), DispatchAll(env, d, Known(fs));
            && Similar(x, y)
            && Nacks(c.trace, x.trace, Reached(fs))
            && Nacks(d.trace, y.trace, 0)
    decreases |fs|
  {
    if fs != [] {
      var f := fs[0];
      var c1, d1 := Dispatch(env, c, f), if Unknown(f) then d else Dispatch(env, d, f);
      DispatchCloses(env, c, f);
      ReachedStep(fs);
      KnownStep(env, d, fs);
      if Unknown(f) {
        DispatchUnknown(env, c, f);
      } else {
        DispatchKnown(env, c, d, f);
      }
      if c1.open {
        UnknownFramesAreTransparent(env, c1, d1, fs[1..]);
      }
    }
  }

  // ---------- Whole runs ----------

  lemma FinishSimilar(c: Core, d: Core, why: Failure)
    requires Similar(c, d)
    ensures Moved(c, d, Finish(c, why), Finish(d, why))
  {
    if c.open {
      SameEvent(c, d, Finish(c, why).trace[|c.trace|]);
    }
  }

  function Unknowns(t: seq<Event>): nat {
    |Keep(IsUnknownNack, t)|
  }

  /** The same frame, of known or unknown type, costs two similar states the same. */
  lemma DispatchSimilar(env: Env, c: Core, d: Core, f: Frame)
    requires Similar(c, d)
    ensures var x, y := Dispatch(env, c, f), Dispatch(env, d, f);
            Similar(x, y) && Unknowns(x.trace) - Unknowns(c.trace) == Unknowns(y.trace) - Unknowns(d.trace)
  {
    if Unknown(f) {
      DispatchUnknown(env, c, f);
      DispatchUnknown(env, d, f);
    } else {
      DispatchKnown(env, c, d, f);
    }
  }

  lemma ConcludeSimilar(env: Env, c: Core, d: Core, why: Failure, tail: Option<Frame>)
    requires Similar(c, d)
    ensures var x, y := Conclude(env, c, why, tail), Conclude(env, d, why, tail);
            Similar(x, y) && Unknowns(x.trace) - Unknowns(c.trace) == Unknowns(y.trace) - Unknowns(d.trace)
  {
    FinishSimilar(c, d, why);
    if c.open && tail.Some? {
      DispatchSimilar(env, Finish(c, why), Finish(d, why), tail.value);
    }
  }

  /** The same for whole runs on any two inputs, cut and failing in any way: if they are taken for
      the same known frames, they have the same effect, and the acknowledgements of unknown types
      differ by the unknown frames that each reaches. */
  lemma UnknownFramesInRuns(env: Env, c: Core, one: seq<Read>, two: seq<Read>)
    requires c.open && !c.timer.timeout
    requires var s, t := Taken(env, c.tls, one), Taken(env, c.tls, two);
             Known(s.frames) == Known(t.frames) && s.ending == t.ending && s.tail == t.tail
    ensures var s, t := Taken(env, c.tls, one).frames, Taken(env, c.tls, two).frames;
            var x, y := Run(env, c, one).0, Run(env, c, two).0;
            Similar(x, y) && Unknowns(x.trace) + Reached(t) == Unknowns(y.trace) + Reached(s)
  {
    var s, t := Taken(env, c.tls, one), Taken(env, c.tls, two);
    RunIsMeaning(env, c, one);
    RunIsMeaning(env, c, two);
    UnknownFramesAreTransparent(env, c, c, s.frames);
    UnknownFramesAreTransparent(env, c, c, t.frames);
    ConcludeSimilar(env, DispatchAll(env, c, s.frames), DispatchAll(env, c, t.frames), s.ending, s.tail);
  }
}
