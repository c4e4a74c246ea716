/** When a connection closes, how, what it answers until then, and that nothing follows. */
module Closing {
  import opened Bytes
  import opened GenericHeader
  import opened DiagnosticMessages
  import opened RoutingActivation
  import opened Trace
  import opened ConnectionSpec
  import opened Frames
  import opened Runs
  import opened Safety

  // ---------- One frame ----------

  /** The one event by which the server answers a frame. */
  predicate IsAnswer(e: Event) {
    || (e.Sent? && (e.kind == NackReply || e.kind == ActivationReply))
    || e.Notified?
    || e.Unhandled?
  }

  predicate EndsWith(t: seq<Event>, e: Event) {
    t != [] && t[|t| - 1] == e
  }

  /** The close the server decides on by itself. */
  function OwnClose(c: Core): Event {
    Closed(if c.tls then ShutdownClose else PlainClose)
  }

  /** How `t` grew into `u`: by exactly `n` answers. */
  predicate Answers(t: seq<Event>, u: seq<Event>, n: nat) {
    t <= u && |Keep(IsAnswer, u)| == |Keep(IsAnswer, t)| + n
  }

  lemma AnswersLog(t: seq<Event>, e: Event)
    ensures Answers(t, t + [e], if IsAnswer(e) then 1 else 0)
  {
    KeepSnoc(IsAnswer, t, e);
  }

  lemma DoAnswers(env: Env, c: Core, call: AppCall)
    ensures Answers(c.trace, Do(env, c, call).trace, 0)
  {
    if c.routed.None? {
      AnswersLog(c.trace, UnsetAddress);
    } else {
      match call {
        case SendAck(source, positive, code) =>
          AnswersLog(c.trace, Sent(AckReply, AckWire(positive, source, c.routed.value, code)));
        case SendPayload(source, data) =>
          AnswersLog(c.trace, Sent(DiagnosticReply, MessageWire(source, c.routed.value, data)));
      }
    }
  }

  lemma {:induction false} PerformAnswers(env: Env, c: Core, calls: seq<AppCall>)
    ensures Answers(c.trace, Perform(env, c, calls).trace, 0)
    decreases |calls|
  {
    if calls != [] {
      DoAnswers(env, c, calls[0]);
      PerformAnswers(env, Do(env, c, calls[0]), calls[1..]);
    }
  }

  lemma PassAnswers(env: Env, c: Core, payload: seq<byte>)
    requires 5 <= |payload| < 0x1_0000_0000
    ensures Answers(c.trace, Pass(env, c, payload).trace, 0)
  {
    var length := ToInt32(|payload|);
    if length >= MINIMUM_LENGTH {
      if c.routed.None? {
        AnswersLog(c.trace, UnsetAddress);
      } else {
        var p := ParseMessage(c.routed.value, payload, length).delivery;
        if p.Some? {
          var d := Delivered(Addr(payload[0], payload[1]), p.value.target, p.value.data);
          AnswersLog(c.trace, d);
          PerformAnswers(env, Log(c, d), env.deliver(Keep(IsCallback, c.trace), p.value.target, p.value.data));
        }
      }
    }
  }

  lemma DiagnoseAnswers(env: Env, c: Core, payload: seq<byte>)
    requires 5 <= |payload| < 0x1_0000_0000
    ensures Answers(c.trace, Diagnose(env, c, payload).trace, 1)
  {
    var target := Value16(payload[2], payload[3]);
    AnswersLog(c.trace, Notified(target));
    PerformAnswers(env, Log(c, Notified(target)), env.notify(Keep(IsCallback, c.trace), target).calls);
    PassAnswers(env, Notify(env, c, target), payload);
  }

  lemma CloseAnswers(c: Core, skipShutdown: bool)
    ensures var d := CloseSocket(c, skipShutdown);
            && Answers(c.trace, d.trace, 0) && !d.open
            && (c.open ==> EndsWith(d.trace, if c.tls && skipShutdown then Closed(AbruptClose) else OwnClose(c)))
  {
    if c.open {
      var d := CloseSocket(c, skipShutdown);
      AnswersLog(c.trace, d.trace[|c.trace|]);
    }
  }

  lemma ActivateAnswers(env: Env, c: Core, payload: seq<byte>)
    requires |payload| >= 3
    ensures var d := Activate(env, c, payload).core;
            Answers(c.trace, d.trace, 1) && (c.open && !d.open ==> EndsWith(d.trace, OwnClose(c)))
  {
    var wire := ResponseWire(c.gateway, Addr(payload[0], payload[1]), ActivationCode(payload));
    var c1 := Send(env, c, ActivationReply, wire);
    AnswersLog(c.trace, Sent(ActivationReply, wire));
    CloseAnswers(c1, false);
    AnswersLog(c1.trace, TimerStarted);
  }

  lemma NackAnswers(env: Env, c: Core, code: byte)
    ensures var d := CloseSocket(Send(env, c, NackReply, NackWire(code)), false);
            Answers(c.trace, d.trace, 1) && (c.open && !d.open ==> EndsWith(d.trace, OwnClose(c)))
    ensures Answers(c.trace, Send(env, c, NackReply, NackWire(code)).trace, 1)
  {
    AnswersLog(c.trace, Sent(NackReply, NackWire(code)));
    CloseAnswers(Send(env, c, NackReply, NackWire(code)), false);
  }

  /** Every reaction answers once; if it closes the socket, that is the last thing it does. */
  lemma ReactAnswers(env: Env, c: Core, a: Action, payload: seq<byte>)
    requires Safe(a, payload) && !a.typ.AliveCheckResponse?
    ensures var d := React(env, c, a, payload).core;
            Answers(c.trace, d.trace, 1) && (c.open && !d.open ==> EndsWith(d.trace, OwnClose(c)))
  {
    match a.typ {
      case NegativeAck => NackAnswers(env, c, a.value.value);
      case RoutingActivationRequest => ActivateAnswers(env, c, payload);
      case DiagnosticMessage =>
        DiagnoseAnswers(env, c, payload);
        DiagnoseKeeps(env, c, payload);
      case t => AnswersLog(c.trace, Unhandled(t));
    }
  }

  lemma HandleAnswers(env: Env, c: Core, h: seq<byte>, payload: seq<byte>)
    requires |h| >= 8 && |payload| == Parse(h).payloadLength
    ensures var d := Handle(env, c, h, payload).core;
            Answers(c.trace, d.trace, 1) && (c.open && !d.open ==> EndsWith(d.trace, OwnClose(c)))
  {
    ParsedIsSafe(h, payload);
    Classification(h);
    AnswersLog(c.trace, TimerReset);
    ReactAnswers(env, Touch(env, c), Parse(h), payload);
  }

  /** A frame closes an open connection exactly when its bytes say so. */
  lemma DispatchCloses(env: Env, c: Core, f: Frame)
    requires c.open
    ensures Dispatch(env, c, f).open <==> !Refused(f)
  {
    Classification(f.header);
    var a := Parse(f.header);
    if a.typ.DiagnosticMessage? {
      DiagnoseKeeps(env, Touch(env, c), f.payload);
    }
  }

  // ---------- Many frames ----------

  /** How many frames are served: those before the first refused one, and that one itself. */
  function Served(fs: seq<Frame>): nat {
    var k := FirstRefused(fs);
    if k < |fs| then k + 1 else k
  }

  /** Exact close condition and conservation: the connection survives the frames exactly if
      none of them is refused, and gives exactly one answer to each frame it serves. */
  lemma {:induction false} DispatchAllServes(env: Env, c: Core, fs: seq<Frame>)
    requires c.open
    ensures var d := DispatchAll(env, c, fs);
            && (d.open <==> NoneRefused(fs))
            && Answers(c.trace, d.trace, Served(fs))
            && (!d.open ==> EndsWith(d.trace, OwnClose(c)))
            && Later(c, d)
    decreases |fs|
  {
    if fs != [] {
      var d := Dispatch(env, c, fs[0]);
      DispatchCloses(env, c, fs[0]);
      HandleAnswers(env, c, fs[0].header, fs[0].payload);
      HandleLater(env, c, fs[0].header, fs[0].payload);
      if d.open {
        DispatchAllServes(env, d, fs[1..]);
      }
    }
  }

  /** Frames after the first refused one have no effect at all. */
  lemma {:induction false} RestIgnored(env: Env, c: Core, fs: seq<Frame>)
    requires c.open
    ensures DispatchAll(env, c, fs) == DispatchAll(env, c, fs[..Served(fs)])
    decreases |fs|
  {
    if fs != [] {
      DispatchCloses(env, c, fs[0]);
      var gs := fs[..Served(fs)];
      assert gs[0] == fs[0];
      if Refused(fs[0]) {
        assert gs == [fs[0]];
      } else {
        assert gs[1..] == fs[1..][..Served(fs[1..])];
        RestIgnored(env, Dispatch(env, c, fs[0]), fs[1..]);
      }
    }
  }

  lemma {:induction false} DispatchAllInv(env: Env, c: Core, fs: seq<Frame>)
    requires Inv(env, c)
    ensures Inv(env, DispatchAll(env, c, fs))
    decreases |fs|
  {
    if fs != [] && c.open {
      HandleInv(env, c, fs[0].header, fs[0].payload);
      DispatchAllInv(env, Dispatch(env, c, fs[0]), fs[1..]);
    }
  }

  // ---------- The end of a run ----------

  /** SSL_shutdown is skipped exactly when a fatal error of a read ends the connection. */
  function LastClose(tls: bool, fs: seq<Frame>, why: Failure): Event {
    if !tls then Closed(PlainClose)
    else if NoneRefused(fs) && why == FatalError then Closed(AbruptClose)
    else Closed(ShutdownClose)
  }

  lemma FinishCloses(c: Core, why: Failure)
    requires c.open
    ensures var r := Finish(c, why);
            && !r.open && Answers(c.trace, r.trace, 0)
            && EndsWith(r.trace, LastClose(c.tls, [], why))
  {
    CloseAnswers(c, false);
    CloseAnswers(c.(tlsError := true), true);
  }

  lemma ConcludeCloses(env: Env, c: Core, why: Failure, tail: Option<Frame>)
    requires c.open
    ensures var e, r := Finish(c, why), Conclude(env, c, why, tail);
            && EndsWith(e.trace, LastClose(c.tls, [], why))
            && e.trace <= r.trace && !r.open
            && (r.trace == e.trace <==> tail.None?)
            && Answers(c.trace, r.trace, if tail.Some? then 1 else 0)
  {
    var e := Finish(c, why);
    FinishCloses(c, why);
    if tail.Some? {
      HandleAnswers(env, e, tail.value.header, tail.value.payload);
      HandleLater(env, e, tail.value.header, tail.value.payload);
    }
  }

  /** Of everything an input is taken for: which answers it gets and where it closes. */
  lemma MeaningServes(env: Env, c: Core, t: Intake)
    requires c.open
    ensures var d, r := DispatchAll(env, c, t.frames), Meaning(env, c, t);
            && (d.open <==> NoneRefused(t.frames))
            && Answers(c.trace, r.trace, Served(t.frames) + if NoneRefused(t.frames) && t.tail.Some? then 1 else 0)
            && (t.tail.None? || !NoneRefused(t.frames) ==> EndsWith(r.trace, LastClose(c.tls, t.frames, t.ending)))
            && !r.open
  {
    var d := DispatchAll(env, c, t.frames);
    DispatchAllServes(env, c, t.frames);
    if d.open {
      ConcludeCloses(env, d, t.ending, t.tail);
    }
  }

  /** Frame conservation for every input: each frame the input is taken for, up to and including
      the first refused one, is answered exactly once. The close is the last event unless a frame
      is handled after a fatal read error. */
  lemma RunServes(env: Env, c: Core, inbox: seq<Read>)
    requires c.open && !c.timer.timeout
    ensures var t, r := Taken(env, c.tls, inbox), Run(env, c, inbox).0;
            && Answers(c.trace, r.trace, Served(t.frames) + if NoneRefused(t.frames) && t.tail.Some? then 1 else 0)
            && (t.tail.None? || !NoneRefused(t.frames) ==> EndsWith(r.trace, LastClose(c.tls, t.frames, t.ending)))
  {
    RunIsMeaning(env, c, inbox);
    MeaningServes(env, c, Taken(env, c.tls, inbox));
  }

  // ---------- The reference semantics and its exact limits ----------

  lemma {:induction false} FirstRefusedConcat(fs: seq<Frame>, gs: seq<Frame>)
    ensures FirstRefused(fs + gs) == if NoneRefused(fs) then |fs| + FirstRefused(gs) else FirstRefused(fs)
    decreases |fs|
  {
    if fs == [] {
      assert fs + gs == gs;
    } else {
      assert (fs + gs)[1..] == fs[1..] + gs;
      FirstRefusedConcat(fs[1..], gs);
    }
  }

  lemma {:induction false} DispatchAllConcat(env: Env, c: Core, fs: seq<Frame>, gs: seq<Frame>)
    ensures DispatchAll(env, c, fs + gs) == DispatchAll(env, DispatchAll(env, c, fs), gs)
    decreases |fs|
  {
    if fs == [] {
      assert fs + gs == gs;
    } else if c.open {
      assert (fs + gs)[1..] == fs[1..] + gs;
      DispatchAllConcat(env, Dispatch(env, c, fs[0]), fs[1..], gs);
    }
  }

  /** Every reading of the input starts with its complete frames; an overrun adds to them. */
  lemma TakenPrefix(env: Env, tls: bool, inbox: seq<Read>) returns (more: seq<Frame>)
    ensures var fs, t := Split(Arrived(inbox)).frames, Taken(env, tls, inbox);
            && t.frames == fs + more
            && (Mistaken(tls, inbox) <==> more != [] || t.tail.Some?)
            && (!Mistaken(tls, inbox) || Ending(inbox) == FatalError ==> more == [] && t.ending == Ending(inbox))
  {
    var st := Split(Arrived(inbox));
    if !Mistaken(tls, inbox) || Ending(inbox) == FatalError {
      more := [];
      assert st.frames + [] == st.frames;
    } else {
      var g, gs := Filled(env, st.rest), Taken(env, tls, AfterFailure(inbox)).frames;
      more := [g] + gs;
      assert st.frames + [g] + gs == st.frames + ([g] + gs);
    }
  }

  /** An overrun is one more answer than the complete frames get. */
  lemma OverrunAnswers(env: Env, tls: bool, inbox: seq<Read>)
    requires Overruns(tls, inbox)
    ensures var t := Taken(env, tls, inbox);
            Served(t.frames) + (if NoneRefused(t.frames) && t.tail.Some? then 1 else 0)
            > Served(Split(Arrived(inbox)).frames)
  {
    var more := TakenPrefix(env, tls, inbox);
    FirstRefusedConcat(Split(Arrived(inbox)).frames, more);
  }

  lemma NoOverrun(env: Env, c: Core, inbox: seq<Read>)
    requires c.open && !Overruns(c.tls, inbox)
    ensures Meaning(env, c, Taken(env, c.tls, inbox)) == Reference(env, c, Arrived(inbox), Ending(inbox))
  {
    var fs := Split(Arrived(inbox)).frames;
    var more := TakenPrefix(env, c.tls, inbox);
    if Mistaken(c.tls, inbox) {
      DispatchAllServes(env, c, fs);
      DispatchAllConcat(env, c, fs, more);
    } else {
      assert fs + more == fs;
    }
  }

  lemma ReferenceAnswers(env: Env, c: Core, s: seq<byte>, why: Failure)
    requires c.open
    ensures Answers(c.trace, Reference(env, c, s, why).trace, Served(Split(s).frames))
  {
    MeaningServes(env, c, Intake(Split(s).frames, why, None));
  }

  /** A run handles exactly the complete frames up to the first refused one, and then closes,
      if and only if no truncated frame is taken for complete. */
  lemma RunIsReference(env: Env, c: Core, inbox: seq<Read>)
    requires c.open && !c.timer.timeout
    ensures var fs, r := Split(Arrived(inbox)).frames, Run(env, c, inbox).0;
            && (r == Reference(env, c, Arrived(inbox), Ending(inbox)) <==> !Overruns(c.tls, inbox))
            && Reference(env, c, Arrived(inbox), Ending(inbox))
               == Finish(DispatchAll(env, c, fs[..Served(fs)]), Ending(inbox))
  {
    RunIsMeaning(env, c, inbox);
    RestIgnored(env, c, Split(Arrived(inbox)).frames);
    if Overruns(c.tls, inbox) {
      RunServes(env, c, inbox);
      ReferenceAnswers(env, c, Arrived(inbox), Ending(inbox));
      OverrunAnswers(env, c.tls, inbox);
    } else {
      NoOverrun(env, c, inbox);
    }
  }

  /** A stream of complete frames is handled frame by frame. */
  lemma RunOfFrames(env: Env, c: Core, inbox: seq<Read>, fs: seq<Frame>)
    requires c.open && !c.timer.timeout && Arrived(inbox) == Concat(fs)
    ensures Run(env, c, inbox).0 == Finish(DispatchAll(env, c, fs), Ending(inbox))
  {
    assert Concat(fs) + [] == Concat(fs);
    SplitConcat(fs, []);
    RunIsReference(env, c, inbox);
  }

  // ---------- The close ----------

  lemma OnlyClose(t: seq<Event>, e: Event)
    requires |Keep(IsClose, t)| == 1
    ensures EndsWith(t, e) && IsClose(e) ==> Keep(IsClose, t) == [e]
  {
    if t != [] {
      assert t == t[..|t| - 1] + [t[|t| - 1]];
      KeepSnoc(IsClose, t[..|t| - 1], t[|t| - 1]);
    }
  }

  lemma SameClose(t: seq<Event>, u: seq<Event>)
    requires t <= u && |Keep(IsClose, t)| == |Keep(IsClose, u)|
    ensures Keep(IsClose, t) == Keep(IsClose, u)
  {
    KeepConcat(IsClose, t, u[|t|..]);
    assert u == t + u[|t|..];
  }

  lemma ConcludeInv(env: Env, c: Core, why: Failure, tail: Option<Frame>)
    requires Inv(env, c)
    ensures Inv(env, Conclude(env, c, why, tail))
  {
    FinishInv(env, c, why);
    if c.open && tail.Some? {
      HandleInv(env, Finish(c, why), tail.value.header, tail.value.payload);
    }
  }

  lemma ClosedOnce(env: Env, c: Core)
    requires Inv(env, c) && !c.open
    ensures |Keep(IsClose, c.trace)| == 1
  {
  }

  lemma ConcludeCount(env: Env, c: Core, why: Failure, tail: Option<Frame>)
    requires Inv(env, c) && c.open
    ensures |Keep(IsClose, Finish(c, why).trace)| == 1 == |Keep(IsClose, Conclude(env, c, why, tail).trace)|
  {
    FinishInv(env, c, why);
    ConcludeInv(env, c, why, tail);
    ConcludeCloses(env, c, why, tail);
    ClosedOnce(env, Finish(c, why));
    ClosedOnce(env, Conclude(env, c, why, tail));
  }

  lemma ConcludeClosesOnce(env: Env, c: Core, why: Failure, tail: Option<Frame>)
    requires Inv(env, c) && c.open
    ensures Keep(IsClose, Conclude(env, c, why, tail).trace) == [LastClose(c.tls, [], why)]
  {
    ConcludeCount(env, c, why, tail);
    ConcludeCloses(env, c, why, tail);
    OnlyClose(Finish(c, why).trace, LastClose(c.tls, [], why));
    SameClose(Finish(c, why).trace, Conclude(env, c, why, tail).trace);
  }

  lemma MeaningInv(env: Env, c: Core, t: Intake)
    requires Inv(env, c)
    ensures Inv(env, Meaning(env, c, t))
  {
    DispatchAllInv(env, c, t.frames);
    ConcludeInv(env, DispatchAll(env, c, t.frames), t.ending, t.tail);
  }

  /** The close of every run: the socket is closed once, and SSL_shutdown is skipped exactly if a
      fatal read error reaches a connection that no frame has closed. */
  lemma RunClosesOnce(env: Env, c: Core, inbox: seq<Read>)
    requires Inv(env, c) && c.open && !c.timer.timeout
    ensures var t, r := Taken(env, c.tls, inbox), Run(env, c, inbox).0;
            Keep(IsClose, r.trace) == [LastClose(c.tls, t.frames, t.ending)]
  {
    var t := Taken(env, c.tls, inbox);
    var d := DispatchAll(env, c, t.frames);
    RunIsMeaning(env, c, inbox);
    DispatchAllServes(env, c, t.frames);
    DispatchAllInv(env, c, t.frames);
    if d.open {
      ConcludeClosesOnce(env, d, t.ending, t.tail);
    } else {
      OnlyClose(d.trace, OwnClose(c));
    }
  }
}
