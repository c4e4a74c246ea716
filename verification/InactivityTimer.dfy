/** The two places at which a connection heeds its timer: every complete message restarts it, and
    once a timeout is flagged no message is handled any more. */
module InactivityTimer {
  import opened Bytes
  import opened GenericHeader
  import opened DiagnosticMessages
  import opened RoutingActivation
  import opened Trace
  import opened ConnectionSpec
  import opened Frames
  import opened Runs
  import opened Closing

  predicate IsReset(e: Event) {
    e.TimerReset?
  }

  // ---------- Reactions do not restart an active timer ----------

  /** From `c` to `d` an active timer keeps its start time and nothing restarts a timer. */
  predicate Unrestarted(c: Core, d: Core) {
    && Keep(IsReset, d.trace) == Keep(IsReset, c.trace)
    && (c.timer.active ==> d.timer == c.timer)
  }

  lemma UnrestartedLog(c: Core, e: Event, d: Core)
    requires d.trace == c.trace + [e] && !IsReset(e) && (c.timer.active ==> d.timer == c.timer)
    ensures Unrestarted(c, d)
  {
    KeepSnoc(IsReset, c.trace, e);
  }

  lemma DoUnrestarted(env: Env, c: Core, call: AppCall)
    ensures Unrestarted(c, Do(env, c, call))
  {
    var d := Do(env, c, call);
    UnrestartedLog(c, d.trace[|c.trace|], d);
  }

  lemma {:induction false} PerformUnrestarted(env: Env, c: Core, calls: seq<AppCall>)
    ensures Unrestarted(c, Perform(env, c, calls))
    decreases |calls|
  {
    if calls != [] {
      DoUnrestarted(env, c, calls[0]);
      PerformUnrestarted(env, Do(env, c, calls[0]), calls[1..]);
    }
  }

  lemma PassUnrestarted(env: Env, c: Core, payload: seq<byte>)
    requires 5 <= |payload| < 0x1_0000_0000
    ensures Unrestarted(c, Pass(env, c, payload))
  {
    var length := ToInt32(|payload|);
    if length >= MINIMUM_LENGTH {
      if c.routed.None? {
        UnrestartedLog(c, UnsetAddress, Log(c, UnsetAddress));
      } else {
        var p := ParseMessage(c.routed.value, payload, length).delivery;
        if p.Some? {
          var e := Delivered(Addr(payload[0], payload[1]), p.value.target, p.value.data);
          UnrestartedLog(c, e, Log(c, e));
          PerformUnrestarted(env, Log(c, e), env.deliver(Keep(IsCallback, c.trace), p.value.target, p.value.data));
        }
      }
    }
  }

  lemma DiagnoseUnrestarted(env: Env, c: Core, payload: seq<byte>)
    requires 5 <= |payload| < 0x1_0000_0000
    ensures Unrestarted(c, Diagnose(env, c, payload))
  {
    var target := Value16(payload[2], payload[3]);
    var c1 := Log(c, Notified(target));
    UnrestartedLog(c, Notified(target), c1);
    PerformUnrestarted(env, c1, env.notify(Keep(IsCallback, c.trace), target).calls);
    PassUnrestarted(env, Notify(env, c, target), payload);
  }

  lemma CloseUnrestarted(c: Core)
    ensures Unrestarted(c, CloseSocket(c, false))
  {
    if c.open {
      UnrestartedLog(c, OwnClose(c), CloseSocket(c, false));
    }
  }

  lemma NackUnrestarted(env: Env, c: Core, code: byte)
    ensures var d := Send(env, c, NackReply, NackWire(code));
            Unrestarted(c, d) && Unrestarted(c, CloseSocket(d, false))
  {
    var d := Send(env, c, NackReply, NackWire(code));
    UnrestartedLog(c, Sent(NackReply, NackWire(code)), d);
    CloseUnrestarted(d);
  }

  lemma ActivateUnrestarted(env: Env, c: Core, payload: seq<byte>)
    requires |payload| >= 3
    ensures Unrestarted(c, Activate(env, c, payload).core)
  {
    var client := Addr(payload[0], payload[1]);
    var wire := ResponseWire(c.gateway, client, ActivationCode(payload));
    var c1 := Send(env, c, ActivationReply, wire);
    var c2 := c1.(routed := Some(client));
    UnrestartedLog(c, Sent(ActivationReply, wire), c1);
    CloseUnrestarted(c1);
    KeepSnoc(IsReset, c1.trace, TimerStarted);
  }

  lemma ReactUnrestarted(env: Env, c: Core, a: Action, payload: seq<byte>)
    requires Safe(a, payload)
    ensures Unrestarted(c, React(env, c, a, payload).core)
  {
    match a.typ {
      case NegativeAck => NackUnrestarted(env, c, a.value.value);
      case RoutingActivationRequest => ActivateUnrestarted(env, c, payload);
      case AliveCheckResponse =>
      case DiagnosticMessage => DiagnoseUnrestarted(env, c, payload);
      case t => UnrestartedLog(c, Unhandled(t), Log(c, Unhandled(t)));
    }
  }

  // ---------- Every complete message restarts an active timer ----------

  /** A frame on a connection with an active timer restarts it exactly once, first of all and with
      the reading of the clock at that moment; on any other connection it restarts nothing. */
  lemma FrameRestarts(env: Env, c: Core, f: Frame)
    ensures var d := Dispatch(env, c, f);
            if c.timer.active
            then && c.trace + [TimerReset] <= d.trace
                 && Keep(IsReset, d.trace) == Keep(IsReset, c.trace) + [TimerReset]
                 && d.timer == c.timer.(startTime := env.clock(c.trace))
            else Keep(IsReset, d.trace) == Keep(IsReset, c.trace)
  {
    ParsedIsSafe(f.header, f.payload);
    Classification(f.header);
    KeepSnoc(IsReset, c.trace, TimerReset);
    ReactUnrestarted(env, Touch(env, c), Parse(f.header), f.payload);
    ReactAnswers(env, Touch(env, c), Parse(f.header), f.payload);
  }

  /** A frame makes the timer active exactly if it is an accepted activation and the timer is
      neither active nor disabled. */
  lemma FrameActivates(env: Env, c: Core, f: Frame)
    ensures var d := Dispatch(env, c, f);
            && d.timer.disabled == c.timer.disabled
            && (d.timer.active <==>
                c.timer.active || (!c.timer.disabled && !Refused(f) && TypeCode(f.header) == 0x0005))
  {
    ParsedIsSafe(f.header, f.payload);
    Classification(f.header);
    HandleLater(env, c, f.header, f.payload);
    if Parse(f.header).typ.DiagnosticMessage? {
      DiagnoseKeeps(env, Touch(env, c), f.payload);
    }
  }

  /** How many frames are handled while the timer is active. */
  function FramesWhileActive(timer: TimerState, fs: seq<Frame>): nat
    decreases |fs|
  {
    if fs == [] then 0
    else
      var starts := !timer.disabled && !Refused(fs[0]) && TypeCode(fs[0].header) == 0x0005;
      (if timer.active then 1 else 0)
      + if Refused(fs[0]) then 0
        else FramesWhileActive(timer.(active := timer.active || starts), fs[1..])
  }

  function Resets(t: seq<Event>): nat {
    |Keep(IsReset, t)|
  }

  lemma SameWhileActive(s: TimerState, t: TimerState, fs: seq<Frame>)
    requires s.active == t.active && s.disabled == t.disabled
    ensures FramesWhileActive(s, fs) == FramesWhileActive(t, fs)
    decreases |fs|
  {
    if fs != [] {
      var starts := !s.disabled && !Refused(fs[0]) && TypeCode(fs[0].header) == 0x0005;
      SameWhileActive(s.(active := s.active || starts), t.(active := t.active || starts), fs[1..]);
    }
  }

  lemma ConcludeRestarts(env: Env, c: Core, why: Failure, tail: Option<Frame>)
    requires c.open
    ensures Resets(Conclude(env, c, why, tail).trace)
            == Resets(c.trace) + FramesWhileActive(c.timer, Tail(tail))
  {
    var e := Finish(c, why);
    UnrestartedLog(c, LastClose(c.tls, [], why), e);
    if tail.Some? {
      FrameRestarts(env, e, tail.value);
      assert Tail(tail)[1..] == [];
    }
  }

  lemma {:induction false} MeaningRestarts(env: Env, c: Core, t: Intake)
    requires c.open
    ensures Resets(Meaning(env, c, t).trace)
            == Resets(c.trace) + FramesWhileActive(c.timer, t.frames + Tail(t.tail))
    decreases |t.frames|
  {
    var fs := t.frames + Tail(t.tail);
    if t.frames == [] {
      assert fs == Tail(t.tail);
      ConcludeRestarts(env, c, t.ending, t.tail);
    } else {
      var f, u := t.frames[0], t.(frames := t.frames[1..]);
      var d := Dispatch(env, c, f);
      assert fs[0] == f && fs[1..] == u.frames + Tail(u.tail);
      MeaningStep(env, c, t);
      FrameRestarts(env, c, f);
      FrameActivates(env, c, f);
      DispatchCloses(env, c, f);
      if d.open {
        MeaningRestarts(env, d, u);
        SameWhileActive(d.timer, c.timer.(active := d.timer.active), fs[1..]);
      } else {
        ClosedMeaning(env, d, u);
      }
    }
  }

  /** Over every run the timer is restarted once for each frame handled while it is active. */
  lemma RunRestarts(env: Env, c: Core, inbox: seq<Read>)
    requires c.open && !c.timer.timeout
    ensures var t := Taken(env, c.tls, inbox);
            Resets(Run(env, c, inbox).0.trace)
            == Resets(c.trace) + FramesWhileActive(c.timer, t.frames + Tail(t.tail))
  {
    RunIsMeaning(env, c, inbox);
    MeaningRestarts(env, c, Taken(env, c.tls, inbox));
  }

  /** One receive restarts an active timer exactly if it handles a frame. */
  lemma ReceiveRestarts(env: Env, c: Core, inbox: seq<Read>)
    requires c.open && !c.timer.timeout && c.timer.active
    ensures var t, d := Taken(env, c.tls, inbox), ReceiveMessage(env, c, inbox).core;
            Resets(d.trace) == Resets(c.trace) + (if t.frames == [] && t.tail == None then 0 else 1) && d.timer.active
  {
    var t := Taken(env, c.tls, inbox);
    ReceiveTakes(env, c, inbox);
    ReceiveLater(env, c, inbox);
    if t.frames != [] {
      FrameRestarts(env, c, t.frames[0]);
    } else {
      ConcludeRestarts(env, c, t.ending, t.tail);
      assert t.tail.Some? ==> Tail(t.tail)[1..] == [];
    }
  }

  // ---------- A flagged timeout ends the connection at the next receive ----------

  /** Whatever has arrived, with the timeout flagged a receive handles nothing: it closes the
      socket, changes nothing else and returns 0. */
  lemma TimedOutReceive(env: Env, c: Core, inbox: seq<Read>)
    requires c.open && c.timer.timeout
    ensures var r, g := ReceiveMessage(env, c, inbox), ReadExact(inbox, 8);
            var mode :=
              if !c.tls then PlainClose else if g.failure == Some(FatalError) then AbruptClose else ShutdownClose;
            && r.core == c.(open := false, tls := false, trace := c.trace + [Closed(mode)], tlsError := r.core.tlsError)
            && r.inbox == g.rest && r.code == 0
  {
  }

  /** So does a run. */
  lemma TimedOutRun(env: Env, c: Core, inbox: seq<Read>)
    requires c.open && c.timer.timeout
    ensures var r := Run(env, c, inbox).0;
            && r.routed == c.routed
            && |r.trace| == |c.trace| + 1 && c.trace < r.trace && r.trace[|c.trace|].Closed?
  {
    TimedOutReceive(env, c, inbox);
  }
}
