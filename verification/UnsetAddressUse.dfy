/** The routed address is an uninitialised pointer until an activation sets it. This is the exact
    input on which a server uses it before that, for any application and for the example's. */
module UnsetAddressUse {
  import opened Bytes
  import opened GenericHeader
  import opened DiagnosticMessages
  import opened RoutingActivation
  import opened Trace
  import opened ConnectionSpec
  import opened Frames
  import opened Runs
  import opened Safety
  import opened Closing
  import opened ExampleApplication

  // ---------- The condition ----------

  predicate IsDiagnosticFrame(f: Frame) {
    TypeCode(f.header) == 0x8001
  }

  predicate IsActivationFrame(f: Frame) {
    TypeCode(f.header) == 0x0005
  }

  function Target(f: Frame): uint16
    requires !Refused(f) && IsDiagnosticFrame(f)
  {
    Value16(f.payload[2], f.payload[3])
  }

  /** After callbacks `t` the application sends from inside the notification for this frame, or it
      accepts the frame and the parser gets as far as comparing the source address. */
  predicate UsesAddress(env: Env, t: seq<Event>, f: Frame) {
    && !Refused(f) && IsDiagnosticFrame(f)
    && var n := env.notify(t, Target(f));
       n.calls != [] || (n.accept && ToInt32(|f.payload|) >= MINIMUM_LENGTH)
  }

  function Noted(t: seq<Event>, f: Frame): seq<Event> {
    if !Refused(f) && IsDiagnosticFrame(f) then t + [Notified(Target(f))] else t
  }

  /** Before any activation and before anything that makes the server close, such a message is
      among the frames. */
  predicate UsedUnset(env: Env, t: seq<Event>, fs: seq<Frame>)
    decreases |fs|
  {
    fs != [] &&
    (UsesAddress(env, t, fs[0]) ||
     (!Refused(fs[0]) && !IsActivationFrame(fs[0]) && UsedUnset(env, Noted(t, fs[0]), fs[1..])))
  }

  // ---------- One frame ----------

  /** `t` grew into `u` by neither a callback nor a use of the unset address. */
  predicate Clean(t: seq<Event>, u: seq<Event>) {
    t <= u && UnsetAddress !in u && Keep(IsCallback, u) == Keep(IsCallback, t)
  }

  lemma CleanLog(t: seq<Event>, u: seq<Event>, e: Event)
    requires Clean(t, u) && e != UnsetAddress && !IsCallback(e)
    ensures Clean(t, u + [e])
  {
    KeepSnoc(IsCallback, u, e);
  }

  lemma CleanClose(t: seq<Event>, c: Core)
    requires Clean(t, c.trace)
    ensures Clean(t, CloseSocket(c, false).trace)
  {
    if c.open {
      CleanLog(t, c.trace, OwnClose(c));
    }
  }

  lemma ActivateIsClean(env: Env, c: Core, t: seq<Event>, payload: seq<byte>)
    requires |payload| >= 3 && Clean(t, c.trace)
    ensures var d := Activate(env, c, payload).core;
            Clean(t, d.trace) && (ActivationCode(payload) == SUCCESSFULLY_ROUTED ==> d.routed.Some?)
  {
    var wire := ResponseWire(c.gateway, Addr(payload[0], payload[1]), ActivationCode(payload));
    var c1 := Send(env, c, ActivationReply, wire);
    CleanLog(t, c.trace, Sent(ActivationReply, wire));
    CleanClose(t, c1);
    CleanLog(t, c1.trace, TimerStarted);
  }

  lemma NackIsClean(env: Env, c: Core, t: seq<Event>, code: byte)
    requires Clean(t, c.trace)
    ensures var d := Send(env, c, NackReply, NackWire(code));
            Clean(t, d.trace) && Clean(t, CloseSocket(d, false).trace)
  {
    CleanLog(t, c.trace, Sent(NackReply, NackWire(code)));
    CleanClose(t, Send(env, c, NackReply, NackWire(code)));
  }

  lemma ReactIsClean(env: Env, c: Core, t: seq<Event>, a: Action, payload: seq<byte>)
    requires Safe(a, payload) && !a.typ.DiagnosticMessage? && Clean(t, c.trace)
    ensures var d := React(env, c, a, payload).core;
            && Clean(t, d.trace)
            && (if a.typ.RoutingActivationRequest?
                then ActivationCode(payload) == SUCCESSFULLY_ROUTED ==> d.routed.Some? else d.routed == c.routed)
  {
    match a.typ {
      case NegativeAck => NackIsClean(env, c, t, a.value.value);
      case RoutingActivationRequest => ActivateIsClean(env, c, t, payload);
      case AliveCheckResponse =>
      case typ => CleanLog(t, c.trace, Unhandled(typ));
    }
  }

  lemma AcceptedActivation(f: Frame)
    requires !Refused(f)
    ensures IsActivationFrame(f) <==> Parse(f.header).typ.RoutingActivationRequest?
    ensures IsActivationFrame(f) ==> |f.payload| >= 3 && ActivationCode(f.payload) == SUCCESSFULLY_ROUTED
  {
    Classification(f.header);
  }

  /** Frames of any other type never touch the address; an accepted activation sets it. */
  lemma DispatchIsClean(env: Env, c: Core, f: Frame)
    requires UnsetAddress !in c.trace && !Parse(f.header).typ.DiagnosticMessage?
    ensures var d := Dispatch(env, c, f);
            && Clean(c.trace, d.trace)
            && (!Refused(f) ==> if IsActivationFrame(f) then d.routed.Some? else d.routed == c.routed)
  {
    CleanLog(c.trace, c.trace, TimerReset);
    ParsedIsSafe(f.header, f.payload);
    ReactIsClean(env, Touch(env, c), c.trace, Parse(f.header), f.payload);
    if !Refused(f) {
      AcceptedActivation(f);
    }
  }

  lemma NotifyUnset(env: Env, c: Core, target: uint16)
    requires c.routed.None? && UnsetAddress !in c.trace
    ensures var d, n := Notify(env, c, target), env.notify(Keep(IsCallback, c.trace), target);
            if n.calls == [] then d == Log(c, Notified(target)) else UnsetAddress in d.trace
  {
    var c1, calls := Log(c, Notified(target)), env.notify(Keep(IsCallback, c.trace), target).calls;
    if calls != [] {
      var c2 := Do(env, c1, calls[0]);
      assert c2.trace[|c1.trace|] == UnsetAddress;
      PerformAnswers(env, c2, calls[1..]);
      assert Notify(env, c, target).trace[|c1.trace|] == UnsetAddress;
    }
  }

  lemma DiagnoseUnset(env: Env, c: Core, payload: seq<byte>)
    requires c.routed.None? && UnsetAddress !in c.trace && 5 <= |payload| < 0x1_0000_0000
    ensures var d, target := Diagnose(env, c, payload), Value16(payload[2], payload[3]);
            var n := env.notify(Keep(IsCallback, c.trace), target);
            if n.calls != [] || (n.accept && ToInt32(|payload|) >= MINIMUM_LENGTH) then UnsetAddress in d.trace
            else d == Log(c, Notified(target))
  {
    var target := Value16(payload[2], payload[3]);
    var c1 := Notify(env, c, target);
    NotifyUnset(env, c, target);
    PassAnswers(env, c1, payload);
    if UnsetAddress in c1.trace {
      assert c1.trace <= Diagnose(env, c, payload).trace;
    }
  }

  lemma UnroutedIsUntouched(env: Env, c: Core)
    requires Inv(env, c) && c.routed.None?
    ensures Touch(env, c) == c
  {
  }

  lemma AcceptedDiagnostic(f: Frame)
    ensures Parse(f.header).typ.DiagnosticMessage? <==> !Refused(f) && IsDiagnosticFrame(f)
    ensures Parse(f.header).typ.DiagnosticMessage? ==> 5 <= |f.payload| < 0x1_0000_0000 && !IsActivationFrame(f)
  {
    Classification(f.header);
  }

  lemma DiagnosticUnset(env: Env, c: Core, f: Frame)
    requires Touch(env, c) == c && c.routed.None? && UnsetAddress !in c.trace
    requires Parse(f.header).typ.DiagnosticMessage?
    ensures var d, t := Dispatch(env, c, f), Keep(IsCallback, c.trace);
            && (UnsetAddress in d.trace <==> UsesAddress(env, t, f))
            && (!UsesAddress(env, t, f) ==> d.routed.None? && Keep(IsCallback, d.trace) == Noted(t, f))
  {
    AcceptedDiagnostic(f);
    DiagnoseUnset(env, c, f.payload);
    KeepSnoc(IsCallback, c.trace, Notified(Target(f)));
  }

  /** One frame, on an open connection or after the close: whether it uses the unset address,
      and what it leaves to the next one. */
  lemma DispatchUnset(env: Env, c: Core, f: Frame)
    requires Inv(env, c) && c.routed.None? && UnsetAddress !in c.trace
    ensures var d, t := Dispatch(env, c, f), Keep(IsCallback, c.trace);
            && Inv(env, d) && c.trace <= d.trace
            && (UnsetAddress in d.trace <==> UsesAddress(env, t, f))
            && (!Refused(f) && IsActivationFrame(f) ==> d.routed.Some?)
            && (!Refused(f) && !IsActivationFrame(f) && !UsesAddress(env, t, f) ==>
                d.routed.None? && Keep(IsCallback, d.trace) == Noted(t, f))
  {
    AcceptedDiagnostic(f);
    HandleInv(env, c, f.header, f.payload);
    HandleAnswers(env, c, f.header, f.payload);
    if Parse(f.header).typ.DiagnosticMessage? {
      UnroutedIsUntouched(env, c);
      DiagnosticUnset(env, c, f);
    } else {
      DispatchIsClean(env, c, f);
    }
  }

  // ---------- Whole runs ----------

  lemma StaysActivated(t: seq<Event>, u: seq<Event>)
    requires t <= u && LastActivated(t).Some?
    ensures LastActivated(u).Some?
  {
    KeepConcat(IsActivation, t, u[|t|..]);
    assert u == t + u[|t|..];
  }

  /** Once the address is set it is never missing again. */
  lemma ActivatedIsClean(env: Env, c: Core, d: Core)
    requires Inv(env, c) && Inv(env, d) && c.trace <= d.trace && c.routed.Some?
    ensures UnsetAddress in d.trace <==> UnsetAddress in c.trace
  {
    forall i | |c.trace| <= i < |d.trace| ensures d.trace[i] != UnsetAddress {
      assert Rightly(d.trace, i);
      StaysActivated(c.trace, d.trace[..i]);
    }
    assert forall i :: 0 <= i < |c.trace| ==> c.trace[i] == d.trace[i];
  }

  lemma MeaningGrows(env: Env, c: Core, t: Intake)
    requires Inv(env, c)
    ensures Inv(env, Meaning(env, c, t)) && c.trace <= Meaning(env, c, t).trace
  {
    MeaningInv(env, c, t);
    if c.open {
      MeaningServes(env, c, t);
    }
  }

  lemma FinishUnset(env: Env, c: Core, why: Failure)
    requires Inv(env, c) && c.open && c.routed.None? && UnsetAddress !in c.trace
    ensures var e := Finish(c, why);
            && Inv(env, e) && e.routed.None? && UnsetAddress !in e.trace
            && Keep(IsCallback, e.trace) == Keep(IsCallback, c.trace)
  {
    FinishInv(env, c, why);
    CleanLog(c.trace, c.trace, LastClose(c.tls, [], why));
    assert Finish(c, why).trace == c.trace + [LastClose(c.tls, [], why)];
  }

  lemma UsedByOne(env: Env, t: seq<Event>, f: Frame)
    ensures UsedUnset(env, t, [f]) <==> UsesAddress(env, t, f)
  {
    assert [f][1..] == [];
  }

  lemma ConcludeUnset(env: Env, c: Core, why: Failure, tail: Option<Frame>)
    requires Inv(env, c) && c.open && c.routed.None? && UnsetAddress !in c.trace
    ensures UnsetAddress in Conclude(env, c, why, tail).trace
            <==> UsedUnset(env, Keep(IsCallback, c.trace), Tail(tail))
  {
    FinishUnset(env, c, why);
    if tail.Some? {
      DispatchUnset(env, Finish(c, why), tail.value);
      UsedByOne(env, Keep(IsCallback, c.trace), tail.value);
    }
  }

  lemma {:induction false} MeaningUnset(env: Env, c: Core, t: Intake)
    requires Inv(env, c) && c.open && c.routed.None? && UnsetAddress !in c.trace
    ensures UnsetAddress in Meaning(env, c, t).trace
            <==> UsedUnset(env, Keep(IsCallback, c.trace), t.frames + Tail(t.tail))
    decreases |t.frames|
  {
    var fs := t.frames + Tail(t.tail);
    if t.frames == [] {
      assert fs == Tail(t.tail);
      ConcludeUnset(env, c, t.ending, t.tail);
    } else {
      var f, u := t.frames[0], t.(frames := t.frames[1..]);
      var d := Dispatch(env, c, f);
      assert fs[0] == f && fs[1..] == u.frames + Tail(u.tail);
      DispatchUnset(env, c, f);
      DispatchCloses(env, c, f);
      MeaningStep(env, c, t);
      MeaningGrows(env, d, u);
      if d.routed.Some? {
        ActivatedIsClean(env, d, Meaning(env, d, u));
      } else if d.open && UnsetAddress !in d.trace {
        MeaningUnset(env, d, u);
      }
    }
  }

  /** For every application and every input: a new connection uses the unset address if and only
      if, among the frames its input is taken for, one is handled before the first activation
      on which the application sends or whose delivery it accepts. */
  lemma UnsetAddressUsed(env: Env, tls: bool, gateway: uint16, inbox: seq<Read>)
    ensures var t := Taken(env, tls, inbox);
            UnsetAddress in Run(env, Accepted(tls, gateway), inbox).0.trace
            <==> UsedUnset(env, [], t.frames + Tail(t.tail))
  {
    RunIsMeaning(env, Accepted(tls, gateway), inbox);
    MeaningUnset(env, Accepted(tls, gateway), Taken(env, tls, inbox));
  }

  // ---------- The example application ----------

  /** The example acknowledges every message at once. */
  predicate DiagnosticFirst(fs: seq<Frame>) {
    fs != [] && !Refused(fs[0])
    && (IsDiagnosticFrame(fs[0]) || (!IsActivationFrame(fs[0]) && DiagnosticFirst(fs[1..])))
  }

  predicate NoActivation(fs: seq<Frame>) {
    fs == [] || (!IsActivationFrame(fs[0]) && NoActivation(fs[1..]))
  }

  lemma {:induction false} ExampleUses(env: Env, t: seq<Event>, fs: seq<Frame>)
    requires IsExample(env)
    ensures UsedUnset(env, t, fs) <==> DiagnosticFirst(fs)
    decreases |fs|
  {
    if fs != [] {
      ExampleUses(env, Noted(t, fs[0]), fs[1..]);
    }
  }

  /** The same condition on the bytes that arrive: the message is among the complete frames, or it
      is a truncated one that is taken for complete, in the first stretch of bytes or a later one. */
  predicate DiagnosticReached(tls: bool, inbox: seq<Read>)
    decreases Size(inbox)
  {
    var st := Split(Arrived(inbox));
    || DiagnosticFirst(st.frames)
    || (Overruns(tls, inbox) && NoActivation(st.frames)
        && (TypeCode(st.rest[..8]) == 0x8001
            || (Ending(inbox) == OtherError && !RefusedType(st.rest) && DiagnosticReached(tls, AfterFailure(inbox)))))
  }

  lemma {:induction false} DiagnosticFirstConcat(fs: seq<Frame>, gs: seq<Frame>)
    ensures DiagnosticFirst(fs + gs) <==>
            DiagnosticFirst(fs) || (NoneRefused(fs) && NoActivation(fs) && DiagnosticFirst(gs))
    decreases |fs|
  {
    if fs == [] {
      assert fs + gs == gs;
    } else {
      assert (fs + gs)[1..] == fs[1..] + gs;
      DiagnosticFirstConcat(fs[1..], gs);
    }
  }

  lemma DiagnosticFirstAround(fs: seq<Frame>, g: Frame, gs: seq<Frame>)
    ensures DiagnosticFirst(fs + [g] + gs) <==>
            DiagnosticFirst(fs) ||
            (NoneRefused(fs) && NoActivation(fs) && !Refused(g)
             && (IsDiagnosticFrame(g) || (!IsActivationFrame(g) && DiagnosticFirst(gs))))
  {
    DiagnosticFirstConcat(fs, [g] + gs);
    assert fs + [g] + gs == fs + ([g] + gs) && ([g] + gs)[1..] == gs;
  }

  lemma FilledType(env: Env, t: seq<byte>)
    requires Truncated(t) && InHugePayload(t)
    ensures IsDiagnosticFrame(Filled(env, t)) <==> TypeCode(t[..8]) == 0x8001
    ensures IsActivationFrame(Filled(env, t)) ==> RefusedType(t)
    ensures Refused(Filled(env, t)) <==> RefusedType(t)
  {
    FilledRefused(env, t);
  }

  lemma ReachedStep(env: Env, fs: seq<Frame>, t: seq<byte>, gs: seq<Frame>)
    requires Truncated(t) && InHugePayload(t)
    ensures DiagnosticFirst(fs + [Filled(env, t)] + gs) <==>
            DiagnosticFirst(fs) ||
            (NoneRefused(fs) && NoActivation(fs)
             && (TypeCode(t[..8]) == 0x8001 || (!RefusedType(t) && DiagnosticFirst(gs))))
  {
    FilledType(env, t);
    DiagnosticFirstAround(fs, Filled(env, t), gs);
  }

  lemma {:induction false} ReachedBytes(env: Env, tls: bool, inbox: seq<Read>)
    ensures var t := Taken(env, tls, inbox);
            DiagnosticFirst(t.frames + Tail(t.tail)) <==> DiagnosticReached(tls, inbox)
    decreases Size(inbox)
  {
    var st, t := Split(Arrived(inbox)), Taken(env, tls, inbox);
    if !Mistaken(tls, inbox) {
      assert t.frames + Tail(t.tail) == st.frames;
    } else if Ending(inbox) == FatalError {
      assert t.frames + Tail(t.tail) == st.frames + [Filled(env, st.rest)] + [];
      ReachedStep(env, st.frames, st.rest, []);
    } else {
      var u := Taken(env, tls, AfterFailure(inbox));
      assert t.frames + Tail(t.tail) == st.frames + [Filled(env, st.rest)] + (u.frames + Tail(u.tail));
      ReachedStep(env, st.frames, st.rest, u.frames + Tail(u.tail));
      ReachedBytes(env, tls, AfterFailure(inbox));
    }
  }

  /** For every input: the example server uses the unset address on a new connection if and only
      if the bytes make it handle a diagnostic message before the first activation. */
  lemma ExampleUsesUnset(env: Env, tls: bool, gateway: uint16, inbox: seq<Read>)
    requires IsExample(env)
    ensures UnsetAddress in Run(env, Accepted(tls, gateway), inbox).0.trace <==> DiagnosticReached(tls, inbox)
  {
    var t := Taken(env, tls, inbox);
    UnsetAddressUsed(env, tls, gateway, inbox);
    ExampleUses(env, [], t.frames + Tail(t.tail));
    ReachedBytes(env, tls, inbox);
  }

  /** One such input is a plain diagnostic message as the first thing a client sends. */
  lemma MessageBeforeActivation(env: Env, gateway: uint16)
    requires IsExample(env)
    ensures var message := [0x02, 0xFD, 0x80, 0x01, 0, 0, 0, 5, 0x0E, 0x00, 0x12, 0x34, 0x3E];
            UnsetAddress in Run(env, Accepted(false, gateway), [Chunk(message)]).0.trace
  {
    var message := [0x02, 0xFD, 0x80, 0x01, 0, 0, 0, 5, 0x0E, 0x00, 0x12, 0x34, 0x3E];
    var inbox := [Chunk(message)];
    assert inbox[1..] == [];
    assert Arrived(inbox) == message;
    var h := message[..8];
    assert h == [0x02, 0xFD, 0x80, 0x01, 0, 0, 0, 5];
    assert Parse(h) == Action(DiagnosticMessage, None, 5);
    SplitStep(message);
    ExampleUsesUnset(env, false, gateway, inbox);
  }

  /** Another needs no complete message: over TLS, a header and a failing read. */
  lemma HeaderBeforeActivation(env: Env, gateway: uint16, why: Failure)
    requires IsExample(env) && why != EndOfStream
    ensures var header := [0x02, 0xFD, 0x80, 0x01, 0xFF, 0xFF, 0xFF, 0xFF];
            UnsetAddress in Run(env, Accepted(true, gateway), [Chunk(header), Failed(why)]).0.trace
  {
    var header := [0x02, 0xFD, 0x80, 0x01, 0xFF, 0xFF, 0xFF, 0xFF];
    var inbox := [Chunk(header), Failed(why)];
    assert inbox[1..] == [Failed(why)] && Ending([Failed(why)]) == why && Arrived([Failed(why)]) == [];
    assert Arrived(inbox) == header && Ending(inbox) == why;
    assert header[..8] == header;
    assert Parse(header) == Action(DiagnosticMessage, None, 0xFFFF_FFFF);
    assert Split(header) == Stream([], header);
    ExampleUsesUnset(env, true, gateway, inbox);
  }
}
