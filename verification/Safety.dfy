/** What holds of the trace of every run, whatever bytes arrive and however they end. */
module Safety {
  import opened Bytes
  import opened GenericHeader
  import opened DiagnosticMessages
  import opened RoutingActivation
  import opened Trace
  import opened ConnectionSpec
  import opened Frames

  // ---------- Trace properties ----------

  predicate IsClose(e: Event) {
    e.Closed?
  }

  predicate IsTimerStart(e: Event) {
    e.TimerStarted?
  }

  predicate IsNotification(e: Event) {
    e.Notified?
  }

  /** A positive routing activation response, recognised by its bytes. */
  predicate IsActivation(e: Event) {
    e.Sent? && e.kind == ActivationReply && |e.wire| == 17 && e.wire[12] == SUCCESSFULLY_ROUTED
  }

  /** The client address in the most recent positive activation response. */
  function LastActivated(t: seq<Event>): Option<Addr> {
    var k := Keep(IsActivation, t);
    if k == [] then None
    else
      var e := k[|k| - 1];
      assert IsActivation(e);
      Some(Addr(e.wire[8], e.wire[9]))
  }

  /** The last callback before position `i` notified the application of this target. */
  predicate Announced(t: seq<Event>, i: nat, target: uint16)
    requires i <= |t|
  {
    var k := Keep(IsCallback, t[..i]);
    k != [] && k[|k| - 1] == Notified(target)
  }

  predicate IsAppMessage(e: Event) {
    e.Sent? && (e.kind == AckReply || e.kind == DiagnosticReply)
  }

  /** A delivery carries the address of the last positive activation, a tester address, and
      follows the notification for its own target. The application's messages need an activation
      before them, and the unset address is used exactly where there is none. */
  predicate Rightly(t: seq<Event>, i: nat)
    requires i < |t|
  {
    && (t[i].Delivered? ==>
          && LastActivated(t[..i]) == Some(t[i].source)
          && IsTesterAddress(AddrValue(t[i].source))
          && Announced(t, i, t[i].target))
    && (IsAppMessage(t[i]) ==> LastActivated(t[..i]).Some?)
    && (t[i] == UnsetAddress ==> LastActivated(t[..i]).None?)
  }

  predicate Disciplined(t: seq<Event>) {
    forall i :: 0 <= i < |t| ==> Rightly(t, i)
  }

  /** The routed address is what the responses say, and a tester's. */
  predicate RoutedInv(c: Core) {
    && c.routed == LastActivated(c.trace)
    && (c.routed.Some? ==> IsTesterAddress(AddrValue(c.routed.value)))
    && Disciplined(c.trace)
  }

  /** The connection was closed once if it is closed; its timer was started once if it is active,
      and not before an activation. */
  predicate CountInv(c: Core) {
    && |Keep(IsClose, c.trace)| == (if c.open then 0 else 1)
    && |Keep(IsTimerStart, c.trace)| == (if c.timer.active then 1 else 0)
    && (c.timer.active ==> c.routed.Some?)
    && (c.tls ==> c.open)
  }

  /** Event `i` is a write, made before the close, that failed fatally. */
  predicate FatalAt(env: Env, t: seq<Event>, i: nat)
    requires i < |t|
  {
    t[i].Sent? && Keep(IsClose, t[..i]) == [] && env.write(t[..i], t[i].wire).WriteFatal?
  }

  predicate FatalWrite(env: Env, t: seq<Event>) {
    exists i :: 0 <= i < |t| && FatalAt(env, t, i)
  }

  /** The connection is or was a TLS connection. */
  predicate OverTls(c: Core) {
    if c.open then c.tls else Closed(PlainClose) !in c.trace
  }

  /** OpenSSL has reported a fatal error if and only if a read failed fatally, which is what
      skips SSL_shutdown, or a write did. */
  predicate ErrorInv(env: Env, c: Core) {
    c.tlsError <==> Closed(AbruptClose) in c.trace || (OverTls(c) && FatalWrite(env, c.trace))
  }

  predicate Inv(env: Env, c: Core) {
    RoutedInv(c) && CountInv(c) && ErrorInv(env, c)
  }

  // ---------- One event at a time ----------

  lemma LogDisciplined(t: seq<Event>, e: Event)
    requires Disciplined(t)
    requires e.Delivered? ==>
               LastActivated(t) == Some(e.source) && IsTesterAddress(AddrValue(e.source)) && Announced(t, |t|, e.target)
    requires IsAppMessage(e) ==> LastActivated(t).Some?
    requires e == UnsetAddress ==> LastActivated(t).None?
    ensures Disciplined(t + [e])
  {
    var u := t + [e];
    forall i | 0 <= i < |u| ensures Rightly(u, i) {
      if i < |t| {
        assert u[..i] == t[..i];
        assert Rightly(t, i);
      } else {
        assert u[..i] == t == t[..|t|];
      }
    }
  }

  function ActivatedBy(e: Event): Addr
    requires IsActivation(e)
  {
    Addr(e.wire[8], e.wire[9])
  }

  /** What a step from `c` to `d` that appends one event owes to the invariant. */
  predicate Appends(env: Env, c: Core, e: Event, d: Core) {
    && d.trace == c.trace + [e]
    && (if IsActivation(e)
        then d.routed == Some(ActivatedBy(e)) && IsTesterAddress(AddrValue(ActivatedBy(e)))
        else d.routed == c.routed)
    && (e.Delivered? ==> c.routed == Some(e.source) && Announced(c.trace, |c.trace|, e.target))
    && (IsAppMessage(e) ==> c.routed.Some?)
    && (e == UnsetAddress ==> c.routed.None?)
    && (if IsClose(e) then c.open && !d.open else d.open == c.open)
    && (if IsTimerStart(e) then !c.timer.active && d.timer.active && d.routed.Some?
        else d.timer.active == c.timer.active)
    && (if IsClose(e) then !d.tls && (e.mode.PlainClose? <==> !c.tls) else d.tls == c.tls)
    && (d.tlsError <==>
        c.tlsError || e == Closed(AbruptClose) || (c.tls && e.Sent? && env.write(c.trace, e.wire).WriteFatal?))
  }

  lemma AppendRouted(env: Env, c: Core, e: Event, d: Core)
    requires RoutedInv(c) && Appends(env, c, e, d)
    ensures RoutedInv(d)
  {
    LogDisciplined(c.trace, e);
    KeepSnoc(IsActivation, c.trace, e);
  }

  lemma AppendCounts(env: Env, c: Core, e: Event, d: Core)
    requires CountInv(c) && Appends(env, c, e, d)
    ensures CountInv(d)
  {
    KeepSnoc(IsClose, c.trace, e);
    KeepSnoc(IsTimerStart, c.trace, e);
  }

  lemma FatalWriteSnoc(env: Env, t: seq<Event>, e: Event)
    ensures FatalWrite(env, t + [e]) <==>
            FatalWrite(env, t) || (e.Sent? && Keep(IsClose, t) == [] && env.write(t, e.wire).WriteFatal?)
  {
    var u := t + [e];
    forall i | 0 <= i < |t| ensures FatalAt(env, u, i) <==> FatalAt(env, t, i) {
      assert u[..i] == t[..i];
    }
    assert u[..|t|] == t;
    assert FatalAt(env, u, |t|) <==> e.Sent? && Keep(IsClose, t) == [] && env.write(t, e.wire).WriteFatal?;
  }

  lemma OverTlsStays(env: Env, c: Core, e: Event, d: Core)
    requires CountInv(c) && Appends(env, c, e, d)
    ensures OverTls(d) <==> OverTls(c)
  {
    if c.open {
      KeepEmpty(IsClose, c.trace);
    }
  }

  lemma AppendErrors(env: Env, c: Core, e: Event, d: Core)
    requires CountInv(c) && ErrorInv(env, c) && Appends(env, c, e, d)
    ensures ErrorInv(env, d)
  {
    FatalWriteSnoc(env, c.trace, e);
    OverTlsStays(env, c, e, d);
  }

  lemma AppendInv(env: Env, c: Core, e: Event, d: Core)
    requires Inv(env, c) && Appends(env, c, e, d)
    ensures Inv(env, d)
  {
    AppendRouted(env, c, e, d);
    AppendCounts(env, c, e, d);
    AppendErrors(env, c, e, d);
  }

  lemma LogInv(env: Env, c: Core, e: Event)
    requires Inv(env, c) && !IsClose(e) && !e.Sent? && !e.Delivered? && !e.TimerStarted?
    requires e == UnsetAddress ==> c.routed.None?
    ensures Inv(env, Log(c, e))
  {
    AppendInv(env, c, e, Log(c, e));
  }

  lemma SendInv(env: Env, c: Core, kind: SendKind, wire: seq<byte>)
    requires Inv(env, c) && !IsActivation(Sent(kind, wire)) && !IsAppMessage(Sent(kind, wire))
    ensures Inv(env, Send(env, c, kind, wire))
  {
    AppendInv(env, c, Sent(kind, wire), Send(env, c, kind, wire));
  }

  lemma CloseInv(env: Env, c: Core)
    requires Inv(env, c)
    ensures Inv(env, CloseSocket(c, false))
  {
    if c.open {
      AppendInv(env, c, Closed(if c.tls then ShutdownClose else PlainClose), CloseSocket(c, false));
    }
  }

  lemma AfterReadInv(env: Env, c: Core, failure: Option<Failure>)
    requires Inv(env, c)
    ensures Inv(env, AfterRead(c, failure))
  {
    if c.tls && failure == Some(FatalError) {
      AppendInv(env, c, Closed(AbruptClose), AfterRead(c, failure));
    }
  }

  lemma FinishInv(env: Env, c: Core, why: Failure)
    requires Inv(env, c)
    ensures Inv(env, Finish(c, why))
  {
    AfterReadInv(env, c, Some(why));
    CloseInv(env, AfterRead(c, Some(why)));
  }

  // ---------- Reactions ----------

  lemma AppSendInv(env: Env, c: Core, kind: SendKind, wire: seq<byte>)
    requires Inv(env, c) && c.routed.Some? && (kind == AckReply || kind == DiagnosticReply)
    ensures var d := Send(env, c, kind, wire);
            Inv(env, d) && Keep(IsCallback, d.trace) == Keep(IsCallback, c.trace)
  {
    AppendInv(env, c, Sent(kind, wire), Send(env, c, kind, wire));
    KeepSnoc(IsCallback, c.trace, Sent(kind, wire));
  }

  lemma DoInv(env: Env, c: Core, call: AppCall)
    requires Inv(env, c)
    ensures var d := Do(env, c, call);
            Inv(env, d) && Keep(IsCallback, d.trace) == Keep(IsCallback, c.trace)
  {
    if c.routed.None? {
      LogInv(env, c, UnsetAddress);
      KeepSnoc(IsCallback, c.trace, UnsetAddress);
    } else {
      match call {
        case SendAck(source, positive, code) =>
          AppSendInv(env, c, AckReply, AckWire(positive, source, c.routed.value, code));
        case SendPayload(source, data) =>
          AppSendInv(env, c, DiagnosticReply, MessageWire(source, c.routed.value, data));
      }
    }
  }

  lemma {:induction false} PerformInv(env: Env, c: Core, calls: seq<AppCall>)
    requires Inv(env, c)
    ensures var d := Perform(env, c, calls);
            Inv(env, d) && Keep(IsCallback, d.trace) == Keep(IsCallback, c.trace)
    decreases |calls|
  {
    if calls != [] {
      DoInv(env, c, calls[0]);
      PerformInv(env, Do(env, c, calls[0]), calls[1..]);
    }
  }

  lemma ActivateInv(env: Env, c: Core, payload: seq<byte>)
    requires Inv(env, c) && |payload| >= 3
    ensures Inv(env, Activate(env, c, payload).core)
  {
    var code := ActivationCode(payload);
    var client := Addr(payload[0], payload[1]);
    var wire := ResponseWire(c.gateway, client, code);
    assert wire[12] == code && wire[8] == client.hi && wire[9] == client.lo;
    var c1 := Send(env, c, ActivationReply, wire);
    if code == SUCCESSFULLY_ROUTED {
      var c2 := c1.(routed := Some(client));
      AppendInv(env, c, Sent(ActivationReply, wire), c2);
      if !c2.timer.active && !c2.timer.disabled {
        AppendInv(env, c2, TimerStarted, StartTimer(env, c2));
      }
    } else {
      SendInv(env, c, ActivationReply, wire);
      CloseInv(env, c1);
    }
  }

  lemma PassInv(env: Env, c: Core, payload: seq<byte>)
    requires Inv(env, c) && 5 <= |payload| < 0x1_0000_0000
    requires Announced(c.trace, |c.trace|, Value16(payload[2], payload[3]))
    ensures Inv(env, Pass(env, c, payload))
  {
    var length := ToInt32(|payload|);
    if length >= MINIMUM_LENGTH {
      if c.routed.None? {
        LogInv(env, c, UnsetAddress);
      } else {
        var p := ParseMessage(c.routed.value, payload, length).delivery;
        if p.Some? {
          var d := Delivered(Addr(payload[0], payload[1]), p.value.target, p.value.data);
          AppendInv(env, c, d, Log(c, d));
          PerformInv(env, Log(c, d), env.deliver(Keep(IsCallback, c.trace), p.value.target, p.value.data));
        }
      }
    }
  }

  lemma AnnouncedNow(t: seq<Event>, k: seq<Event>, target: uint16)
    requires Keep(IsCallback, t) == k + [Notified(target)]
    ensures Announced(t, |t|, target)
  {
    assert t[..|t|] == t;
  }

  lemma NotifyInv(env: Env, c: Core, target: uint16)
    requires Inv(env, c)
    ensures var d := Notify(env, c, target);
            Inv(env, d) && Announced(d.trace, |d.trace|, target)
  {
    var d := Notify(env, c, target);
    LogInv(env, c, Notified(target));
    KeepSnoc(IsCallback, c.trace, Notified(target));
    PerformInv(env, Log(c, Notified(target)), env.notify(Keep(IsCallback, c.trace), target).calls);
    AnnouncedNow(d.trace, Keep(IsCallback, c.trace), target);
  }

  lemma DiagnoseInv(env: Env, c: Core, payload: seq<byte>)
    requires Inv(env, c) && 5 <= |payload| < 0x1_0000_0000
    ensures Inv(env, Diagnose(env, c, payload))
  {
    var target := Value16(payload[2], payload[3]);
    NotifyInv(env, c, target);
    if env.notify(Keep(IsCallback, c.trace), target).accept {
      PassInv(env, Notify(env, c, target), payload);
    }
  }

  lemma TouchInv(env: Env, c: Core)
    requires Inv(env, c)
    ensures Inv(env, Touch(env, c))
  {
    LogInv(env, c, TimerReset);
  }

  lemma ReactInv(env: Env, c: Core, a: Action, payload: seq<byte>)
    requires Inv(env, c) && Safe(a, payload)
    ensures Inv(env, React(env, c, a, payload).core)
  {
    match a.typ {
      case NegativeAck =>
        var wire := NackWire(a.value.value);
        SendInv(env, c, NackReply, wire);
        CloseInv(env, Send(env, c, NackReply, wire));
      case RoutingActivationRequest => ActivateInv(env, c, payload);
      case AliveCheckResponse =>
      case DiagnosticMessage => DiagnoseInv(env, c, payload);
      case t => LogInv(env, c, Unhandled(t));
    }
  }

  lemma HandleInv(env: Env, c: Core, h: seq<byte>, payload: seq<byte>)
    requires Inv(env, c) && |h| >= 8 && |payload| == Parse(h).payloadLength
    ensures Inv(env, Handle(env, c, h, payload).core)
  {
    ParsedIsSafe(h, payload);
    TouchInv(env, c);
    ReactInv(env, Touch(env, c), Parse(h), payload);
  }

  // ---------- Whole runs ----------

  lemma PayloadCore(env: Env, c: Core, inbox: seq<Read>, n: uint32)
    ensures var d, c1 := ReceivePayload(env, c, inbox, n).core, AfterRead(c, ReadExact(inbox, n).failure);
            d == c || d == c1 || d == CloseSocket(c1, false)
  {
  }

  lemma PayloadInv(env: Env, c: Core, inbox: seq<Read>, n: uint32)
    requires Inv(env, c)
    ensures Inv(env, ReceivePayload(env, c, inbox, n).core)
  {
    var c1 := AfterRead(c, ReadExact(inbox, n).failure);
    PayloadCore(env, c, inbox, n);
    AfterReadInv(env, c, ReadExact(inbox, n).failure);
    CloseInv(env, c1);
  }

  lemma ReceiveInv(env: Env, c: Core, inbox: seq<Read>)
    requires Inv(env, c)
    ensures Inv(env, ReceiveMessage(env, c, inbox).core)
  {
    var g := ReadExact(inbox, HEADER_LENGTH);
    var h := ReceiveHeader(c, inbox);
    if h.None? {
      AfterReadInv(env, c, g.failure);
      CloseInv(env, AfterRead(c, g.failure));
    } else {
      var a := Parse(h.value);
      var b := ReceivePayload(env, c, g.rest, a.payloadLength);
      PayloadInv(env, c, g.rest, a.payloadLength);
      if b.payload.Some? {
        HandleInv(env, b.core, h.value, b.payload.value);
      }
    }
  }

  /** Routing safety, the order of callbacks and the single close hold in every run, including
      runs in which a truncated frame is dispatched. */
  lemma {:induction false} RunInv(env: Env, c: Core, inbox: seq<Read>)
    requires Inv(env, c)
    ensures Inv(env, Run(env, c, inbox).0)
    decreases Size(inbox), c.open
  {
    if c.open {
      var m := ReceiveMessage(env, c, inbox);
      ReceiveInv(env, c, inbox);
      RunInv(env, m.core, m.inbox);
    }
  }

  /** The state of a connection that has just been accepted. */
  function Accepted(tls: bool, gateway: uint16): Core {
    Core(true, tls, gateway, None, TimerState(false, false, false, 0), false, [])
  }

  lemma AcceptedInv(env: Env, tls: bool, gateway: uint16)
    ensures Inv(env, Accepted(tls, gateway))
  {
  }

  /** What OpenSSL has reported by the end of a run. */
  lemma RunErrors(env: Env, tls: bool, gateway: uint16, inbox: seq<Read>)
    ensures ErrorInv(env, Run(env, Accepted(tls, gateway), inbox).0)
  {
    AcceptedInv(env, tls, gateway);
    RunInv(env, Accepted(tls, gateway), inbox);
  }

  /** Every delivery has its own notification. */
  lemma {:induction false} DeliveriesBounded(t: seq<Event>)
    requires Disciplined(t)
    ensures var d, n, k := |Keep(IsDelivery, t)|, |Keep(IsNotification, t)|, Keep(IsCallback, t);
            d <= n && (k != [] && k[|k| - 1].Notified? ==> d < n)
    decreases |t|
  {
    if t != [] {
      var s, e := t[..|t| - 1], t[|t| - 1];
      assert t == s + [e];
      forall i | 0 <= i < |s| ensures Rightly(s, i) {
        assert s[..i] == t[..i] && Rightly(t, i);
      }
      DeliveriesBounded(s);
      assert Rightly(t, |s|);
      KeepSnoc(IsDelivery, s, e);
      KeepSnoc(IsNotification, s, e);
      KeepSnoc(IsCallback, s, e);
    }
  }

  /** Everything that is true of every connection from the moment it is accepted, whatever
      arrives on it: one close, at most one timer start, deliveries only of messages that carry
      the address of the last positive activation, and never more of them than notifications. */
  lemma ConnectionSafety(env: Env, tls: bool, gateway: uint16, inbox: seq<Read>)
    ensures var r := Run(env, Accepted(tls, gateway), inbox).0;
            && |Keep(IsClose, r.trace)| == 1
            && |Keep(IsTimerStart, r.trace)| <= 1
            && Disciplined(r.trace)
            && |Keep(IsDelivery, r.trace)| <= |Keep(IsNotification, r.trace)|
  {
    RunInv(env, Accepted(tls, gateway), inbox);
    DeliveriesBounded(Run(env, Accepted(tls, gateway), inbox).0.trace);
  }
}
