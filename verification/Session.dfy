/** A whole client session, end to end. */
module Session {
  import opened Bytes
  import opened GenericHeader
  import opened DiagnosticMessages
  import opened RoutingActivation
  import opened Trace
  import opened ConnectionSpec
  import opened Frames
  import opened Runs
  import opened Closing
  import opened Transparency
  import opened Client

  type UserData = d: AppData | |d| >= 1 witness [0]

  datatype Message = Message(target: Addr, data: UserData)

  // ---------- What the client writes ----------

  function Wire(m: Message): seq<byte> {
    MessageWire(AddrValue(TESTER), m.target, m.data)
  }

  function Wires(ms: seq<Message>): seq<byte> {
    if ms == [] then [] else Wire(ms[0]) + Wires(ms[1..])
  }

  function SessionBytes(ms: seq<Message>): seq<byte> {
    ACTIVATION_REQUEST + Wires(ms)
  }

  /** The bytes of a session: the activation request, then each message under its header. */
  lemma SessionStarts(m: Message)
    ensures SessionBytes([m])
            == [0x02, 0xFD, 0x00, 0x05, 0, 0, 0, 7, 0x0E, 0x00, 0x00, 0, 0, 0, 0]
               + [0x02, 0xFD, 0x80, 0x01] + Be32(4 + |m.data|) + [0x0E, 0x00, m.target.hi, m.target.lo] + m.data
  {
    MessageBytes(AddrValue(TESTER), m.target, m.data);
    assert [m][1..] == [];
    assert Wires([m]) == Wire(m);
  }

  lemma {:induction false} WiresSnoc(ms: seq<Message>, m: Message)
    ensures Wires(ms + [m]) == Wires(ms) + Wire(m)
    decreases |ms|
  {
    if ms == [] {
      assert [m][1..] == [];
    } else {
      assert (ms + [m])[1..] == ms[1..] + [m];
      WiresSnoc(ms[1..], m);
    }
  }

  method SendMessage(client: DoIPClient, m: Message)
    modifies client`tcpSent
    ensures client.tcpSent == old(client.tcpSent) + Wire(m)
  {
    var userData := new byte[|m.data|](i requires 0 <= i < |m.data| => m.data[i]);
    assert userData[..|m.data|] == m.data;
    client.SendDiagnosticMessage(m.target, userData, |m.data|);
  }

  method SendMessages(client: DoIPClient, ms: seq<Message>)
    modifies client`tcpSent
    ensures client.tcpSent == old(client.tcpSent) + Wires(ms)
  {
    ghost var sent := client.tcpSent;
    for i := 0 to |ms|
      invariant client.tcpSent == sent + Wires(ms[..i])
    {
      SendMessage(client, ms[i]);
      WiresSnoc(ms[..i], ms[i]);
      assert ms[..i] + [ms[i]] == ms[..i + 1];
    }
    assert ms[..|ms|] == ms;
  }

  lemma SessionParts(t: seq<byte>, ms: seq<Message>)
    ensures t + ACTIVATION_REQUEST + Wires(ms) == t + SessionBytes(ms)
  {
  }

  /** A client that activates and then sends a list of messages writes exactly these bytes. */
  method SendSession(client: DoIPClient, ms: seq<Message>)
    modifies client`tcpSent
    ensures client.tcpSent == old(client.tcpSent) + SessionBytes(ms)
  {
    client.SendRoutingActivationRequest();
    SendMessages(client, ms);
    SessionParts(old(client.tcpSent), ms);
  }

  // ---------- The same as frames ----------

  function MessageFrame(m: Message): Frame {
    MessageRoundTrip(AddrValue(TESTER), m.target, m.data, TESTER);
    RawFrame(Wire(m)[..8], Wire(m)[8..])
  }

  function MessageFrames(ms: seq<Message>): seq<Frame> {
    if ms == [] then [] else [MessageFrame(ms[0])] + MessageFrames(ms[1..])
  }

  lemma ActivationIsFrame()
    ensures Parse(ACTIVATION_REQUEST[..8]) == Action(RoutingActivationRequest, None, 7)
    ensures ActivationCode(ACTIVATION_REQUEST[8..]) == SUCCESSFULLY_ROUTED
    ensures ACTIVATION_REQUEST[8..][0] == TESTER.hi && ACTIVATION_REQUEST[8..][1] == TESTER.lo
  {
  }

  function ActivationFrame(): Frame {
    ActivationIsFrame();
    RawFrame(ACTIVATION_REQUEST[..8], ACTIVATION_REQUEST[8..])
  }

  function SessionFrames(ms: seq<Message>): seq<Frame> {
    [ActivationFrame()] + MessageFrames(ms)
  }

  lemma {:induction false} MessageFramesConcat(ms: seq<Message>)
    ensures Concat(MessageFrames(ms)) == Wires(ms)
    decreases |ms|
  {
    if ms != [] {
      var fs := MessageFrames(ms);
      assert fs[1..] == MessageFrames(ms[1..]);
      MessageFramesConcat(ms[1..]);
      assert fs[0].header + fs[0].payload == Wire(ms[0]);
    }
  }

  lemma SessionIsFrames(ms: seq<Message>)
    ensures Concat(SessionFrames(ms)) == SessionBytes(ms)
  {
    var fs := SessionFrames(ms);
    MessageFramesConcat(ms);
    assert fs[1..] == MessageFrames(ms);
    assert fs[0].header + fs[0].payload == ACTIVATION_REQUEST;
  }

  // ---------- What the server does ----------

  /** Everything but the application's own messages and the timer. */
  predicate IsProtocol(e: Event) {
    !(e.Sent? && (e.kind == AckReply || e.kind == DiagnosticReply)) && !e.TimerStarted? && !e.TimerReset?
  }

  ghost predicate Accepting(env: Env) {
    forall t, target :: env.notify(t, target).accept
  }

  function DeliveryOf(m: Message): Event {
    Delivered(TESTER, AddrValue(m.target), m.data)
  }

  function ServedEvents(ms: seq<Message>): seq<Event> {
    if ms == [] then [] else [Notified(AddrValue(ms[0].target)), DeliveryOf(ms[0])] + ServedEvents(ms[1..])
  }

  /** An application whose address is set only sends. */
  lemma {:induction false} PerformAdds(env: Env, c: Core, calls: seq<AppCall>)
    requires c.routed.Some?
    ensures Grows(IsProtocol, c.trace, Perform(env, c, calls).trace, [])
    decreases |calls|
  {
    if calls != [] {
      var d := Do(env, c, calls[0]);
      GrowsLog(IsProtocol, c.trace, d.trace[|c.trace|]);
      PerformAdds(env, d, calls[1..]);
    }
  }

  lemma NotifyAdds(env: Env, c: Core, target: uint16)
    requires c.routed.Some?
    ensures var d := Notify(env, c, target);
            && d == c.(trace := d.trace, tlsError := d.tlsError)
            && Grows(IsProtocol, c.trace, d.trace, [Notified(target)])
  {
    var calls := env.notify(Keep(IsCallback, c.trace), target).calls;
    GrowsLog(IsProtocol, c.trace, Notified(target));
    PerformAdds(env, Log(c, Notified(target)), calls);
    PerformKeeps(env, Log(c, Notified(target)), calls);
  }

  lemma PassAdds(env: Env, c: Core, m: Message)
    requires c.routed == Some(TESTER)
    ensures var d := Pass(env, c, MessageFrame(m).payload);
            && d == c.(trace := d.trace, tlsError := d.tlsError)
            && Grows(IsProtocol, c.trace, d.trace, [DeliveryOf(m)])
  {
    var payload := MessageFrame(m).payload;
    MessageRoundTrip(AddrValue(TESTER), m.target, m.data, TESTER);
    var e := DeliveryOf(m);
    var calls := env.deliver(Keep(IsCallback, c.trace), AddrValue(m.target), m.data);
    GrowsLog(IsProtocol, c.trace, e);
    PerformAdds(env, Log(c, e), calls);
    PerformKeeps(env, Log(c, e), calls);
    assert Pass(env, c, payload) == Perform(env, Log(c, e), calls);
  }

  lemma MessageFields(m: Message)
    ensures var p := MessageFrame(m).payload;
            |p| >= 5 && Value16(p[2], p[3]) == AddrValue(m.target)
    ensures Parse(MessageFrame(m).header).typ == DiagnosticMessage
  {
    MessageRoundTrip(AddrValue(TESTER), m.target, m.data, TESTER);
    assert MessageFrame(m).payload == Be16(AddrValue(TESTER)) + [m.target.hi, m.target.lo] + m.data;
  }

  lemma MessageIsDiagnosed(env: Env, c: Core, m: Message)
    requires |MessageFrame(m).payload| >= 5
    ensures Dispatch(env, c, MessageFrame(m)) == Diagnose(env, Touch(env, c), MessageFrame(m).payload)
  {
    MessageFields(m);
  }

  lemma DiagnoseAdds(env: Env, c: Core, m: Message)
    requires Accepting(env) && c.routed == Some(TESTER) && |MessageFrame(m).payload| >= 5
    ensures var d := Diagnose(env, c, MessageFrame(m).payload);
            && d == c.(trace := d.trace, tlsError := d.tlsError)
            && Grows(IsProtocol, c.trace, d.trace, [Notified(AddrValue(m.target)), DeliveryOf(m)])
  {
    MessageFields(m);
    var target := AddrValue(m.target);
    var c1 := Notify(env, c, target);
    NotifyAdds(env, c, target);
    PassAdds(env, c1, m);
    assert env.notify(Keep(IsCallback, c.trace), target).accept;
    var d := Diagnose(env, c, MessageFrame(m).payload);
    assert d == Pass(env, c1, MessageFrame(m).payload);
    GrowsBoth(IsProtocol, c.trace, c1.trace, d.trace, [Notified(target)], [DeliveryOf(m)]);
  }

  /** The state of a served client. */
  predicate Ready(c: Core) {
    c.open && c.routed == Some(TESTER) && !c.timer.timeout
  }

  lemma TouchAdds(env: Env, c: Core)
    ensures Grows(IsProtocol, c.trace, Touch(env, c).trace, [])
  {
    GrowsLog(IsProtocol, c.trace, TimerReset);
  }

  lemma ServeMessage(env: Env, c: Core, m: Message)
    requires Accepting(env) && Ready(c)
    ensures var d := Dispatch(env, c, MessageFrame(m));
            && Ready(d) && d.tls == c.tls && d.gateway == c.gateway
            && Grows(IsProtocol, c.trace, d.trace, [Notified(AddrValue(m.target)), DeliveryOf(m)])
  {
    MessageFields(m);
    MessageIsDiagnosed(env, c, m);
    TouchAdds(env, c);
    DiagnoseAdds(env, Touch(env, c), m);
  }

  lemma {:induction false} ServeMessages(env: Env, c: Core, ms: seq<Message>)
    requires Accepting(env) && Ready(c)
    ensures var d := DispatchAll(env, c, MessageFrames(ms));
            && Ready(d) && d.tls == c.tls && d.gateway == c.gateway
            && Grows(IsProtocol, c.trace, d.trace, ServedEvents(ms))
    decreases |ms|
  {
    if ms != [] {
      var f, rest := MessageFrame(ms[0]), MessageFrames(ms[1..]);
      var c1 := Dispatch(env, c, f);
      ServeMessage(env, c, ms[0]);
      ServeMessages(env, c1, ms[1..]);
      DispatchCons(env, c, f, rest);
      GrowsBoth(IsProtocol, c.trace, c1.trace, DispatchAll(env, c1, rest).trace,
               [Notified(AddrValue(ms[0].target)), DeliveryOf(ms[0])], ServedEvents(ms[1..]));
    }
  }

  function ActivationAnswer(gateway: uint16): Event {
    Sent(ActivationReply, ResponseWire(gateway, TESTER, SUCCESSFULLY_ROUTED))
  }

  lemma ServeActivation(env: Env, c: Core)
    requires c.open && !c.timer.timeout
    ensures var d := Dispatch(env, c, ActivationFrame());
            && Ready(d) && d.tls == c.tls && d.gateway == c.gateway
            && (d.timer.active || c.timer.disabled)
            && Grows(IsProtocol, c.trace, d.trace, [ActivationAnswer(c.gateway)])
  {
    ActivationIsFrame();
    var c1, e := Touch(env, c), ActivationAnswer(c.gateway);
    TouchAdds(env, c);
    GrowsLog(IsProtocol, c1.trace, e);
    GrowsLog(IsProtocol, c1.trace + [e], TimerStarted);
    assert Dispatch(env, c, ActivationFrame()) == Activate(env, c1, ACTIVATION_REQUEST[8..]).core;
  }

  lemma FinishLogs(d: Core, why: Failure)
    requires d.open
    ensures var r := Finish(d, why);
            r.trace == d.trace + [LastClose(d.tls, [], why)] && r.routed == d.routed
  {
  }

  lemma ServeSession(env: Env, c: Core, ms: seq<Message>)
    requires Accepting(env) && c.open && !c.timer.timeout
    ensures var d := DispatchAll(env, c, SessionFrames(ms));
            && Ready(d) && d.tls == c.tls
            && Grows(IsProtocol, c.trace, d.trace, [ActivationAnswer(c.gateway)] + ServedEvents(ms))
  {
    var c1 := Dispatch(env, c, ActivationFrame());
    ServeActivation(env, c);
    DispatchCons(env, c, ActivationFrame(), MessageFrames(ms));
    ServeMessages(env, c1, ms);
    GrowsBoth(IsProtocol, c.trace, c1.trace, DispatchAll(env, c1, MessageFrames(ms)).trace,
             [ActivationAnswer(c.gateway)], ServedEvents(ms));
  }

  /** End to end: for every list of messages, however the client's bytes are cut on the way, over
      TCP or TLS, the server answers one activation with code 0x10, then notifies and delivers
      every message in order with exactly its target and data, and closes at the end of input.
      Apart from what the application sends there is nothing else. */
  lemma SessionEndToEnd(env: Env, c: Core, inbox: seq<Read>, ms: seq<Message>)
    requires Accepting(env) && c.open && !c.timer.timeout
    requires Arrived(inbox) == SessionBytes(ms)
    ensures var r := Run(env, c, inbox).0;
            && Grows(IsProtocol, c.trace, r.trace,
                    [ActivationAnswer(c.gateway)] + ServedEvents(ms) + [LastClose(c.tls, [], Ending(inbox))])
            && r.routed == Some(TESTER)
  {
    var d := DispatchAll(env, c, SessionFrames(ms));
    SessionIsFrames(ms);
    RunOfFrames(env, c, inbox, SessionFrames(ms));
    ServeSession(env, c, ms);
    FinishLogs(d, Ending(inbox));
    GrowsLog(IsProtocol, d.trace, LastClose(c.tls, [], Ending(inbox)));
    GrowsBoth(IsProtocol, c.trace, d.trace, Finish(d, Ending(inbox)).trace,
             [ActivationAnswer(c.gateway)] + ServedEvents(ms), [LastClose(c.tls, [], Ending(inbox))]);
  }

  lemma {:induction false} KeepWithin(p: Event -> bool, q: Event -> bool, t: seq<Event>)
    requires forall e :: p(e) ==> q(e)
    ensures Keep(p, Keep(q, t)) == Keep(p, t)
  {
    if t != [] {
      var head := if q(t[0]) then [t[0]] else [];
      KeepConcat(p, head, Keep(q, t[1..]));
      KeepWithin(p, q, t[1..]);
      assert head != [] ==> head[1..] == [];
    }
  }

  lemma KeepFirst(p: Event -> bool, a: Event, t: seq<Event>)
    ensures Keep(p, [a] + t) == (if p(a) then [a] else []) + Keep(p, t)
  {
    assert ([a] + t)[1..] == t;
  }

  lemma KeepServed(p: Event -> bool, ms: seq<Message>)
    requires ms != []
    ensures var n, d := Notified(AddrValue(ms[0].target)), DeliveryOf(ms[0]);
            Keep(p, ServedEvents(ms))
            == (if p(n) then [n] else []) + ((if p(d) then [d] else []) + Keep(p, ServedEvents(ms[1..])))
  {
    var n, d, rest := Notified(AddrValue(ms[0].target)), DeliveryOf(ms[0]), ServedEvents(ms[1..]);
    KeepFirst(p, n, [d] + rest);
    KeepFirst(p, d, rest);
    assert ServedEvents(ms) == [n] + ([d] + rest);
  }

  function Deliveries(ms: seq<Message>): (ds: seq<Event>)
    ensures |ds| == |ms| && forall i :: 0 <= i < |ms| ==> ds[i] == DeliveryOf(ms[i])
  {
    if ms == [] then [] else [DeliveryOf(ms[0])] + Deliveries(ms[1..])
  }

  lemma {:induction false} DeliveriesServed(ms: seq<Message>)
    ensures Keep(IsDelivery, ServedEvents(ms)) == Deliveries(ms)
    decreases |ms|
  {
    if ms != [] {
      DeliveriesServed(ms[1..]);
      KeepServed(IsDelivery, ms);
    }
  }

  /** In particular the application receives exactly the messages that were sent, in order. */
  lemma DeliveriesAreMessages(ms: seq<Message>)
    ensures var k := Keep(IsDelivery, ServedEvents(ms));
            |k| == |ms| && forall i :: 0 <= i < |ms| ==> k[i] == DeliveryOf(ms[i])
  {
    DeliveriesServed(ms);
  }

  lemma {:induction false} ServedAreCallbacks(ms: seq<Message>)
    ensures Keep(IsCallback, ServedEvents(ms)) == ServedEvents(ms)
    decreases |ms|
  {
    if ms != [] {
      ServedAreCallbacks(ms[1..]);
      KeepServed(IsCallback, ms);
    }
  }

  lemma GrowsWithin(p: Event -> bool, q: Event -> bool, t: seq<Event>, u: seq<Event>, es: seq<Event>)
    requires Grows(q, t, u, es) && forall e :: p(e) ==> q(e)
    ensures Grows(p, t, u, Keep(p, es))
  {
    KeepWithin(p, q, t);
    KeepWithin(p, q, u);
    KeepConcat(p, Keep(q, t), es);
  }

  /** The callbacks among the protocol events of a session are those of its messages. */
  lemma AnsweredCallbacks(a: Event, ms: seq<Message>)
    requires !IsCallback(a)
    ensures Keep(IsCallback, [a] + ServedEvents(ms)) == ServedEvents(ms)
  {
    KeepFirst(IsCallback, a, ServedEvents(ms));
    ServedAreCallbacks(ms);
  }

  lemma ServeUnknownFrames(env: Env, c: Core, fs: seq<Frame>, ms: seq<Message>)
    requires Accepting(env) && c.open && !c.timer.timeout && Known(fs) == SessionFrames(ms)
    ensures var d := DispatchAll(env, c, fs);
            && d.open && d.tls == c.tls && d.routed == Some(TESTER)
            && Grows(IsCallback, c.trace, d.trace, ServedEvents(ms))
            && Nacks(c.trace, d.trace, CountUnknown(fs))
  {
    ServeSession(env, c, ms);
    GrowsWithin(IsCallback, IsProtocol, c.trace, DispatchAll(env, c, SessionFrames(ms)).trace,
                [ActivationAnswer(c.gateway)] + ServedEvents(ms));
    AnsweredCallbacks(ActivationAnswer(c.gateway), ms);
    UnknownFramesAreTransparent(env, c, c, fs);
    DispatchAllServes(env, c, fs);
    assert fs[..|fs|] == fs;
  }

  lemma FinishIsSilent(d: Core, why: Failure)
    requires d.open
    ensures var r := Finish(d, why);
            && Grows(IsCallback, d.trace, r.trace, [])
            && Nacks(d.trace, r.trace, 0)
            && EndsWith(r.trace, LastClose(d.tls, [], why))
            && r.routed == d.routed
  {
    FinishLogs(d, why);
    KeepsBoth(d.trace, LastClose(d.tls, [], why));
  }

  /** Frames the server does not know, such as the client's alive check responses, may be mixed
      into a session at any place and the stream cut in any way: the application is called as
      if they were not there, the client stays activated and the input is read to its end. Each
      of them costs one negative acknowledgement. */
  lemma SessionWithUnknownFrames(env: Env, c: Core, inbox: seq<Read>, fs: seq<Frame>, ms: seq<Message>)
    requires Accepting(env) && c.open && !c.timer.timeout
    requires Arrived(inbox) == Concat(fs) && Known(fs) == SessionFrames(ms)
    ensures var r := Run(env, c, inbox).0;
            && Grows(IsCallback, c.trace, r.trace, ServedEvents(ms))
            && Nacks(c.trace, r.trace, CountUnknown(fs))
            && r.routed == Some(TESTER)
            && EndsWith(r.trace, LastClose(c.tls, [], Ending(inbox)))
  {
    RunOfFrames(env, c, inbox, fs);
    ServeUnknownFrames(env, c, fs, ms);
    FinishIsSilent(DispatchAll(env, c, fs), Ending(inbox));
  }

  lemma AliveCheckResponseIsUnknown(a: Addr)
    ensures var f := RawFrame(HeaderWire(AliveCheckResponse, 2), [a.hi, a.lo]);
            Complete(f) && Unknown(f)
  {
    HeaderRoundTrip(AliveCheckResponse, 2);
    var h := HeaderWire(AliveCheckResponse, 2);
    assert TypeCode(h) == 0x0008;
  }
}
