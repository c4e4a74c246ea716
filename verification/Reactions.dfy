/** What the server does with each kind of frame, byte by byte and event by event. */
module Reactions {
  import opened Bytes
  import opened GenericHeader
  import opened DiagnosticMessages
  import opened RoutingActivation
  import opened Trace
  import opened ConnectionSpec
  import opened Frames
  import opened Runs

  // ---------- Parts of the trace ----------

  /** A message that arrives while the timer is active restarts it, before anything else. */
  function Restart(c: Core): seq<Event> {
    if c.timer.active then [TimerReset] else []
  }

  function Ended(c: Core): seq<Event> {
    if c.open then [Closed(if c.tls then ShutdownClose else PlainClose)] else []
  }

  /** What `sendMessage` returns for a write: its count, or -1 for an error and, over TLS, for 0. */
  function Reported(tls: bool, result: WriteResult): int {
    if result.Wrote? && (result.count > 0 || !tls) then result.count else -1
  }

  function NackEvent(code: byte): Event {
    Sent(NackReply, [0x02, 0xFD, 0x00, 0x00, 0, 0, 0, 1, code])
  }

  /** What `c` does is to restart the timer, then `es`; its socket ends up open or not. */
  predicate Does(c: Core, d: Core, es: seq<Event>, open: bool) {
    d.trace == c.trace + Restart(c) + es && d.open == open
  }

  // ---------- Headers that are answered with a negative acknowledgement ----------

  predicate BadLength(h: seq<byte>)
    requires |h| >= 8
  {
    var code, n := TypeCode(h), LengthField(h);
    || (code == 0x0005 && n != 7 && n != 11)
    || (code == 0x0001 && n != 0)
    || (code == 0x0004 && n != 32 && n != 33)
    || (code == 0x8001 && n <= 4)
  }

  lemma NackDone(env: Env, c: Core, a: Action, payload: seq<byte>)
    requires Safe(a, payload) && a.typ.NegativeAck?
    ensures var o, e, wire := React(env, c, a, payload), NackEvent(a.value.value), NackEvent(a.value.value).wire;
            if a.value.value == 0x00 || a.value.value == 0x04
            then o.core.trace == c.trace + [e] + Ended(c) && !o.core.open && o.core.routed == c.routed && o.code == -1
            else o.core.trace == c.trace + [e] && o.core.open == c.open && o.core.routed == c.routed
                 && o.code == Reported(c.tls, env.write(c.trace, wire))
  {
    NackBytes(a.value.value);
  }

  /** The timer is restarted with the reading of the clock when the message is complete. */
  lemma TouchDone(env: Env, c: Core)
    ensures var d := Touch(env, c);
            && d == c.(trace := c.trace + Restart(c), timer := d.timer)
            && d.timer == (if c.timer.active then c.timer.(startTime := env.clock(c.trace)) else c.timer)
            && Ended(d) == Ended(c)
  {
    assert c.trace + [] == c.trace;
  }

  /** A bad pattern is answered with 0x00, a bad length with 0x04, and both close the socket; an
      unknown type is answered with 0x01 and nothing else happens. */
  lemma NackReaction(env: Env, c: Core, f: Frame)
    ensures var o, h := Handle(env, c, f.header, f.payload), f.header;
            && (!Synchronised(h) ==> Does(c, o.core, [NackEvent(0x00)] + Ended(c), false) && o.code == -1)
            && (Synchronised(h) && BadLength(h) ==>
                Does(c, o.core, [NackEvent(0x04)] + Ended(c), false) && o.code == -1)
            && (Unknown(f) ==> Does(c, o.core, [NackEvent(0x01)], c.open)
                               && o.code == Reported(c.tls, env.write(c.trace + Restart(c), NackEvent(0x01).wire)))
            && (!Synchronised(h) || BadLength(h) || Unknown(f) ==> o.core.routed == c.routed)
  {
    ClassificationCodes(f.header);
    ParsedIsSafe(f.header, f.payload);
    TouchDone(env, c);
    var a := Parse(f.header);
    if a.typ.NegativeAck? {
      NackDone(env, Touch(env, c), a, f.payload);
      assert c.trace + Restart(c) + [NackEvent(a.value.value)] + Ended(c)
             == c.trace + Restart(c) + ([NackEvent(a.value.value)] + Ended(c));
    }
  }

  // ---------- Routing activation ----------

  /** The code of the response, from the bytes of the request. */
  function ResponseCode(p: seq<byte>): byte
    requires |p| >= 3
  {
    var address := p[0] as int * 0x100 + p[1];
    if address < 0x0E00 || address > 0x0FFF then 0x00 else if p[2] > 0x01 then 0x06 else 0x10
  }

  function ActivationEvent(gateway: uint16, p: seq<byte>): Event
    requires |p| >= 3
  {
    Sent(ActivationReply, [0x02, 0xFD, 0x00, 0x06, 0, 0, 0, 9, p[0], p[1], gateway / 0x100, gateway % 0x100,
                           ResponseCode(p), 0, 0, 0, 0])
  }

  lemma ActivateDone(env: Env, c: Core, p: seq<byte>)
    requires |p| >= 3
    ensures var o, e := Activate(env, c, p), ActivationEvent(c.gateway, p);
            var starts := !c.timer.active && !c.timer.disabled;
            if ResponseCode(p) == 0x10
            then && o.core.trace == c.trace + [e] + (if starts then [TimerStarted] else [])
                 && o.core.open == c.open && o.core.routed == Some(Addr(p[0], p[1]))
                 && o.core.timer == (if starts then c.timer.(active := true, startTime := env.clock(c.trace + [e]))
                                     else c.timer)
                 && o.code == Reported(c.tls, env.write(c.trace, e.wire))
            else && o.core.trace == c.trace + [e] + Ended(c)
                 && !o.core.open && o.core.routed == c.routed && o.core.timer == c.timer && o.code == -1
  {
    ActivationCodes(p);
    ResponseBytes(c.gateway, Addr(p[0], p[1]), ActivationCode(p));
  }

  predicate IsActivation(f: Frame) {
    var n := LengthField(f.header);
    Synchronised(f.header) && TypeCode(f.header) == 0x0005 && (n == 7 || n == 11)
  }

  /** Every activation request is answered with the seventeen bytes of a response. A request from a
      tester address and of a supported type stores the address and starts the timer, unless it is
      active or disabled; any other closes the socket. */
  lemma ActivationReaction(env: Env, c: Core, f: Frame)
    requires IsActivation(f)
    ensures |f.payload| >= 7
    ensures var o, p, e := Handle(env, c, f.header, f.payload), f.payload, ActivationEvent(c.gateway, f.payload);
            var starts := !c.timer.active && !c.timer.disabled;
            if ResponseCode(p) == 0x10
            then && Does(c, o.core, [e] + (if starts then [TimerStarted] else []), c.open)
                 && o.core.routed == Some(Addr(p[0], p[1]))
                 && (starts ==> o.core.timer.active && o.core.timer.startTime == env.clock(c.trace + [e]))
                 && o.code == Reported(c.tls, env.write(c.trace + Restart(c), e.wire))
            else Does(c, o.core, [e] + Ended(c), false) && o.core.routed == c.routed && o.code == -1
  {
    Classification(f.header);
    ParsedIsSafe(f.header, f.payload);
    TouchDone(env, c);
    ActivateDone(env, Touch(env, c), f.payload);
    var t, e := c.trace + Restart(c), ActivationEvent(c.gateway, f.payload);
    assert t + [e] + Ended(c) == t + ([e] + Ended(c));
    assert t + [e] + [TimerStarted] == t + ([e] + [TimerStarted]);
    assert t + [e] + [] == t + ([e] + []);
    if !c.timer.active {
      assert t == c.trace;
    }
  }

  // ---------- What the application sends ----------

  /** One call of the application, as the bytes it makes the connection write. */
  function AppEvent(client: Addr, call: AppCall): Event {
    match call
    case SendAck(source, positive, code) =>
      Sent(AckReply, [0x02, 0xFD, 0x80, if positive then 0x02 else 0x03, 0, 0, 0, 5,
                      source / 0x100, source % 0x100, client.hi, client.lo, code])
    case SendPayload(source, data) =>
      Sent(DiagnosticReply, [0x02, 0xFD, 0x80, 0x01] + Be32(4 + |data|)
                            + [source / 0x100, source % 0x100, client.hi, client.lo] + data)
  }

  function AppEvents(client: Addr, calls: seq<AppCall>): seq<Event> {
    seq(|calls|, i requires 0 <= i < |calls| => AppEvent(client, calls[i]))
  }

  lemma DoSends(env: Env, c: Core, call: AppCall)
    ensures Do(env, c, call).trace
            == c.trace + [if c.routed.None? then UnsetAddress else AppEvent(c.routed.value, call)]
  {
    if c.routed.Some? {
      match call {
        case SendAck(source, positive, code) => AckBytes(positive, source, c.routed.value, code);
        case SendPayload(source, data) => MessageBytes(source, c.routed.value, data);
      }
    }
  }

  /** The calls an application makes from inside a callback are written in their order. */
  lemma {:induction false} PerformSends(env: Env, c: Core, calls: seq<AppCall>)
    requires c.routed.Some?
    ensures Perform(env, c, calls).trace == c.trace + AppEvents(c.routed.value, calls)
    decreases |calls|
  {
    if calls != [] {
      var d, client := Do(env, c, calls[0]), c.routed.value;
      DoSends(env, c, calls[0]);
      PerformSends(env, d, calls[1..]);
      assert AppEvents(client, calls) == [AppEvent(client, calls[0])] + AppEvents(client, calls[1..]);
    }
  }

  // ---------- Diagnostic messages ----------

  predicate IsDiagnostic(f: Frame) {
    Synchronised(f.header) && TypeCode(f.header) == 0x8001 && LengthField(f.header) > 4
  }

  /** The parser calls back: the message comes from the activated client, and its length is an int. */
  predicate Reaches(client: Addr, p: seq<byte>)
    requires |p| >= 5
  {
    p[0] == client.hi && p[1] == client.lo && |p| <= 0x7FFF_FFFF
  }

  /** After `t`: the notification and what the application sends from inside it. */
  function NotifiedEvents(env: Env, t: seq<Event>, client: Addr, target: uint16): seq<Event> {
    [Notified(target)] + AppEvents(client, env.notify(Keep(IsCallback, t), target).calls)
  }

  /** After `t`: the delivery, if it comes to it, and what the application sends from inside it. */
  function DeliveredEvents(env: Env, t: seq<Event>, client: Addr, p: seq<byte>): seq<Event>
    requires |p| >= 5
  {
    var target := p[2] as int * 0x100 + p[3];
    if !Reaches(client, p) then []
    else [Delivered(client, target, p[4..])] + AppEvents(client, env.deliver(Keep(IsCallback, t), target, p[4..]))
  }

  lemma NotifyDone(env: Env, c: Core, target: uint16)
    requires c.routed.Some?
    ensures var d := Notify(env, c, target);
            d == c.(trace := c.trace + NotifiedEvents(env, c.trace, c.routed.value, target), tlsError := d.tlsError)
  {
    var calls := env.notify(Keep(IsCallback, c.trace), target).calls;
    PerformSends(env, Log(c, Notified(target)), calls);
    PerformKeeps(env, Log(c, Notified(target)), calls);
    assert c.trace + [Notified(target)] + AppEvents(c.routed.value, calls)
           == c.trace + ([Notified(target)] + AppEvents(c.routed.value, calls));
  }

  lemma PassDone(env: Env, c: Core, p: seq<byte>)
    requires c.routed.Some? && 5 <= |p| < 0x1_0000_0000
    ensures Pass(env, c, p).trace == c.trace + DeliveredEvents(env, c.trace, c.routed.value, p)
  {
    var length, client := ToInt32(|p|), c.routed.value;
    assert length == if |p| <= 0x7FFF_FFFF then |p| else |p| - 0x1_0000_0000;
    if length >= 4 {
      MessageVerdict(client, p, length);
      if Reaches(client, p) {
        assert p[4..length] == p[4..];
        var target := Value16(p[2], p[3]);
        var e, calls := Delivered(client, target, p[4..]), env.deliver(Keep(IsCallback, c.trace), target, p[4..]);
        PerformSends(env, Log(c, e), calls);
        assert c.trace + [e] + AppEvents(client, calls) == c.trace + ([e] + AppEvents(client, calls));
      }
    }
  }

  lemma DiagnoseDone(env: Env, c: Core, p: seq<byte>)
    requires c.routed.Some? && 5 <= |p| < 0x1_0000_0000
    ensures var target, client := p[2] as int * 0x100 + p[3], c.routed.value;
            var t := c.trace + NotifiedEvents(env, c.trace, client, target);
            Diagnose(env, c, p).trace
            == if env.notify(Keep(IsCallback, c.trace), target).accept
               then t + DeliveredEvents(env, t, client, p) else t
  {
    var target := Value16(p[2], p[3]);
    NotifyDone(env, c, target);
    PassDone(env, Notify(env, c, target), p);
  }

  /** On an activated connection a diagnostic message is notified, the application's calls are
      written, and if the application accepts a message of the activated client, it is delivered
      with its target and data and the application's next calls are written. */
  lemma DiagnosticReaction(env: Env, c: Core, f: Frame)
    requires IsDiagnostic(f) && c.routed.Some?
    ensures |f.payload| >= 5
    ensures var o, p, client := Handle(env, c, f.header, f.payload), f.payload, c.routed.value;
            var s, target := c.trace + Restart(c), p[2] as int * 0x100 + p[3];
            var t := s + NotifiedEvents(env, s, client, target);
            && o.core.trace == (if env.notify(Keep(IsCallback, s), target).accept
                                then t + DeliveredEvents(env, t, client, p) else t)
            && o.core.open == c.open && o.core.routed == c.routed && o.code == -1
  {
    Classification(f.header);
    ParsedIsSafe(f.header, f.payload);
    TouchDone(env, c);
    DiagnoseDone(env, Touch(env, c), f.payload);
    DiagnoseKeeps(env, Touch(env, c), f.payload);
  }

  // ---------- Everything else ----------

  /** Identification requests and responses of a valid length and diagnostic acknowledgements are
      reported as unhandled, and nothing else happens. */
  lemma OtherReaction(env: Env, c: Core, f: Frame)
    requires Synchronised(f.header)
    requires TypeCode(f.header) in {0x0001, 0x0004, 0x8002, 0x8003} && !BadLength(f.header)
    ensures var o := Handle(env, c, f.header, f.payload);
            Does(c, o.core, [Unhandled(Parse(f.header).typ)], c.open) && o.core.routed == c.routed && o.code == -1
  {
    Classification(f.header);
    ParsedIsSafe(f.header, f.payload);
    TouchDone(env, c);
  }

  /** A receive without a complete message returns 0. */
  lemma IncompleteReturnsZero(env: Env, c: Core, inbox: seq<Read>)
    requires c.open && !c.timer.timeout && Truncated(Arrived(inbox)) && !Mistaken(c.tls, inbox)
    ensures ReceiveMessage(env, c, inbox).code == 0
  {
    HeaderArrives(c, inbox);
    if |Arrived(inbox)| >= 8 {
      PayloadFails(env, c, ReadExact(inbox, HEADER_LENGTH).rest, Parse(Arrived(inbox)[..8]).payloadLength);
    }
  }
}
