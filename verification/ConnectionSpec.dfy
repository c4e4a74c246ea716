/** The server side of one connection as functions on its state (DoIPConnection.cpp). */
module ConnectionSpec {
  import opened Bytes
  import opened GenericHeader
  import opened DiagnosticMessages
  import opened RoutingActivation
  import opened Trace

  datatype TimerState = TimerState(active: bool, disabled: bool, timeout: bool, startTime: int)

  /** `tlsError` records whether OpenSSL has reported a fatal error; the source keeps no such field. */
  datatype Core = Core(
    open: bool,
    tls: bool,
    gateway: uint16,
    routed: Option<Addr>,
    timer: TimerState,
    tlsError: bool,
    trace: seq<Event>)

  function Log(c: Core, e: Event): Core {
    c.(trace := c.trace + [e])
  }

  // ---------- Closing and sending ----------

  function CloseSocket(c: Core, skipShutdown: bool): Core {
    if !c.open then c
    else
      var mode := if !c.tls then PlainClose else if skipShutdown then AbruptClose else ShutdownClose;
      Log(c, Closed(mode)).(open := false, tls := false)
  }

  function Send(env: Env, c: Core, kind: SendKind, wire: seq<byte>): Core {
    Log(c, Sent(kind, wire)).(tlsError := c.tlsError || (c.tls && env.write(c.trace, wire) == WriteFatal))
  }

  function SendCode(env: Env, c: Core, wire: seq<byte>): int {
    match env.write(c.trace, wire)
    case Wrote(n) => if c.tls && n == 0 then -1 else n
    case _ => -1
  }

  function NackWire(code: byte): (w: seq<byte>)
    ensures |w| == 9
  {
    HeaderWire(NegativeAck, NACK_LENGTH) + [code]
  }

  // ---------- Application calls ----------

  function Do(env: Env, c: Core, call: AppCall): Core {
    if c.routed.None? then Log(c, UnsetAddress)
    else match call
      case SendAck(source, positive, code) =>
        Send(env, c, AckReply, AckWire(positive, source, c.routed.value, code))
      case SendPayload(source, data) =>
        Send(env, c, DiagnosticReply, MessageWire(source, c.routed.value, data))
  }

  function Perform(env: Env, c: Core, calls: seq<AppCall>): Core
    decreases |calls|
  {
    if calls == [] then c else Perform(env, Do(env, c, calls[0]), calls[1..])
  }

  // ---------- Reaction to one message ----------

  /** Every index the handlers use is inside the payload. */
  predicate Safe(a: Action, payload: seq<byte>) {
    && |payload| == a.payloadLength
    && (a.typ.NegativeAck? ==> a.value.Some?)
    && (a.typ.RoutingActivationRequest? ==> |payload| >= 3)
    && (a.typ.DiagnosticMessage? ==> |payload| >= 5)
  }

  datatype Outcome = Outcome(core: Core, code: int)

  function StartTimer(env: Env, c: Core): Core {
    if c.timer.disabled then c
    else Log(c, TimerStarted).(timer := c.timer.(active := true, startTime := env.clock(c.trace)))
  }

  function Touch(env: Env, c: Core): Core {
    if c.timer.active then Log(c, TimerReset).(timer := c.timer.(startTime := env.clock(c.trace))) else c
  }

  function Activate(env: Env, c: Core, payload: seq<byte>): Outcome
    requires |payload| >= 3
  {
    var code := ActivationCode(payload);
    var client := Addr(payload[0], payload[1]);
    var wire := ResponseWire(c.gateway, client, code);
    var c1 := Send(env, c, ActivationReply, wire);
    if code == UNKNOWN_SOURCE_ADDRESS || code == UNSUPPORTED_ROUTING_TYPE
    then Outcome(CloseSocket(c1, false), -1)
    else
      var c2 := c1.(routed := Some(client));
      Outcome(if c2.timer.active then c2 else StartTimer(env, c2), SendCode(env, c, wire))
  }

  function Pass(env: Env, c: Core, payload: seq<byte>): Core
    requires |payload| >= 5
    requires |payload| < 0x1_0000_0000
  {
    var length := ToInt32(|payload|);
    if length < MINIMUM_LENGTH then c
    else if c.routed.None? then Log(c, UnsetAddress)
    else match ParseMessage(c.routed.value, payload, length).delivery
      case None => c
      case Some(d) =>
        Perform(env, Log(c, Delivered(Addr(payload[0], payload[1]), d.target, d.data)),
                env.deliver(Keep(IsCallback, c.trace), d.target, d.data))
  }

  /** The notification and whatever the application sends from inside it. */
  function Notify(env: Env, c: Core, target: uint16): Core {
    Perform(env, Log(c, Notified(target)), env.notify(Keep(IsCallback, c.trace), target).calls)
  }

  function Diagnose(env: Env, c: Core, payload: seq<byte>): Core
    requires |payload| >= 5
    requires |payload| < 0x1_0000_0000
  {
    var target := Value16(payload[2], payload[3]);
    var c1 := Notify(env, c, target);
    if env.notify(Keep(IsCallback, c.trace), target).accept then Pass(env, c1, payload) else c1
  }

  function React(env: Env, c: Core, a: Action, payload: seq<byte>): Outcome
    requires Safe(a, payload)
  {
    match a.typ
    case NegativeAck =>
      var wire := NackWire(a.value.value);
      var c1 := Send(env, c, NackReply, wire);
      if a.value.value == INCORRECT_PATTERN || a.value.value == INVALID_PAYLOAD_LENGTH
      then Outcome(CloseSocket(c1, false), -1)
      else Outcome(c1, SendCode(env, c, wire))
    case RoutingActivationRequest => Activate(env, c, payload)
    case AliveCheckResponse => Outcome(c, 0)
    case DiagnosticMessage => Outcome(Diagnose(env, c, payload), -1)
    case t => Outcome(Log(c, Unhandled(t)), -1)
  }

  // ---------- Reading ----------

  /** Why a read returned no data: orderly end, SSL_ERROR_SYSCALL or SSL_ERROR_SSL, anything else. */
  datatype Failure = EndOfStream | FatalError | OtherError

  /** What one read can hand over: at least one byte, and a count that fits `int`. */
  type Fragment = b: seq<byte> | 0 < |b| <= 0x7FFF_FFFF witness [0]

  /** The input still to come, fragment by fragment. A read never crosses a fragment; after
      the last element the stream is at its end. */
  datatype Read = Chunk(data: Fragment) | Failed(why: Failure)

  /** The bytes that the input can still deliver. */
  function Size(inbox: seq<Read>): nat {
    if inbox == [] then 0
    else (if inbox[0].Chunk? then |inbox[0].data| else 0) + Size(inbox[1..])
  }

  datatype Got = Got(data: seq<byte>, failure: Option<Failure>, rest: seq<Read>)

  function ReadExact(inbox: seq<Read>, n: nat): (g: Got)
    ensures g.failure.None? ==> |g.data| == n && Size(g.rest) + n <= Size(inbox)
    ensures g.failure.Some? ==> |g.data| < n
    ensures Size(g.rest) <= Size(inbox)
    decreases |inbox|
  {
    if n == 0 then Got([], None, inbox)
    else if inbox == [] then Got([], Some(EndOfStream), [])
    else match inbox[0]
      case Failed(why) => Got([], Some(why), inbox[1..])
      case Chunk(b) =>
        if |b| <= n then
          var g := ReadExact(inbox[1..], n - |b|);
          g.(data := b + g.data)
        else
          var r := [Chunk(b[n..])] + inbox[1..];
          assert r[1..] == inbox[1..];
          Got(b[..n], None, r)
  }

  /** What one read takes from the input. */
  function TakeCount(inbox: seq<Read>, n: nat): nat
    requires inbox != [] && inbox[0].Chunk?
  {
    if |inbox[0].data| <= n then |inbox[0].data| else n
  }

  function AfterTake(inbox: seq<Read>, n: nat): seq<Read>
    requires inbox != [] && inbox[0].Chunk?
  {
    if |inbox[0].data| <= n then inbox[1..] else [Chunk(inbox[0].data[n..])] + inbox[1..]
  }

  /** With `pos` bytes of the result `g` in place, `n` more are wanted of what is left. */
  predicate Progress(g: Got, pos: nat, inbox: seq<Read>, n: nat) {
    pos <= |g.data| && ReadExact(inbox, n) == g.(data := g.data[pos..])
  }

  lemma ReadExactStarts(inbox: seq<Read>, n: nat)
    ensures Progress(ReadExact(inbox, n), 0, inbox, n)
  {
    assert ReadExact(inbox, n).data[0..] == ReadExact(inbox, n).data;
  }

  lemma ReadExactTake(inbox: seq<Read>, n: nat)
    requires 0 < n && inbox != [] && inbox[0].Chunk?
    ensures var k := TakeCount(inbox, n);
            && 0 < k <= n && k <= |inbox[0].data|
            && var r := ReadExact(AfterTake(inbox, n), n - k);
               ReadExact(inbox, n) == r.(data := inbox[0].data[..k] + r.data)
  {
    var b := inbox[0].data;
    if |b| <= n {
      assert b[..|b|] == b;
    } else {
      assert b[..n] + [] == b[..n];
    }
  }

  lemma Prefixes(d: seq<byte>, pos: nat, b: seq<byte>, r: seq<byte>)
    requires pos <= |d| && d[pos..] == b + r
    ensures pos + |b| <= |d| && d[pos + |b|..] == r
    ensures forall i :: pos <= i < pos + |b| ==> d[i] == b[i - pos]
  {
    forall i | pos <= i < pos + |b| ensures d[i] == b[i - pos] {
      assert d[i] == d[pos..][i - pos];
    }
    assert d[pos + |b|..] == d[pos..][|b|..];
  }

  /** When `pos` bytes of the loop's result `g` are in place, one read adds the next ones. */
  lemma ReadExactStep(g: Got, pos: nat, inbox: seq<Read>, n: nat)
    requires 0 < n && inbox != [] && inbox[0].Chunk?
    requires Progress(g, pos, inbox, n)
    ensures var k := TakeCount(inbox, n);
            && 0 < k <= n && pos + k <= |g.data|
            && (forall i :: pos <= i < pos + k ==> g.data[i] == inbox[0].data[i - pos])
            && Progress(g, pos + k, AfterTake(inbox, n), n - k)
  {
    var k := TakeCount(inbox, n);
    ReadExactTake(inbox, n);
    Prefixes(g.data, pos, inbox[0].data[..k], ReadExact(AfterTake(inbox, n), n - k).data);
  }

  /** A read that fails ends the loop with what is in place. */
  lemma ReadExactStops(g: Got, pos: nat, inbox: seq<Read>, n: nat)
    requires 0 < n && (inbox == [] || inbox[0].Failed?)
    requires Progress(g, pos, inbox, n)
    ensures pos == |g.data|
    ensures g.failure == Some(if inbox == [] then EndOfStream else inbox[0].why)
    ensures g.rest == if inbox == [] then [] else inbox[1..]
  {
  }

  lemma ReadExactDone(g: Got, pos: nat, inbox: seq<Read>)
    requires Progress(g, pos, inbox, 0)
    ensures pos == |g.data| && g.failure == None && g.rest == inbox
  {
  }

  /** `handle_SSL_read_error` closes on a fatal error, without SSL_shutdown. */
  function AfterRead(c: Core, failure: Option<Failure>): Core {
    if c.tls && failure == Some(FatalError)
    then CloseSocket(c.(tlsError := true), true) else c
  }

  /** What the receive loop returns: over TCP the bytes so far, over TLS 0 or -1. */
  function ReadCode(tls: bool, g: Got): int {
    if g.failure.None? || !tls then |g.data|
    else if g.failure.value.EndOfStream? then 0
    else -1
  }

  datatype Received = Received(core: Core, inbox: seq<Read>, code: int)

  /** A buffer of `n` freshly allocated bytes of which the first were overwritten. */
  function Buffer(env: Env, data: seq<byte>, n: nat): (b: seq<byte>)
    requires |data| <= n
    ensures |b| == n
    ensures forall i :: 0 <= i < |data| ==> b[i] == data[i]
    ensures forall i :: |data| <= i < n ==> b[i] == env.memory(i)
    decreases n - |data|
  {
    if |data| == n then data else Buffer(env, data + [env.memory(|data|)], n)
  }

  lemma ParsedIsSafe(h: seq<byte>, payload: seq<byte>)
    requires |h| >= 8 && |payload| == Parse(h).payloadLength
    ensures Safe(Parse(h), payload)
  {
    Classification(h);
  }

  datatype Body = Body(core: Core, inbox: seq<Read>, payload: Option<seq<byte>>)

  /** The payload of a message, or the close that a failed read leads to. */
  function ReceivePayload(env: Env, c: Core, inbox: seq<Read>, n: uint32): (b: Body)
    ensures Size(b.inbox) <= Size(inbox)
    ensures b.payload.Some? ==> |b.payload.value| == n
  {
    if n == 0 then Body(c, inbox, Some([]))
    else
      var p := ReadExact(inbox, n);
      var c1 := AfterRead(c, p.failure);
      if ToUint32(ReadCode(c.tls, p)) != n then Body(CloseSocket(c1, false), p.rest, None)
      else Body(c1, p.rest, Some(Buffer(env, p.data, n)))
  }

  /** A complete message: restart a running timer, then react. */
  function Handle(env: Env, c: Core, h: seq<byte>, payload: seq<byte>): Outcome
    requires |h| >= 8 && |payload| == Parse(h).payloadLength
  {
    ParsedIsSafe(h, payload);
    React(env, Touch(env, c), Parse(h), payload)
  }

  function HeaderIn(c: Core, g: Got): (h: Option<seq<byte>>)
    requires if g.failure.None? then |g.data| == HEADER_LENGTH else |g.data| < HEADER_LENGTH
    ensures h.Some? ==> h.value == g.data && |g.data| == HEADER_LENGTH && g.failure.None?
  {
    if ToUint32(ReadCode(c.tls, g)) == HEADER_LENGTH && !c.timer.timeout then Some(g.data) else None
  }

  /** The header of the next message, if eight bytes arrived and no timeout was flagged. */
  function ReceiveHeader(c: Core, inbox: seq<Read>): (h: Option<seq<byte>>)
    ensures h.Some? ==> |h.value| == 8 && h.value == ReadExact(inbox, HEADER_LENGTH).data
    ensures h.Some? ==> ReadExact(inbox, HEADER_LENGTH).failure.None?
  {
    HeaderIn(c, ReadExact(inbox, HEADER_LENGTH))
  }

  function ReceiveMessage(env: Env, c: Core, inbox: seq<Read>): (r: Received)
    ensures Size(r.inbox) <= Size(inbox)
    ensures r.core.open ==> Size(r.inbox) + HEADER_LENGTH <= Size(inbox)
  {
    var g := ReadExact(inbox, HEADER_LENGTH);
    var h := ReceiveHeader(c, inbox);
    if h.None? then Received(CloseSocket(AfterRead(c, g.failure), false), g.rest, 0)
    else
      var a := Parse(h.value);
      var b := ReceivePayload(env, c, g.rest, a.payloadLength);
      if b.payload.None? then Received(b.core, b.inbox, 0)
      else
        var o := Handle(env, b.core, h.value, b.payload.value);
        Received(o.core, b.inbox, o.code)
  }

  lemma {:induction false} PerformKeepsTimer(env: Env, c: Core, calls: seq<AppCall>)
    ensures Perform(env, c, calls).timer == c.timer
    decreases |calls|
  {
    if calls != [] {
      PerformKeepsTimer(env, Do(env, c, calls[0]), calls[1..]);
    }
  }

  lemma DiagnoseKeepsTimer(env: Env, c: Core, payload: seq<byte>)
    requires 5 <= |payload| < 0x1_0000_0000
    ensures Diagnose(env, c, payload).timer == c.timer
  {
    var target, length := Value16(payload[2], payload[3]), ToInt32(|payload|);
    var c1 := Notify(env, c, target);
    PerformKeepsTimer(env, Log(c, Notified(target)), env.notify(Keep(IsCallback, c.trace), target).calls);
    if c1.routed.Some? && length >= MINIMUM_LENGTH {
      var p := ParseMessage(c1.routed.value, payload, length).delivery;
      if p.Some? {
        PerformKeepsTimer(env, Log(c1, Delivered(Addr(payload[0], payload[1]), p.value.target, p.value.data)),
                          env.deliver(Keep(IsCallback, c1.trace), p.value.target, p.value.data));
      }
    }
  }

  /** No reaction touches the start time of an active timer. */
  lemma ReactKeepsStart(env: Env, c: Core, a: Action, payload: seq<byte>)
    requires Safe(a, payload)
    ensures c.timer.active ==> React(env, c, a, payload).core.timer == c.timer
  {
    if a.typ.DiagnosticMessage? {
      DiagnoseKeepsTimer(env, c, payload);
    }
  }

  /** The state in which a complete message is handled, if one has arrived. */
  function Arrival(env: Env, c: Core, inbox: seq<Read>): Option<Core> {
    var h := ReceiveHeader(c, inbox);
    if h.None? then None
    else
      var b := ReceivePayload(env, c, ReadExact(inbox, HEADER_LENGTH).rest, Parse(h.value).payloadLength);
      if b.payload.None? then None else Some(b.core)
  }

  /** A complete message restarts an active timer; with a timeout flagged none is handled. */
  lemma ReceiveHeedsTimer(env: Env, c: Core, inbox: seq<Read>)
    ensures var r, arrival := ReceiveMessage(env, c, inbox), Arrival(env, c, inbox);
            && (c.timer.active && arrival.Some? ==> r.core.timer.startTime == env.clock(arrival.value.trace))
            && (c.timer.timeout ==> arrival == None && !r.core.open && r.core.routed == c.routed && r.code == 0)
  {
    var h, arrival := ReceiveHeader(c, inbox), Arrival(env, c, inbox);
    if arrival.Some? {
      var n := Parse(h.value).payloadLength;
      var payload := ReceivePayload(env, c, ReadExact(inbox, HEADER_LENGTH).rest, n).payload.value;
      ParsedIsSafe(h.value, payload);
      ReactKeepsStart(env, Touch(env, arrival.value), Parse(h.value), payload);
    }
  }

  /** The driver: receive while the socket is open. */
  function Run(env: Env, c: Core, inbox: seq<Read>): (r: (Core, seq<Read>))
    ensures !r.0.open
    decreases Size(inbox), c.open
  {
    if !c.open then (c, inbox)
    else
      var m := ReceiveMessage(env, c, inbox);
      Run(env, m.core, m.inbox)
  }
}
