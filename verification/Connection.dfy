/** The connection object, its alive check timer and its TLS layer, updated in place. */
module Connection {
  import opened Bytes
  import opened GenericHeader
  import opened DiagnosticMessages
  import opened RoutingActivation
  import opened Trace
  import opened ConnectionSpec

  /** A TLS session as OpenSSL sees it. The preconditions are the library's rules: nothing is
      used after SSL_free, and SSL_shutdown does not follow a fatal error of SSL_read. */
  class Tls {
    ghost var freed: bool
    ghost var fatalRead: bool
    ghost var shutdowns: seq<int>
    var lastError: Failure

    constructor ()
      ensures !freed && !fatalRead && shutdowns == []
    {
      freed, fatalRead, shutdowns := false, false, [];
      lastError := EndOfStream;
    }

    /** SSL_read with a non-positive result. */
    method FailRead(why: Failure)
      requires !freed
      modifies `lastError, `fatalRead
      ensures lastError == why
      ensures fatalRead == (old(fatalRead) || why == FatalError)
    {
      lastError := why;
      fatalRead := fatalRead || why == FatalError;
    }

    /** SSL_get_error after a failed call. */
    method GetError() returns (why: Failure)
      requires !freed
      ensures why == lastError
    {
      why := lastError;
    }

    /** SSL_shutdown: 1 when both sides are done, 0 when the peer has not answered, else an error. */
    method Shutdown() returns (ret: int)
      requires !freed && !fatalRead
      modifies `shutdowns
      ensures -1 <= ret <= 1 && shutdowns == old(shutdowns) + [ret]
    {
      ret :| -1 <= ret <= 1;
      shutdowns := shutdowns + [ret];
    }

    method Free()
      requires !freed
      modifies `freed
      ensures freed
    {
      freed := true;
    }
  }

  /** How one close uses SSL_shutdown: not at all, once, or a second time after a result of 0. */
  predicate ShutsDown(before: seq<int>, after: seq<int>, skipShutdown: bool) {
    if skipShutdown then after == before
    else before < after && |after| == |before| + if after[|before|] == 0 then 2 else 1
  }

  /** A connection keeps its TLS session until it lets go of it, freed. */
  ghost predicate Kept(now: Tls?, before: Tls?)
    reads before
  {
    now == before || (now == null && before.freed)
  }

  class AliveCheckTimer {
    var disabled: bool
    var active: bool
    var timeout: bool
    var startTime: int
    var maxSeconds: uint16
    var timerThreads: nat

    constructor ()
      ensures State() == TimerState(false, false, false, 0) && timerThreads == 0
    {
      disabled, active, timeout := false, false, false;
      startTime, maxSeconds, timerThreads := 0, 0, 0;
    }

    ghost function State(): TimerState
      reads this
    {
      TimerState(active, disabled, timeout, startTime)
    }

    method SetTimer(seconds: uint16)
      modifies `maxSeconds
      ensures maxSeconds == seconds
    {
      maxSeconds := seconds;
    }

    method ResetTimer(clock: int)
      modifies `startTime, `active
      ensures startTime == clock && active
    {
      startTime := clock;
      active := true;
    }

    method StartTimer(clock: int)
      modifies `startTime, `active, `timerThreads
      ensures old(disabled) ==> unchanged(this)
      ensures !old(disabled) ==> startTime == clock && active && timerThreads == old(timerThreads) + 1
    {
      if disabled == false {
        ResetTimer(clock);
        timerThreads := timerThreads + 1;
      }
    }
  }

  /** The counter the example application keeps of its open connections. */
  class Application {
    var connectionsCounter: int

    constructor ()
      ensures connectionsCounter == 0
    {
      connectionsCounter := 0;
    }

    method CloseConnection()
      modifies this
      ensures connectionsCounter == old(connectionsCounter) - 1
    {
      connectionsCounter := connectionsCounter - 1;
    }
  }

  class DoIPConnection {
    var clientSock: int
    var ssl: Tls?
    var routedClientAddress: Option<Addr>
    var tlsError: bool
    var trace: seq<Event>
    var inbox: seq<Read>
    const logicalGatewayAddress: uint16
    const timer: AliveCheckTimer
    const env: Env

    /** At most one timer thread exists, and only after the timer became active; the TLS object
        belongs to an open socket, has not been freed and has not failed fatally in a read. */
    ghost predicate Valid()
      reads this, timer, ssl
    {
      && (ssl != null ==> clientSock != 0 && !ssl.freed && !ssl.fatalRead)
      && timer.timerThreads == (if timer.active then 1 else 0)
    }

    ghost function State(): Core
      reads this, timer
    {
      Core(clientSock != 0, ssl != null, logicalGatewayAddress, routedClientAddress,
           timer.State(), tlsError, trace)
    }

    constructor (sock: int, gateway: uint16, tls: Tls?, env: Env, inbox: seq<Read>)
      requires sock != 0
      requires tls != null ==> !tls.freed && !tls.fatalRead
      ensures Valid() && fresh(timer) && this.ssl == tls
      ensures this.env == env && this.inbox == inbox
      ensures State() == Core(true, tls != null, gateway, None, TimerState(false, false, false, 0), false, [])
    {
      clientSock, ssl, routedClientAddress := sock, tls, None;
      logicalGatewayAddress := gateway;
      timer := new AliveCheckTimer();
      this.env, this.inbox := env, inbox;
      tlsError, trace := false, [];
    }

    predicate IsSocketActive()
      reads this
    {
      clientSock != 0
    }

    method Clock() returns (now: int)
      ensures now == env.clock(trace)
    {
      now := env.clock(trace);
    }

    method CloseSocket(skipShutdown: bool)
      requires ssl != null ==> clientSock != 0 && !ssl.freed && (skipShutdown || !ssl.fatalRead)
      modifies this, ssl
      ensures State() == ConnectionSpec.CloseSocket(old(State()), skipShutdown)
      ensures clientSock == 0 && ssl == null && inbox == old(inbox)
      ensures Kept(ssl, old(ssl))
      ensures old(ssl) != null ==> ShutsDown(old(ssl.shutdowns), old(ssl).shutdowns, skipShutdown)
    {
      if IsSocketActive() {
        var mode := PlainClose;
        if ssl != null {
          if !skipShutdown {
            mode := ShutdownClose;
            var ret := ssl.Shutdown();
            if ret == 0 {
              ret := ssl.Shutdown();
            }
            if ret != 1 {
              var _ := ssl.GetError();
            }
          } else {
            mode := AbruptClose;
          }
          ssl.Free();
          ssl := null;
        }
        clientSock := 0;
        trace := trace + [Closed(mode)];
      }
    }

    method HandleSslReadError() returns (code: int)
      requires ssl != null && clientSock != 0 && !ssl.freed
      modifies this, ssl
      ensures Kept(ssl, old(ssl)) && (ssl != null ==> unchanged(ssl))
      ensures old(ssl).shutdowns == old(ssl.shutdowns)
      ensures inbox == old(inbox)
      ensures var why := old(ssl.lastError);
              && code == (if why == EndOfStream then 0 else -1)
              && (ssl == null <==> why == FatalError)
              && State() == if why == FatalError
                            then ConnectionSpec.CloseSocket(old(State()).(tlsError := true), true) else old(State())
    {
      var err := ssl.GetError();
      match err {
        case EndOfStream =>
          return 0;
        case FatalError =>
          tlsError := true;
          CloseSocket(true);
          return -1;
        case OtherError =>
          return -1;
      }
    }

    /** recv or SSL_read: at most `remaining` bytes of the next fragment, or a failure. */
    method ReadSome(receivedData: array<byte>, pos: nat, remaining: nat) returns (readBytes: int)
      requires ssl != null ==> !ssl.freed
      requires 0 < remaining && pos + remaining <= receivedData.Length
      modifies `inbox, receivedData, ssl
      ensures ssl != null ==> !ssl.freed
      ensures readBytes > 0 ==>
                && (ssl != null ==> ssl.fatalRead == old(ssl.fatalRead))
                && old(inbox) != [] && old(inbox)[0].Chunk?
                && readBytes == TakeCount(old(inbox), remaining)
                && inbox == AfterTake(old(inbox), remaining)
                && forall j :: pos <= j < pos + readBytes ==> receivedData[j] == old(inbox)[0].data[j - pos]
      ensures forall i :: 0 <= i < receivedData.Length && !(pos <= i < pos + readBytes)
                          ==> receivedData[i] == old(receivedData[i])
      ensures readBytes <= 0 ==>
                && (old(inbox) != [] ==> old(inbox)[0].Failed? && inbox == old(inbox)[1..])
                && (old(inbox) == [] ==> inbox == [])
                && var why := if old(inbox) == [] then EndOfStream else old(inbox)[0].why;
                   ssl != null ==> ssl.lastError == why && ssl.fatalRead == (old(ssl.fatalRead) || why == FatalError)
    {
      if inbox == [] || inbox[0].Failed? {
        var why := if inbox == [] then EndOfStream else inbox[0].why;
        inbox := if inbox == [] then [] else inbox[1..];
        if ssl != null {
          ssl.FailRead(why);
        }
        return if why == EndOfStream then 0 else -1;
      }
      var b := inbox[0].data;
      readBytes := if |b| <= remaining then |b| else remaining;
      forall i | 0 <= i < readBytes {
        receivedData[pos + i] := b[i];
      }
      inbox := if |b| <= remaining then inbox[1..] else [Chunk(b[remaining..])] + inbox[1..];
    }

    /** The first `pos` bytes of a buffer are in place, the others are as they were. */
    ghost static predicate InPlace(receivedData: array<byte>, before: seq<byte>, data: seq<byte>, pos: nat)
      reads receivedData
    {
      && pos <= |data| && pos <= receivedData.Length == |before|
      && (forall i :: 0 <= i < pos ==> receivedData[i] == data[i])
      && (forall i :: pos <= i < receivedData.Length ==> receivedData[i] == before[i])
    }

    /** One pass of the receive loop, seen from the loop's result `g`: with `pos` bytes in place it
        adds the next ones, or there are no more. */
    method ReadNext(receivedData: array<byte>, pos: nat, remaining: nat, ghost g: Got, ghost before: seq<byte>)
      returns (readBytes: int)
      requires ssl != null ==> !ssl.freed
      requires 0 < remaining && pos + remaining <= receivedData.Length
      requires Progress(g, pos, inbox, remaining) && InPlace(receivedData, before, g.data, pos)
      modifies `inbox, receivedData, ssl
      ensures ssl != null ==> !ssl.freed
      ensures readBytes > 0 ==>
                && readBytes <= remaining
                && Progress(g, pos + readBytes, inbox, remaining - readBytes)
                && InPlace(receivedData, before, g.data, pos + readBytes)
                && (ssl != null ==> ssl.fatalRead == old(ssl.fatalRead))
      ensures readBytes <= 0 ==>
                && pos == |g.data| && inbox == g.rest && g.failure.Some?
                && InPlace(receivedData, before, g.data, pos)
                && (ssl != null ==> ssl.lastError == g.failure.value)
                && (ssl != null ==> ssl.fatalRead == (old(ssl.fatalRead) || g.failure == Some(FatalError)))
    {
      ghost var rest := inbox;
      readBytes := ReadSome(receivedData, pos, remaining);
      if readBytes > 0 {
        ReadExactStep(g, pos, rest, remaining);
      } else {
        ReadExactStops(g, pos, rest, remaining);
      }
    }

    /** The receive loop: read until the count is reached or a read fails. */
    method Fill(receivedData: array<byte>, payloadLength: nat) returns (payloadPos: nat)
      requires ssl != null ==> !ssl.freed
      requires payloadLength <= receivedData.Length
      modifies `inbox, receivedData, ssl
      ensures ssl != null ==> !ssl.freed
      ensures var g := ReadExact(old(inbox), payloadLength);
              && payloadPos == |g.data| && inbox == g.rest
              && InPlace(receivedData, old(receivedData[..]), g.data, payloadPos)
              && (ssl != null && g.failure.Some? ==> ssl.lastError == g.failure.value)
              && (ssl != null ==> ssl.fatalRead == (old(ssl.fatalRead) || g.failure == Some(FatalError)))
    {
      payloadPos := 0;
      var remainingPayload: nat := payloadLength;
      ghost var g, before := ReadExact(inbox, payloadLength), receivedData[..];
      ReadExactStarts(inbox, payloadLength);
      while remainingPayload > 0
        invariant payloadPos + remainingPayload == payloadLength
        invariant ssl != null ==> !ssl.freed && ssl.fatalRead == old(ssl.fatalRead)
        invariant Progress(g, payloadPos, inbox, remainingPayload)
        invariant InPlace(receivedData, before, g.data, payloadPos)
        decreases remainingPayload
      {
        var readBytes := ReadNext(receivedData, payloadPos, remainingPayload, g, before);
        if readBytes <= 0 {
          return;
        }
        payloadPos := payloadPos + readBytes;
        remainingPayload := remainingPayload - readBytes;
      }
      ReadExactDone(g, payloadPos, inbox);
    }

    method ReceiveFixedNumberOfBytes(payloadLength: nat, receivedData: array<byte>) returns (received: int)
      requires Valid() && payloadLength <= receivedData.Length
      modifies this, ssl, receivedData
      ensures Valid() && Kept(ssl, old(ssl))
      ensures var g := ReadExact(old(inbox), payloadLength);
              && State() == AfterRead(old(State()), g.failure)
              && inbox == g.rest
              && received == ReadCode(old(State()).tls, g)
              && (forall i :: 0 <= i < |g.data| ==> receivedData[i] == g.data[i])
              && (forall i :: |g.data| <= i < receivedData.Length ==> receivedData[i] == old(receivedData[i]))
    {
      received := Fill(receivedData, payloadLength);
      if received < payloadLength && ssl != null {
        received := HandleSslReadError();
      }
    }

    method SendMessage(kind: SendKind, message: array<byte>) returns (sent: int)
      requires ssl != null ==> !ssl.freed
      modifies `trace, `tlsError
      ensures State() == Send(env, old(State()), kind, message[..])
      ensures sent == SendCode(env, old(State()), message[..])
    {
      var result := env.write(trace, message[..]);
      trace := trace + [Sent(kind, message[..])];
      if ssl == null {
        return if result.Wrote? then result.count else -1;
      }
      sent := if result.Wrote? then result.count else -1;
      if sent <= 0 {
        tlsError := tlsError || result == WriteFatal;
        return -1;
      }
    }

    method SendNegativeAck(code: byte) returns (sent: int)
      requires ssl != null ==> !ssl.freed
      modifies `trace, `tlsError
      ensures State() == Send(env, old(State()), NackReply, NackWire(code))
      ensures sent == SendCode(env, old(State()), NackWire(code))
    {
      var message := CreateGenericHeader(NegativeAck, NACK_LENGTH);
      ghost var header := message[..8];
      message[8] := code;
      assert message[..] == header + [code];
      sent := SendMessage(NackReply, message);
    }

    method SendDiagnosticAck(source: uint16, positive: bool, code: byte)
      requires ssl != null ==> !ssl.freed
      modifies `trace, `tlsError
      ensures State() == Do(env, old(State()), SendAck(source, positive, code))
    {
      if routedClientAddress.None? {
        trace := trace + [UnsetAddress];
        return;
      }
      var message := CreateDiagnosticAck(positive, source, routedClientAddress.value, code);
      var _ := SendMessage(AckReply, message);
    }

    method SendDiagnosticPayload(source: uint16, data: array<byte>, length: nat)
      requires ssl != null ==> !ssl.freed
      requires length <= data.Length && length + 12 <= 0x7FFF_FFFF
      modifies `trace, `tlsError
      ensures State() == Do(env, old(State()), SendPayload(source, data[..length]))
    {
      if routedClientAddress.None? {
        trace := trace + [UnsetAddress];
        return;
      }
      var message := CreateDiagnosticMessage(source, routedClientAddress.value, data, length);
      var _ := SendMessage(DiagnosticReply, message);
    }

    /** The application's callback body: the calls it makes on this connection, in order. */
    method PerformCalls(calls: seq<AppCall>)
      requires ssl != null ==> !ssl.freed
      modifies `trace, `tlsError
      ensures State() == Perform(env, old(State()), calls)
    {
      for i := 0 to |calls|
        invariant Perform(env, State(), calls[i..]) == Perform(env, old(State()), calls)
      {
        match calls[i] {
          case SendAck(source, positive, code) =>
            SendDiagnosticAck(source, positive, code);
          case SendPayload(source, d) =>
            var data := new byte[|d|](j requires 0 <= j < |d| => d[j]);
            assert data[..|d|] == d;
            SendDiagnosticPayload(source, data, |d|);
        }
        assert calls[i..][1..] == calls[i + 1..];
      }
    }

    method ActivateRouting(payload: array<byte>) returns (code: int)
      requires Valid() && payload.Length >= 3
      modifies this, ssl, timer`active, timer`startTime, timer`timerThreads
      ensures Valid() && inbox == old(inbox) && Kept(ssl, old(ssl))
      ensures Outcome(State(), code) == Activate(env, old(State()), payload[..])
    {
      var result := ParseRoutingActivation(payload);
      var clientAddress := Addr(payload[0], payload[1]);
      var message := CreateRoutingActivationResponse(logicalGatewayAddress, clientAddress, result);
      code := SendMessage(ActivationReply, message);
      if result == UNKNOWN_SOURCE_ADDRESS || result == UNSUPPORTED_ROUTING_TYPE {
        CloseSocket(false);
        return -1;
      }
      routedClientAddress := Some(clientAddress);
      if !timer.active {
        var now := Clock();
        var started := !timer.disabled;
        timer.StartTimer(now);
        trace := trace + if started then [TimerStarted] else [];
      }
    }

    /** The parser reads the routed address only if the narrowed length reaches the minimum. */
    method PassDiagnosticMessage(payload: array<byte>, payloadLength: uint32)
      requires ssl != null ==> !ssl.freed
      requires payloadLength == payload.Length >= 5
      modifies `trace, `tlsError
      ensures State() == Pass(env, old(State()), payload[..])
    {
      var length := ToInt32(payloadLength);
      if routedClientAddress.None? {
        if length >= MINIMUM_LENGTH {
          trace := trace + [UnsetAddress];
        }
        return;
      }
      var parsed := ParseDiagnosticMessage(routedClientAddress.value, payload, length);
      if parsed.delivery.Some? {
        var d := parsed.delivery.value;
        var calls := env.deliver(Keep(IsCallback, trace), d.target, d.data);
        trace := trace + [Delivered(Addr(payload[0], payload[1]), d.target, d.data)];
        PerformCalls(calls);
      }
    }

    method ReactOnReceivedTcpMessage(action: Action, payloadLength: uint32, payload: array?<byte>) returns (code: int)
      requires Valid() && payloadLength == action.payloadLength
      requires payload == null ==> payloadLength == 0
      requires Safe(action, if payload == null then [] else payload[..])
      modifies this, ssl, timer`active, timer`startTime, timer`timerThreads
      ensures Valid() && inbox == old(inbox) && Kept(ssl, old(ssl))
      ensures Outcome(State(), code)
              == React(env, old(State()), action, if payload == null then [] else payload[..])
    {
      match action.typ {
        case NegativeAck =>
          code := SendNegativeAck(action.value.value);
          if action.value.value == INCORRECT_PATTERN || action.value.value == INVALID_PAYLOAD_LENGTH {
            CloseSocket(false);
            return -1;
          }
        case RoutingActivationRequest =>
          code := ActivateRouting(payload);
        case AliveCheckResponse =>
          return 0;
        case DiagnosticMessage =>
          var target := Value16(payload[2], payload[3]);
          var notice := env.notify(Keep(IsCallback, trace), target);
          trace := trace + [Notified(target)];
          PerformCalls(notice.calls);
          if notice.accept {
            PassDiagnosticMessage(payload, payloadLength);
          }
          return -1;
        case _ =>
          trace := trace + [Unhandled(action.typ)];
          return -1;
      }
    }

    /** A complete message restarts a running timer. */
    method NoteActivity()
      requires Valid()
      modifies `trace, timer`active, timer`startTime
      ensures Valid() && State() == Touch(env, old(State()))
      ensures timer.startTime == if old(timer.active) then env.clock(old(trace)) else old(timer.startTime)
    {
      if timer.active {
        var now := Clock();
        timer.ResetTimer(now);
        trace := trace + [TimerReset];
      }
    }

    /** What `receiveTcpOrTlsMessage` does with a complete message. */
    method HandleMessage(action: Action, payloadLength: uint32, payload: array?<byte>) returns (code: int)
      requires Valid() && payloadLength == action.payloadLength
      requires payload == null ==> payloadLength == 0
      requires Safe(action, if payload == null then [] else payload[..])
      modifies this, ssl, timer`active, timer`startTime, timer`timerThreads
      ensures Valid() && inbox == old(inbox) && Kept(ssl, old(ssl))
      ensures Outcome(State(), code)
              == React(env, Touch(env, old(State())), action, if payload == null then [] else payload[..])
    {
      NoteActivity();
      code := ReactOnReceivedTcpMessage(action, payloadLength, payload);
    }

    /** The payload part of `receiveTcpOrTlsMessage`: no array for an empty payload. */
    method ReceivePayload(payloadLength: uint32) returns (complete: bool, payload: array?<byte>)
      requires Valid()
      modifies this, ssl
      ensures Valid() && Kept(ssl, old(ssl))
      ensures payload != null ==> fresh(payload)
      ensures complete ==> (payload == null <==> payloadLength == 0)
      ensures Body(State(), inbox, if !complete then None else if payload == null then Some([]) else Some(payload[..]))
              == ConnectionSpec.ReceivePayload(env, old(State()), old(inbox), payloadLength)
    {
      if payloadLength == 0 {
        return true, null;
      }
      var buffer := new byte[payloadLength](i requires 0 <= i => env.memory(i));
      var received := ReceiveFixedNumberOfBytes(payloadLength, buffer);
      if ToUint32(received) != payloadLength {
        CloseSocket(false);
        return false, null;
      }
      ghost var data := ReadExact(old(inbox), payloadLength).data;
      assert buffer[..] == Buffer(env, data, payloadLength);
      return true, buffer;
    }

    /** The header part of `receiveTcpOrTlsMessage`. */
    method ReceiveHeader() returns (action: Option<Action>)
      requires Valid()
      modifies this, ssl
      ensures Valid() && Kept(ssl, old(ssl))
      ensures var g := ReadExact(old(inbox), HEADER_LENGTH);
              && inbox == g.rest
              && State() == AfterRead(old(State()), g.failure)
              && var h := ConnectionSpec.ReceiveHeader(old(State()), old(inbox));
                 action == if h.Some? then Some(Parse(h.value)) else None
    {
      var genericHeader := new byte[HEADER_LENGTH];
      var readBytes := ReceiveFixedNumberOfBytes(HEADER_LENGTH, genericHeader);
      ghost var g := ReadExact(old(inbox), HEADER_LENGTH);
      ghost var h := HeaderIn(old(State()), g);
      if ToUint32(readBytes) != HEADER_LENGTH || timer.timeout {
        assert h == None;
        return None;
      }
      assert h == Some(g.data) && genericHeader[..8] == g.data;
      var parsed := ParseGenericHeader(genericHeader, HEADER_LENGTH);
      return Some(parsed);
    }

    method ReceiveTcpOrTlsMessage() returns (code: int)
      requires Valid()
      modifies this, ssl, timer`active, timer`startTime, timer`timerThreads
      ensures Valid() && Kept(ssl, old(ssl))
      ensures Received(State(), inbox, code) == ReceiveMessage(env, old(State()), old(inbox))
      ensures var arrival := Arrival(env, old(State()), old(inbox));
              old(timer.active) && arrival.Some? ==> timer.startTime == env.clock(arrival.value.trace)
      ensures old(timer.timeout) ==> !IsSocketActive() && routedClientAddress == old(routedClientAddress) && code == 0
    {
      ghost var h := ConnectionSpec.ReceiveHeader(State(), inbox);
      ReceiveHeedsTimer(env, State(), inbox);
      var action := ReceiveHeader();
      if action.None? {
        CloseSocket(false);
        return 0;
      }
      var payloadLength := action.value.payloadLength;
      var complete, payload := ReceivePayload(payloadLength);
      if !complete {
        return 0;
      }
      ParsedIsSafe(h.value, if payload == null then [] else payload[..]);
      code := HandleMessage(action.value, payloadLength, payload);
    }

    method SetGeneralInactivityTime(seconds: uint16)
      modifies timer
      ensures State() == old(State()).(timer := old(State().timer).(disabled := old(timer.disabled) || seconds == 0))
      ensures timer.maxSeconds == if seconds > 0 then seconds else old(timer.maxSeconds)
      ensures timer.timerThreads == old(timer.timerThreads)
    {
      if seconds > 0 {
        timer.SetTimer(seconds);
      } else {
        timer.disabled := true;
      }
    }

    method TriggerDisconnection(app: Application)
      modifies app
      ensures app.connectionsCounter == old(app.connectionsCounter) - 1
    {
      app.CloseConnection();
    }

    /** The callback of the timer. */
    method AliveCheckTimeout(app: Application)
      requires Valid()
      modifies this, ssl, app
      ensures Valid()
      ensures State() == ConnectionSpec.CloseSocket(old(State()), false)
      ensures app.connectionsCounter == old(app.connectionsCounter) - 1
    {
      CloseSocket(false);
      app.CloseConnection();
    }
  }

  /** The example's client handler: serve the connection until its socket is closed. */
  method HandleClient(connection: DoIPConnection, app: Application)
    requires connection.Valid()
    modifies connection, connection.ssl, connection.timer, app
    ensures connection.Valid() && !connection.IsSocketActive() && connection.ssl == null
    ensures old(connection.ssl) != null ==> old(connection.ssl).freed
    ensures (connection.State(), connection.inbox)
            == Run(connection.env, old(connection.State()), old(connection.inbox))
    ensures app.connectionsCounter == old(app.connectionsCounter) - 1
    ensures connection.timer.maxSeconds == 50000
  {
    connection.SetGeneralInactivityTime(50000);
    while connection.IsSocketActive()
      invariant connection.Valid() && Kept(connection.ssl, old(connection.ssl))
      invariant app.connectionsCounter == old(app.connectionsCounter)
      invariant connection.timer.maxSeconds == 50000
      invariant Run(connection.env, connection.State(), connection.inbox)
                == Run(connection.env, old(connection.State()), old(connection.inbox))
      decreases Size(connection.inbox), connection.IsSocketActive()
    {
      var _ := connection.ReceiveTcpOrTlsMessage();
    }
    connection.TriggerDisconnection(app);
  }
}
