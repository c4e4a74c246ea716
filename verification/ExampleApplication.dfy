/** The example server's callbacks, and what a session with it looks like on the wire. */
module ExampleApplication {
  import opened Bytes
  import opened DiagnosticMessages
  import opened Trace
  import opened ConnectionSpec
  import opened Frames
  import opened Closing
  import opened Client
  import opened Session
  import opened Connection

  const LOGICAL_ADDRESS: uint16 := 0x28

  /** `ReceiveFromLibrary`: a read-data request is answered positively, anything else negatively.
      The first byte is read without a length check; delivered data is never empty. */
  function Answer(d: NonEmpty): AppData {
    if |d| > 2 && d[0] == 0x22 then [0x62, d[1], d[2], 0x01, 0x02, 0x03, 0x04]
    else [0x7F, d[0], 0x11]
  }

  /** `DiagnosticMessageReceived`: every message is acknowledged at once and accepted. */
  method DiagnosticMessageReceived(connection: DoIPConnection, targetAddress: uint16) returns (ack: bool)
    requires connection.ssl != null ==> !connection.ssl.freed
    modifies connection`trace, connection`tlsError
    ensures ack
    ensures connection.State() == Do(connection.env, old(connection.State()), SendAck(LOGICAL_ADDRESS, true, 0x00))
  {
    connection.SendDiagnosticAck(LOGICAL_ADDRESS, true, 0x00);
    return true;
  }

  method ReceiveFromLibrary(connection: DoIPConnection, targetAddress: uint16, data: array<byte>, length: nat)
    requires connection.ssl != null ==> !connection.ssl.freed
    requires 1 <= length <= data.Length
    modifies connection`trace, connection`tlsError
    ensures connection.State()
            == Do(connection.env, old(connection.State()), SendPayload(targetAddress, Answer(data[..length])))
  {
    var responseData;
    if length > 2 && data[0] == 0x22 {
      responseData := new byte[] [0x62, data[1], data[2], 0x01, 0x02, 0x03, 0x04];
    } else {
      responseData := new byte[] [0x7F, data[0], 0x11];
    }
    assert responseData[..responseData.Length] == Answer(data[..length]);
    connection.SendDiagnosticPayload(targetAddress, responseData, responseData.Length);
  }

  ghost predicate IsExample(env: Env) {
    && (forall t, target :: env.notify(t, target) == Notice([SendAck(LOGICAL_ADDRESS, true, 0x00)], true))
    && (forall t, target, d :: env.deliver(t, target, d) == [SendPayload(target, Answer(d))])
  }

  predicate IsWire(e: Event) {
    e.Sent?
  }

  /** The two messages a served diagnostic message is answered with. */
  function RepliesTo(m: Message): seq<Event> {
    [Sent(AckReply, AckWire(true, LOGICAL_ADDRESS, TESTER, 0x00)),
     Sent(DiagnosticReply, MessageWire(AddrValue(m.target), TESTER, Answer(m.data)))]
  }

  function Replies(ms: seq<Message>): seq<Event> {
    if ms == [] then [] else RepliesTo(ms[0]) + Replies(ms[1..])
  }

  lemma PerformOne(env: Env, c: Core, call: AppCall)
    ensures Perform(env, c, [call]) == Do(env, c, call)
  {
    assert [call][1..] == [];
  }

  lemma NotifyWrites(env: Env, c: Core, target: uint16)
    requires IsExample(env) && c.routed == Some(TESTER)
    ensures Grows(IsWire, c.trace, Notify(env, c, target).trace,
                   [Sent(AckReply, AckWire(true, LOGICAL_ADDRESS, TESTER, 0x00))])
  {
    var c1 := Log(c, Notified(target));
    PerformOne(env, c1, SendAck(LOGICAL_ADDRESS, true, 0x00));
    GrowsLog(IsWire, c.trace, Notified(target));
    GrowsLog(IsWire, c1.trace, Sent(AckReply, AckWire(true, LOGICAL_ADDRESS, TESTER, 0x00)));
  }

  lemma PassWrites(env: Env, c: Core, m: Message)
    requires IsExample(env) && c.routed == Some(TESTER)
    ensures Grows(IsWire, c.trace, Pass(env, c, MessageFrame(m).payload).trace,
                   [Sent(DiagnosticReply, MessageWire(AddrValue(m.target), TESTER, Answer(m.data)))])
  {
    MessageRoundTrip(AddrValue(TESTER), m.target, m.data, TESTER);
    var c1, call := Log(c, DeliveryOf(m)), SendPayload(AddrValue(m.target), Answer(m.data));
    assert Pass(env, c, MessageFrame(m).payload) == Perform(env, c1, [call]);
    PerformOne(env, c1, call);
    GrowsLog(IsWire, c.trace, DeliveryOf(m));
    GrowsLog(IsWire, c1.trace, Sent(DiagnosticReply, MessageWire(AddrValue(m.target), TESTER, Answer(m.data))));
  }

  lemma DiagnoseWrites(env: Env, c: Core, m: Message)
    requires |MessageFrame(m).payload| >= 5
    requires IsExample(env) && c.routed == Some(TESTER)
    ensures Grows(IsWire, c.trace, Diagnose(env, c, MessageFrame(m).payload).trace, RepliesTo(m))
  {
    MessageFields(m);
    var target := AddrValue(m.target);
    var c1 := Notify(env, c, target);
    NotifyWrites(env, c, target);
    NotifyAdds(env, c, target);
    PassWrites(env, c1, m);
    assert env.notify(Keep(IsCallback, c.trace), target).accept;
    assert Diagnose(env, c, MessageFrame(m).payload) == Pass(env, c1, MessageFrame(m).payload);
    GrowsBoth(IsWire, c.trace, c1.trace, Pass(env, c1, MessageFrame(m).payload).trace,
              RepliesTo(m)[..1], RepliesTo(m)[1..]);
  }

  lemma MessageWrites(env: Env, c: Core, m: Message)
    requires IsExample(env) && Ready(c)
    ensures Grows(IsWire, c.trace, Dispatch(env, c, MessageFrame(m)).trace, RepliesTo(m))
  {
    MessageFields(m);
    MessageIsDiagnosed(env, c, m);
    GrowsLog(IsWire, c.trace, TimerReset);
    DiagnoseWrites(env, Touch(env, c), m);
  }

  lemma {:induction false} MessagesWrite(env: Env, c: Core, ms: seq<Message>)
    requires IsExample(env) && Ready(c)
    ensures Grows(IsWire, c.trace, DispatchAll(env, c, MessageFrames(ms)).trace, Replies(ms))
    decreases |ms|
  {
    if ms != [] {
      var f, rest := MessageFrame(ms[0]), MessageFrames(ms[1..]);
      var c1 := Dispatch(env, c, f);
      MessageWrites(env, c, ms[0]);
      ServeMessage(env, c, ms[0]);
      MessagesWrite(env, c1, ms[1..]);
      DispatchCons(env, c, f, rest);
      GrowsBoth(IsWire, c.trace, c1.trace, DispatchAll(env, c1, rest).trace, RepliesTo(ms[0]), Replies(ms[1..]));
    }
  }

  lemma ActivationWrites(env: Env, c: Core)
    requires c.open && !c.timer.timeout
    ensures Grows(IsWire, c.trace, Dispatch(env, c, ActivationFrame()).trace, [ActivationAnswer(c.gateway)])
  {
    ActivationIsFrame();
    var c1, e := Touch(env, c), ActivationAnswer(c.gateway);
    GrowsLog(IsWire, c.trace, TimerReset);
    GrowsLog(IsWire, c1.trace, e);
    GrowsLog(IsWire, c1.trace + [e], TimerStarted);
    assert Dispatch(env, c, ActivationFrame()) == Activate(env, c1, ACTIVATION_REQUEST[8..]).core;
  }

  lemma SessionWrites(env: Env, c: Core, ms: seq<Message>)
    requires IsExample(env) && c.open && !c.timer.timeout
    ensures Grows(IsWire, c.trace, DispatchAll(env, c, SessionFrames(ms)).trace,
                  [ActivationAnswer(c.gateway)] + Replies(ms))
  {
    var c1 := Dispatch(env, c, ActivationFrame());
    ServeActivation(env, c);
    ActivationWrites(env, c);
    DispatchCons(env, c, ActivationFrame(), MessageFrames(ms));
    MessagesWrite(env, c1, ms);
    GrowsBoth(IsWire, c.trace, c1.trace, DispatchAll(env, c1, MessageFrames(ms)).trace,
               [ActivationAnswer(c.gateway)], Replies(ms));
  }

  /** A request of two bytes, or of another service, gets a negative answer. */
  lemma NegativeAnswers()
    ensures Answer([0x22, 0xF1]) == [0x7F, 0x22, 0x11] && Answer([0x3E, 0x00, 0x00]) == [0x7F, 0x3E, 0x11]
  {
  }

  /** A client that reads identifier 0xF190 from address 0x0028 gets these two messages. */
  lemma ReadIdentifierReplies()
    ensures RepliesTo(Message(Addr(0x00, 0x28), [0x22, 0xF1, 0x90]))
            == [Sent(AckReply, [0x02, 0xFD, 0x80, 0x02, 0, 0, 0, 5, 0x00, 0x28, 0x0E, 0x00, 0x00]),
                Sent(DiagnosticReply, [0x02, 0xFD, 0x80, 0x01, 0, 0, 0, 11, 0x00, 0x28, 0x0E, 0x00,
                                       0x62, 0xF1, 0x90, 0x01, 0x02, 0x03, 0x04])]
  {
    var answer: AppData := [0x62, 0xF1, 0x90, 0x01, 0x02, 0x03, 0x04];
    assert Answer([0x22, 0xF1, 0x90]) == answer;
    AckBytes(true, 0x28, TESTER, 0x00);
    MessageBytes(0x28, TESTER, answer);
    assert [0x02, 0xFD, 0x80, 0x01] + Be32(11) + [0x00, 0x28, 0x0E, 0x00] + answer
           == [0x02, 0xFD, 0x80, 0x01, 0, 0, 0, 11, 0x00, 0x28, 0x0E, 0x00, 0x62, 0xF1, 0x90, 0x01, 0x02, 0x03, 0x04];
  }

  /** Every byte the example server writes in a session: the activation response, then for each
      message a positive acknowledgement and one diagnostic answer, sent under the target's
      address to the tester that asked. */
  lemma ExampleSession(env: Env, c: Core, inbox: seq<Read>, ms: seq<Message>)
    requires IsExample(env) && c.open && !c.timer.timeout
    requires Arrived(inbox) == SessionBytes(ms)
    ensures Grows(IsWire, c.trace, Run(env, c, inbox).0.trace, [ActivationAnswer(c.gateway)] + Replies(ms))
  {
    var d, why := DispatchAll(env, c, SessionFrames(ms)), Ending(inbox);
    SessionIsFrames(ms);
    RunOfFrames(env, c, inbox, SessionFrames(ms));
    ServeSession(env, c, ms);
    SessionWrites(env, c, ms);
    GrowsLog(IsWire, d.trace, LastClose(d.tls, [], why));
  }
}
