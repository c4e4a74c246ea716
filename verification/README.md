# libdoip: a verified model of the DoIP server connection and its partners

This project models libdoip, a C++ library for Diagnostics over IP, in Dafny, and proves properties
of the model. The centre is the server side of a TCP or TLS connection: how it cuts a byte stream
into messages, what it answers, what it hands to the application, whom it considers activated and
when it closes. Around it are the alive check timer as a two-thread protocol, the wire formats, the
client, the UDP identification exchange and the example server application.

## How the model is built

- `Bytes`, `GenericHeader`, `DiagnosticMessages`, `RoutingActivation`, `VehicleIdentification`:
  wire formats. Each printer and parser is a method over arrays, as in the source, proved against a
  function on byte sequences; the lemmas relate printers to parsers.
- `Trace`, `ConnectionSpec`: the connection as functions on a state with an event trace. The
  environment is a parameter: what reads return (`inbox`, fragments of at least one byte and
  failures), what writes return, what the application's callbacks answer and send, what the clock
  shows, and what freshly allocated memory holds.
- `Reactions`: the complete reaction to every kind of frame in literal bytes, events and return
  codes, independent of the functions above. `InactivityTimer`: what messages do to the timer and
  what a flagged timeout does to messages.
- `Connection`: the classes of the source (connection, TLS session, timer, example application),
  updated in place. Every method ends in the state its function in `ConnectionSpec` gives. The
  preconditions of `Tls` are OpenSSL's rules, so a use after `SSL_free` or an `SSL_shutdown` after a
  fatal read error would be a verification error. `Server.ServeClient` joins the class to the
  theorems.
- `Frames`: the reference semantics. A byte stream is split into frames without looking at any
  state, and frames are handled one after the other. `Frames.Taken` reads a whole input, with all its
  failing reads, as the frames the code takes it for; `Runs.RunIsMeaning` reduces every run to them.
- `Runs`, `Safety`, `Closing`, `AfterClose`, `UnsetAddressUse`, `Transparency`, `Session`,
  `ExampleApplication`: the theorems about whole runs.
- `AliveCheck`: every access of the receiver or the timer thread to a shared field is one step, and
  the theorems hold of every interleaving. `Accounting`: the example application as a whole, any
  number of connections, each with its handler's loop over `ConnectionSpec.ReceiveMessage` and its
  timer from `AliveCheck`, interleaved; and the counter they share.
- `Client`, `IdentificationExchange`: the client's bytes and counters, and the UDP exchange.

`receiveFixedNumberOfBytesFromTcpOrTls` appears as `ReadSome` (one `recv` or `SSL_read`), `Fill` (the
loop, one pass of which is `ReadNext`) and `ReceiveFixedNumberOfBytes`; `receiveTcpOrTlsMessage` as
`ReceiveHeader`, `ReceivePayload`, `HandleMessage` with `NoteActivity`, and `ReceiveTcpOrTlsMessage`.

## Where the code does not do what it promises

- A TLS read error returns -1; narrowed to `unsigned int` it equals a payload length of 0xFFFFFFFF, and
  the truncated message counts as complete. A run is the reference semantics of its complete frames
  if and only if that does not happen (`Closing.RunIsReference`, with `Frames.Overruns` as the
  condition on the bytes).
- After a close nothing should be sent. It is, exactly if such a read error is a fatal one and no
  frame has closed the connection before (`AfterClose.QuietAfterClose`, with `AfterClose.FatalOverrun` as the condition on the bytes;
  `AfterClose.SendsAfterClose` is one such input).
- The comment in `closeSocket` forbids `SSL_shutdown` after a fatal error. The code remembers fatal
  errors of reads but not of writes (`AfterClose.ShutdownAfterError`, `ShutdownAfterFailedWrite`).
- The routed address is read before it is set. For any application this happens exactly if a
  diagnostic message is handled before the first activation on which the application sends from its
  notification or whose delivery it accepts (`UnsetAddressUse.UnsetAddressUsed`); for the example
  application, which always does both, the condition is one on the bytes that arrive
  (`UnsetAddressUse.ExampleUsesUnset`; two such inputs are `MessageBeforeActivation` and
  `HeaderBeforeActivation`).
- A connection whose timer is restarted in time can still time out if `startTime` is read before `clock()`, an
  order C++ allows (`AliveCheck.NoEarlyTimeout`).
- Alive check responses are printed with type 0x0008, which the parser does not know, so they are
  answered with a negative acknowledgement (`GenericHeader.HeaderRoundTrip`,
  `Session.AliveCheckResponseIsUnknown`). The length check of the diagnostic acknowledgements has no
  effect on the type, so they are recognised at every length.
- The example's counter counts a timed-out connection twice (`Accounting.CounterBalances`,
  `Accounting.CounterCanGoNegative`).

## Model

| member | source | states |
|---|---|---|
| GenericHeader.ParseGenericHeader | libdoipcommon/src/DoIPGenericHeaderHandler.cpp:14-136 | The in-place parser computes the classification of the header's bytes, with all early returns and the overwritten acknowledgement case |
| GenericHeader.Classification | libdoipcommon/src/DoIPGenericHeaderHandler.cpp:19-132 | Each of the six known types is accepted exactly when pattern, type bytes and length say so, and exactly which headers are refused; a negative acknowledgement always has a code; so every payload index used later exists |
| GenericHeader.ClassificationCodes | libdoipcommon/src/DoIPGenericHeaderHandler.cpp:22-132 | The code of every classification: 0x00 exactly for a bad pattern, 0x01 exactly for an unknown type, 0x04 exactly for a bad length, which two acknowledgements get without losing their type |
| GenericHeader.HeaderBytes | libdoipcommon/src/DoIPGenericHeaderHandler.cpp:22-62 | Pattern, type and big-endian length as sums over the bytes of the header |
| GenericHeader.CreateGenericHeader | libdoipcommon/src/DoIPGenericHeaderHandler.cpp:144-203 | The fresh array of 8 + length bytes holds version, the two type bytes of each of the seven types the printer handles, and the big-endian length; other types leave their type bytes open |
| GenericHeader.PrintedBytes | libdoipcommon/src/DoIPGenericHeaderHandler.cpp:144-203 | The eight bytes of each printable header |
| Bytes.BigEndian | libdoipcommon/src/DoIPGenericHeaderHandler.cpp:197-200 | Two- and four-byte images are most significant byte first |
| GenericHeader.HeaderRoundTrip | libdoipcommon/src/DoIPGenericHeaderHandler.cpp:14-203 | For every printable type and every 32-bit length: exactly which printed headers parse back to their type, which are unknown and which have an invalid length; the length always survives |
| DiagnosticMessages.CreateDiagnosticMessage | libdoipcommon/src/DiagnosticMessageHandler.cpp:81-100 | The array is header, source, target and user data, for any data whose message length is an int |
| DiagnosticMessages.CreateDiagnosticAck | libdoipcommon/src/DiagnosticMessageHandler.cpp:49-72 | The array is the positive or negative acknowledgement with its addresses and code |
| DiagnosticMessages.MessageBytes | libdoipcommon/src/DiagnosticMessageHandler.cpp:81-100 | A diagnostic message byte by byte |
| DiagnosticMessages.AckBytes | libdoipcommon/src/DiagnosticMessageHandler.cpp:49-72 | An acknowledgement byte by byte, 0x8002 or 0x8003 by polarity |
| DiagnosticMessages.MessageVerdict | libdoipcommon/src/DiagnosticMessageHandler.cpp:12-39 | 0x03 exactly for a short message, 0x02 exactly for a foreign source address, else 0x00 and a callback with target and data |
| DiagnosticMessages.ParseDiagnosticMessage | libdoipcommon/src/DiagnosticMessageHandler.cpp:12-39 | Return code and callback arguments for every length, including negative ones, and every registered address |
| DiagnosticMessages.MessageRoundTrip | libdoipcommon/src/DiagnosticMessageHandler.cpp:12-100 | A built message is classified with length 4 + n and calls back with exactly its target and data if and only if the registered address is the sender's |
| DiagnosticMessages.AckRoundTrip | libdoipcommon/src/DiagnosticMessageHandler.cpp:49-72 | A built acknowledgement is recognised with its polarity and carries addresses and code |
| RoutingActivation.CheckSourceAddress | libdoipserver/src/RoutingActivationHandler.cpp:78-89 | The scan returns true exactly for 0x0E00 to 0x0FFF |
| RoutingActivation.ParseRoutingActivation | libdoipserver/src/RoutingActivationHandler.cpp:8-38 | The response code for every payload: unknown address before unsupported type before success |
| RoutingActivation.ActivationCodes | libdoipserver/src/RoutingActivationHandler.cpp:8-38 | 0x00 exactly outside 0x0E00 to 0x0FFF, 0x06 exactly inside with a type above 0x01, 0x10 exactly inside with type 0x00 or 0x01 |
| RoutingActivation.CreateRoutingActivationResponse | libdoipserver/src/RoutingActivationHandler.cpp:47-71 | The 17 bytes of the response |
| RoutingActivation.ResponseBytes | libdoipserver/src/RoutingActivationHandler.cpp:47-71 | The response byte by byte |
| Connection.Tls.Shutdown | libdoipserver/src/DoIPConnection.cpp:46-67 | May only be called on a session that is alive and has had no fatal read error |
| Connection.AliveCheckTimer.StartTimer | libdoipcommon/src/AliveCheckTimer.cpp:6-11 | Nothing when disabled; otherwise start time, active flag and one more thread |
| Connection.AliveCheckTimer.ResetTimer | libdoipcommon/src/AliveCheckTimer.cpp:30-33 | Start time becomes the clock and the timer active, nothing else changes |
| Connection.DoIPConnection.constructor | libdoipserver/include/DoIPConnection.h:29-30 | A new connection is open, unrouted, with an idle timer and an empty trace |
| Connection.DoIPConnection.CloseSocket | libdoipserver/src/DoIPConnection.cpp:41-80 | A no-op on a closed socket; otherwise one close event in the right mode, descriptor 0, TLS session shut down once or, after a result of 0, twice, or not at all if skipped, then freed and dropped |
| Connection.DoIPConnection.HandleSslReadError | libdoipserver/src/DoIPConnection.cpp:82-98 | 0 for an orderly end, -1 otherwise, and a close without shutdown exactly for fatal errors |
| Connection.DoIPConnection.ReadSome | libdoipserver/src/DoIPConnection.cpp:155-168 | One recv or SSL_read: a positive count and that many bytes at the position, or a failure and an untouched buffer |
| Connection.DoIPConnection.Fill | libdoipserver/src/DoIPConnection.cpp:150-174 | The loop leaves in the buffer exactly the bytes of the reference read and touches nothing beyond them |
| Connection.DoIPConnection.ReceiveFixedNumberOfBytes | libdoipserver/src/DoIPConnection.cpp:150-174 | Result, buffer, remaining input and new state for every fragmentation and failure |
| Connection.DoIPConnection.ReceiveHeader | libdoipserver/src/DoIPConnection.cpp:107-111 | The parsed header if eight bytes arrived and no timeout is flagged |
| Connection.DoIPConnection.ReceivePayload | libdoipserver/src/DoIPConnection.cpp:113-123 | The payload buffer, null for an empty payload, or the close after an incomplete one |
| Connection.DoIPConnection.NoteActivity | libdoipserver/src/DoIPConnection.cpp:125-128 | The start time of an active timer becomes the reading of the clock; an inactive timer is left alone |
| Connection.DoIPConnection.HandleMessage | libdoipserver/src/DoIPConnection.cpp:125-132 | A complete message restarts the timer first and is then reacted to |
| Connection.DoIPConnection.ActivateRouting | libdoipserver/src/DoIPConnection.cpp:200-227 | Response, then close on refusal, else the stored address and a started timer |
| Connection.DoIPConnection.PassDiagnosticMessage | libdoipserver/src/DoIPConnection.cpp:240-241 | Delivers with the length narrowed to int, or marks the use of an unset address |
| Connection.DoIPConnection.ReactOnReceivedTcpMessage | libdoipserver/src/DoIPConnection.cpp:181-252 | State, trace and return code for every classified message |
| Connection.DoIPConnection.ReceiveTcpOrTlsMessage | libdoipserver/src/DoIPConnection.cpp:105-139 | State, trace, remaining input and return code of one receive; a complete message leaves an active timer started at that moment, and a flagged timeout leaves the socket closed and nothing handled |
| Connection.DoIPConnection.SendMessage | libdoipserver/src/DoIPConnection.cpp:267-280 | The complete message is handed to the write; the result is its count or -1, over TLS also for a count of zero |
| Connection.DoIPConnection.SendNegativeAck | libdoipserver/src/DoIPConnection.cpp:337-342 | Sends the nine bytes of a negative acknowledgement with the code |
| Connection.DoIPConnection.SendDiagnosticAck | libdoipserver/src/DoIPConnection.cpp:325-330 | Sends the acknowledgement to the routed address, or marks that there is none |
| Connection.DoIPConnection.SendDiagnosticPayload | libdoipserver/src/DoIPConnection.cpp:301-311 | Sends the data as a diagnostic message to the routed address, or marks that there is none |
| Connection.DoIPConnection.SetGeneralInactivityTime | libdoipserver/src/DoIPConnection.cpp:287-293 | Zero disables the timer, anything else sets the limit; disabling is never undone |
| Connection.DoIPConnection.AliveCheckTimeout | libdoipserver/src/DoIPConnection.cpp:32-36 | Closes the socket and runs the application's close callback once |
| Connection.DoIPConnection.TriggerDisconnection | libdoipserver/src/DoIPConnection.cpp:254-258 | Runs the application's close callback once and leaves the connection as it is |
| Connection.HandleClient | examples/exampleDoIPServer.cpp:78-98 | The driver loop terminates on every finite input, in the state of the reference run, with the limit set to 50000 seconds, the TLS session freed and the counter decremented once |
| ConnectionSpec.ParsedIsSafe | libdoipserver/src/DoIPConnection.cpp:181-252 | Whatever the header parser accepts, the reaction indexes its payload in bounds |
| ConnectionSpec.ReceiveMessage | libdoipserver/src/DoIPConnection.cpp:105-139 | A receive that leaves the connection open has consumed at least eight bytes of what the input can still deliver |
| ConnectionSpec.ReceiveHeedsTimer | libdoipserver/src/DoIPConnection.cpp:109-135 | One receive restarts an active timer at the moment a complete message is handled; with a timeout flagged it handles none |
| Server.ServeClient | examples/exampleDoIPServer.cpp:103-121 | An accepted connection served to its end was closed once, keeps the safety invariant, equals the reference semantics if and only if it did not overrun, and leaves the counter balanced |
| Frames.SplitConcat | libdoipserver/src/DoIPConnection.cpp:105-123 | A stream has only one reading as frames |
| Frames.ReadExactArrived | libdoipserver/src/DoIPConnection.cpp:150-174 | What a receive loop yields depends on the bytes that arrive and the first failure, not on the cuts |
| Runs.ReceiveComplete | libdoipserver/src/DoIPConnection.cpp:105-132 | With a complete frame at hand one receive dispatches exactly that frame, returns what the reaction to it returns and leaves the rest of the stream |
| Runs.ReceiveTruncated | libdoipserver/src/DoIPConnection.cpp:117-135 | Without one it closes, except that a mistaken truncated frame is handled |
| Runs.ReceiveTakes | libdoipserver/src/DoIPConnection.cpp:105-139 | Each receive handles exactly the next frame the input is taken for, or ends the connection if there is none |
| Runs.RunIsMeaning | libdoipserver/src/DoIPConnection.cpp:105-174 | For every input, however cut and however its reads fail: the driver loop handles the frames the input is taken for, one after the other, and then its ending |
| Runs.FragmentationIndependence | libdoipserver/src/DoIPConnection.cpp:105-252 | Two ways of cutting the same bytes, before and after every failure the server overlooks, end in the same state with the same trace |
| Safety.RunInv | libdoipserver/src/DoIPConnection.cpp:200-244 | Every run keeps: routed address is that of the last positive response and a tester's, deliveries carry it and follow their notification, one close, at most one timer start |
| Safety.ReactInv | libdoipserver/src/DoIPConnection.cpp:181-252 | Every reaction keeps the safety invariant |
| Safety.ConnectionSafety | libdoipserver/src/DoIPConnection.cpp:105-252 | The same for every accepted connection and every input, and deliveries never exceed notifications |
| Safety.DeliveriesBounded | libdoipcommon/src/DiagnosticMessageHandler.cpp:21-36 | If every delivery follows its notification there are at most as many deliveries as notifications |
| Reactions.NackReaction | libdoipserver/src/DoIPConnection.cpp:186-198 | Bad pattern, bad length and unknown type are answered with the nine bytes of a negative acknowledgement with 0x00, 0x04 and 0x01; the first two close and return -1, the last one returns what was written |
| Reactions.ActivationReaction | libdoipserver/src/DoIPConnection.cpp:200-227 | Every activation request is answered with seventeen bytes whose code follows from the request; success stores the address and starts an inactive, enabled timer, refusal closes and returns -1 |
| Reactions.DiagnosticReaction | libdoipserver/src/DoIPConnection.cpp:234-251 | On an activated connection: notification, the calls of the application, and delivery of target and data with its calls exactly if it accepts a message of the activated client |
| Reactions.PerformSends | libdoipserver/src/DoIPConnection.cpp:301-330 | What the application sends from inside a callback, byte by byte and in its order |
| Reactions.OtherReaction | libdoipserver/src/DoIPConnection.cpp:246-251 | The remaining known types are reported as unhandled and return -1 |
| Reactions.IncompleteReturnsZero | libdoipserver/src/DoIPConnection.cpp:117-136 | A receive without a complete message returns 0 |
| InactivityTimer.FrameRestarts | libdoipserver/src/DoIPConnection.cpp:125-128 | Every frame on a connection with an active timer restarts it exactly once, first of all, with the reading of the clock; any other frame restarts nothing |
| InactivityTimer.FrameActivates | libdoipserver/src/DoIPConnection.cpp:219-223 | A frame makes the timer active exactly if it is an accepted activation and the timer is enabled |
| InactivityTimer.RunRestarts | libdoipserver/src/DoIPConnection.cpp:105-132 | Over every run there is one restart for each frame handled while the timer is active |
| InactivityTimer.TimedOutReceive | libdoipserver/src/DoIPConnection.cpp:109-135 | With the timeout flagged a receive closes the socket and does nothing else, whatever has arrived |
| InactivityTimer.TimedOutRun | libdoipserver/src/DoIPConnection.cpp:109-135 | So does a run |
| Closing.DispatchCloses | libdoipserver/src/DoIPConnection.cpp:186-211 | A frame closes an open connection exactly if its bytes show a bad pattern, an invalid length or a refused activation |
| Closing.ReactAnswers | libdoipserver/src/DoIPConnection.cpp:181-252 | Every reaction answers once, and a close is the last thing it does |
| Closing.DispatchAllServes | libdoipserver/src/DoIPConnection.cpp:181-252 | Over any frames: open at the end exactly if none is refused, and one answer (negative acknowledgement, activation response, notification or unhandled type) per served frame |
| Closing.RestIgnored | libdoipserver/src/DoIPConnection.cpp:191-211 | Frames after the first refused one have no effect |
| Closing.RunIsReference | libdoipserver/src/DoIPConnection.cpp:109-135 | Exact close condition: a run handles the complete frames up to and including the first refused one and closes there or at the end of the input, if and only if no truncated frame is taken for complete |
| Closing.RunServes | libdoipserver/src/DoIPConnection.cpp:105-252 | Frame conservation for every input: each frame it is taken for, up to and including the first refused one, gets exactly one answer, and the close comes last unless a frame is handled after a fatal read error |
| Closing.RunClosesOnce | libdoipserver/src/DoIPConnection.cpp:41-98 | For every input: the trace holds exactly one close, and shutdown is skipped exactly if a fatal read error reaches a connection no frame has closed |
| AfterClose.TakenBytes | libdoipserver/src/DoIPConnection.cpp:82-123 | Whether a fatal read error ends the connection, and whether a frame is handled after it, as conditions on the bytes and failures alone |
| AfterClose.QuietAfterClose | libdoipserver/src/DoIPConnection.cpp:117-130 | For every input: nothing follows the close if and only if no fatal read error falls into a payload announced as 2^32 - 1 bytes on a connection still open |
| AfterClose.SendsAfterClose | libdoipserver/src/DoIPConnection.cpp:117-191 | An input on which the server closes and then writes |
| AfterClose.ShutdownAfterError | libdoipserver/src/DoIPConnection.cpp:46-67 | For every input over TLS: SSL_shutdown follows a fatal error exactly if a write failed fatally before the close and no fatal read ended the connection |
| AfterClose.ShutdownAfterFailedWrite | libdoipserver/src/DoIPConnection.cpp:271-276 | An input and a write result on which it does |
| UnsetAddressUse.UnsetAddressUsed | libdoipserver/src/DoIPConnection.cpp:234-241 | For every application and every input: the unset routed address is used if and only if, before the first activation, a diagnostic message is handled on which the application sends from its notification or which it accepts |
| UnsetAddressUse.MeaningUnset | libdoipserver/src/DoIPConnection.cpp:234-241 | The same from any open, unrouted state |
| UnsetAddressUse.DispatchUnset | libdoipserver/src/DoIPConnection.cpp:181-252 | One frame on an unrouted connection, open or closed: exactly when it uses the unset address, and what it leaves to the next frame |
| UnsetAddressUse.ActivatedIsClean | libdoipserver/src/DoIPConnection.cpp:215-217 | Once the address is set it is never missing again |
| UnsetAddressUse.ExampleUsesUnset | examples/exampleDoIPServer.cpp:46-58 | For the example application and every input the condition is one on the bytes: a diagnostic message, complete or truncated and taken for complete, comes before any activation and any refused frame |
| UnsetAddressUse.MessageBeforeActivation | libdoipserver/src/DoIPConnection.cpp:325-328 | Such an input: a single diagnostic message |
| UnsetAddressUse.HeaderBeforeActivation | libdoipserver/src/DoIPConnection.cpp:117-130 | Another over TLS: a header and a failing read |
| Transparency.UnknownFramesAreTransparent | libdoipcommon/src/DoIPGenericHeaderHandler.cpp:57-62 | Removing all frames of unknown type changes nothing but one negative acknowledgement for each that was reached before the close, and timer restarts |
| Transparency.DispatchUnknown | libdoipserver/src/DoIPConnection.cpp:186-198 | An unknown frame adds one negative acknowledgement 0x01 and nothing else that shows |
| Transparency.UnknownFramesInRuns | libdoipserver/src/DoIPConnection.cpp:186-198 | For runs on any two inputs, cut and failing in any way, that are taken for the same known frames: the same effect, and acknowledgements that differ by the unknown frames each one reaches |
| Client.DoIPClient.SendRoutingActivationRequest | libdoipclient/src/DoIPClient.cpp:72-110 | Appends the 15 request bytes to what was written |
| Client.DoIPClient.BuildRoutingActivationRequest | libdoipclient/src/DoIPClient.cpp:72-101 | A fresh array of the 15 request bytes |
| Client.DoIPClient.BuildVehicleIdentificationRequest | libdoipclient/src/DoIPClient.cpp:201-222 | A fresh array of the eight request bytes |
| Client.DoIPClient.SendDiagnosticMessage | libdoipclient/src/DoIPClient.cpp:118-123 | Appends the message from 0x0E00 to the target |
| Client.DoIPClient.SendAliveCheckResponse | libdoipclient/src/DoIPClient.cpp:128-134 | Appends a header of type 0x0008 and the source address |
| Client.DoIPClient.ReceiveMessage | libdoipclient/src/DoIPClient.cpp:139-154 | The counter and the reconnects change only on empty receives, and every fifth reconnects |
| Client.ReconnectsEveryFifth | libdoipclient/src/DoIPClient.cpp:139-154 | Over any sequence of receives the counter is the number of empty ones mod 5 and the reconnects that number div 5 |
| Client.DoIPClient.ParseVIResponseInformation | libdoipclient/src/DoIPClient.cpp:277-314 | The result arrays hold the fields of the response |
| Client.DoIPClient.ReceiveUdpMessage | libdoipclient/src/DoIPClient.cpp:187-199 | Results change exactly if the header is that of an identification response |
| Session.SendSession | libdoipclient/src/DoIPClient.cpp:72-123 | A client that activates and then sends any list of messages has written exactly the bytes of that session |
| Session.SessionStarts | libdoipclient/src/DoIPClient.cpp:72-123 | The bytes of a session with one message, one by one |
| Session.SessionEndToEnd | libdoipclient/src/DoIPClient.cpp:72-123 | For every list of messages and every fragmentation: one activation response with code 0x10, then notification and delivery of each message in order with its data, then the close, and no other protocol event |
| Session.ServeActivation | libdoipserver/src/DoIPConnection.cpp:200-227 | The client's activation request is answered with 0x10 and its address becomes the routed one |
| Session.ServeMessage | libdoipserver/src/DoIPConnection.cpp:234-244 | A message of the routed client is notified, then delivered, and nothing else |
| Session.DeliveriesAreMessages | libdoipcommon/src/DiagnosticMessageHandler.cpp:21-36 | The deliveries of a session are exactly the messages sent |
| Session.SessionWithUnknownFrames | libdoipserver/src/DoIPConnection.cpp:186-198 | For every fragmentation of a session with unknown frames mixed in at any place: the same notifications and deliveries, one negative acknowledgement for each unknown frame, and the client stays activated to the end of the input |
| Session.AliveCheckResponseIsUnknown | libdoipcommon/src/DoIPGenericHeaderHandler.cpp:185-189 | The client's alive check response is such a frame |
| ExampleApplication.ExampleSession | examples/exampleDoIPServer.cpp:21-58 | Every byte the example server writes in a session |
| ExampleApplication.DiagnosticMessageReceived | examples/exampleDoIPServer.cpp:46-58 | Acknowledges every message positively from 0x28 and accepts it |
| ExampleApplication.ReceiveFromLibrary | examples/exampleDoIPServer.cpp:21-37 | Sends the answer under the target address of the request |
| ExampleApplication.ReadIdentifierReplies | examples/exampleDoIPServer.cpp:21-58 | The two messages that answer a read request, byte by byte |
| ExampleApplication.NegativeAnswers | examples/exampleDoIPServer.cpp:28-36 | Requests of two bytes or of another service are answered negatively |
| AliveCheck.ExpiredExactly | libdoipcommon/src/AliveCheckTimer.cpp:18-19 | The truncating division loses nothing: the comparison is exact in clock ticks |
| AliveCheck.UninterruptedStart | libdoipcommon/src/AliveCheckTimer.cpp:6-11 | Without interference the steps of startTimer add up to its sequential effect |
| AliveCheck.UninterruptedReset | libdoipserver/src/DoIPConnection.cpp:125-128 | Without interference a message restarts an active timer and leaves an inactive one alone |
| AliveCheck.UninterruptedLoop | libdoipcommon/src/AliveCheckTimer.cpp:16-25 | Without interference one body of the loop reports a timeout exactly after the full inactivity time and otherwise changes nothing |
| AliveCheck.DisabledAtOnce | libdoipcommon/src/AliveCheckTimer.cpp:43-48 | Disabling takes effect at once, and the destructor ends only when the thread has |
| AliveCheck.RunKeepsInv | libdoipcommon/src/AliveCheckTimer.cpp:6-48 | In every interleaving: at most one thread, active exactly once started, timeout only with disabled, at most one callback, and only after a comparison that saw the full time |
| AliveCheck.StepKeepsInv | libdoipcommon/src/AliveCheckTimer.cpp:6-48 | Each single step of either thread keeps these facts |
| AliveCheck.DisabledIsFinal | libdoipcommon/src/AliveCheckTimer.cpp:43-48 | Once disabled, by whomever and before or after a thread is started, always disabled; the timer has at most seven steps left, and the destructor's join waits for all there is |
| AliveCheck.NoEarlyTimeout | libdoipcommon/src/AliveCheckTimer.cpp:16-33 | Restarts in time for every comparison rule out a timeout in all interleavings if and only if the clock is read before the start time |
| AliveCheck.TimelyRunsAreCalm | libdoipcommon/src/AliveCheckTimer.cpp:16-33 | With the clock read first, restarts in time for every comparison keep the callback from running in any interleaving |
| AliveCheck.EarlyTimeoutHappens | libdoipcommon/src/AliveCheckTimer.cpp:18 | An interleaving with a timeout although every state is punctual, for every inactivity time |
| VehicleIdentification.CreateVehicleIdentificationResponse | libdoipserver/src/VehicleIdentificationHandler.cpp:4-46 | The three loops fill VIN with padding, address, EID, GID and further action code |
| VehicleIdentification.ResponseRoundTrip | libdoipserver/src/VehicleIdentificationHandler.cpp:4-46 | The client's parser gets back every field, under a header that is recognised |
| VehicleIdentification.ResponseBytes | libdoipserver/src/VehicleIdentificationHandler.cpp:4-46 | The response byte by byte |
| VehicleIdentification.DoIPServer.SetEID | libdoipserver/src/DoIPServer.cpp:264-271 | The EID becomes the low 48 bits, most significant byte first |
| VehicleIdentification.DoIPServer.SetGID | libdoipserver/src/DoIPServer.cpp:273-280 | The same for the GID |
| VehicleIdentification.DoIPServer.ReactToReceivedUdpMessage | libdoipserver/src/DoIPServer.cpp:177-216 | Which datagram, if any, answers a received one, and the code that is returned |
| VehicleIdentification.UdpAnswers | libdoipserver/src/DoIPServer.cpp:177-216 | For every datagram: the bytes of the answer, or none, and for which ones -1 is returned all the same |
| VehicleIdentification.Low48 | libdoipserver/src/DoIPServer.cpp:264-280 | The six stored bytes are the value mod 2^48 |
| VehicleIdentification.Value48Bytes | libdoipserver/src/DoIPServer.cpp:264-280 | The value of six bytes, most significant byte first, as a sum |
| Accounting.ConnectionsAccounted | examples/exampleDoIPServer.cpp:78-98 | In every interleaving, for every connection: its close callback has run once for an ended handler and once for a timeout, neither twice; only an activated connection times out; both leave the socket closed, once; and without a timeout a finished handler has done what the sequential run of its input does |
| Accounting.CounterBalances | examples/exampleDoIPServer.cpp:63-120 | In every interleaving of all connections, handlers and timers the counter is accepted minus ended minus timed out; it is the number of served connections exactly while no timeout has fired |
| Accounting.StepKeepsInv | examples/exampleDoIPServer.cpp:63-118 | Each step of a handler, a timer thread or the listener keeps the invariants of every connection and the balance of the counter |
| Accounting.ServeRestarts | libdoipserver/src/DoIPConnection.cpp:125-128 | With the two threads apart: a message received while the timer is active sends the handler into resetTimer, and nothing else does |
| Accounting.TimedOutIsSilent | libdoipcommon/src/AliveCheckTimer.cpp:18-23 | From the step that flags a timeout on, in every interleaving, the handler gives no answer, delivers nothing and activates nobody; at most the socket is closed |
| Accounting.CounterCanGoNegative | examples/exampleDoIPServer.cpp:63-98 | For every inactivity time and application: a client that activates and falls silent leaves the counter at -1 |
| IdentificationExchange.IdentificationEndToEnd | libdoipserver/src/DoIPServer.cpp:177-216 | For every configuration the client reads the VIN cut or padded to 17, the address, EID and GID mod 2^48 and the further action code mod 256; the response itself is never answered |

## Left out

- Sockets, multicast, broadcast, interface lookup, announcements, console output: operating-system calls without content of their own.
- TLS itself: handshake, certificates and records; reads, writes and shutdown are results chosen by the environment. OpenSSL takes the byte count of a read as an `int`; the model lets the environment return data for larger requests too, so the theorems cover more runs than exist.
- Timeouts inside a receive: the theorems about runs start without the timeout flag, `InactivityTimer.TimedOutRun` with it, and in `Accounting` a receive is one step, so timers take theirs between receives. `closeSocket` executed by both threads at once is not modelled.
- What happens from the destruction of a connection on is modelled for its timer only; `Accounting` ends with the handler.
- `maxSeconds` before `setTimer`: uninitialised in the source; `AliveCheck` takes it as set and positive.
- Data races: in `AliveCheck` each access to a shared field is atomic; in C++ the fields are not.
- Memory: failing allocation and the buffers the source never frees.
- Headers of fewer than eight bytes on UDP and in the client: the parser then returns an uninitialised action.
- The client's TCP receive as a framer: it reads up to 64 bytes without framing, so only its reconnect counter is modelled.
- An application that closes or reconfigures the connection from inside a callback; the modelled callbacks may send any number of messages.
- Connection.DoIPConnection.SendMessage: a partial write is reported, not continued, as in the source; the trace records the attempt.
- Connection.DoIPConnection.ReadSome: which fragment comes next is the environment's; blocking is not modelled, and a TLS read of more than 2^31 - 1 bytes, which OpenSSL rejects, may return data here.
- Connection.Tls.Shutdown: the precondition names fatal reads only, because the source does call it after fatal writes (`AfterClose.ShutdownAfterError`).
- GenericHeader.CreateGenericHeader: lengths from 2^32 - 8 up are excluded; there the size of the source's allocation wraps around and its writes are out of bounds.
- VehicleIdentification.DoIPServer.SendUdpMessage: the result of `sendto` is the environment's.
- Client.DoIPClient.ReceiveMessage: printing of received bytes and acknowledgement codes is not modelled.
- Shifts, `|` and `& 0xFF` are written as the arithmetic they perform on disjoint bytes.
- Simple setters on their own, the Scapy script and the other examples would add only easy members.
