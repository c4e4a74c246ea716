/** What a connection does, as a sequence of events, and the environment it does it in. */
module Trace {
  import opened Bytes
  import opened GenericHeader
  import opened DiagnosticMessages

  datatype SendKind = NackReply | ActivationReply | AckReply | DiagnosticReply

  /** How `closeSocket` left an open socket: TCP only, or TLS with or without SSL_shutdown. */
  datatype CloseMode = PlainClose | ShutdownClose | AbruptClose

  type NonEmpty = d: seq<byte> | |d| >= 1 witness [0]

  /** `Sent` is a write attempt with its complete bytes. `Delivered` also records the source
      address the message carried. `UnsetAddress` marks a use of the routed address before
      any activation has set it (an uninitialised pointer in the source). */
  datatype Event =
    | Sent(kind: SendKind, wire: seq<byte>)
    | Notified(target: uint16)
    | Delivered(source: Addr, target: uint16, data: NonEmpty)
    | Unhandled(typ: PayloadType)
    | UnsetAddress
    | TimerStarted
    | TimerReset
    | Closed(mode: CloseMode)

  /** Calls an application makes on the connection from inside its callbacks. */
  datatype AppCall =
    | SendAck(source: uint16, positive: bool, code: byte)
    | SendPayload(source: uint16, data: AppData)

  datatype Notice = Notice(calls: seq<AppCall>, accept: bool)

  datatype WriteResult = Wrote(count: nat) | WriteFailed | WriteFatal

  /** The application sees the callbacks so far; the outcome of a write and the reading of the clock
      may depend on anything that happened; `memory` is what a fresh allocation holds. */
  datatype Env = Env(
    notify: (seq<Event>, uint16) -> Notice,
    deliver: (seq<Event>, uint16, NonEmpty) -> seq<AppCall>,
    write: (seq<Event>, seq<byte>) -> WriteResult,
    clock: seq<Event> -> int,
    memory: nat -> byte)

  function Keep(p: Event -> bool, t: seq<Event>): (k: seq<Event>)
    ensures forall e :: e in k ==> e in t && p(e)
  {
    if t == [] then []
    else (if p(t[0]) then [t[0]] else []) + Keep(p, t[1..])
  }

  lemma {:induction false} KeepConcat(p: Event -> bool, a: seq<Event>, b: seq<Event>)
    ensures Keep(p, a + b) == Keep(p, a) + Keep(p, b)
  {
    if a == [] {
      assert a + b == b;
    } else {
      assert (a + b)[1..] == a[1..] + b;
      KeepConcat(p, a[1..], b);
    }
  }

  lemma KeepSnoc(p: Event -> bool, a: seq<Event>, e: Event)
    ensures Keep(p, a + [e]) == Keep(p, a) + if p(e) then [e] else []
  {
    KeepConcat(p, a, [e]);
    assert [e][1..] == [];
  }

  lemma {:induction false} KeepEmpty(p: Event -> bool, t: seq<Event>)
    requires Keep(p, t) == []
    ensures forall i :: 0 <= i < |t| ==> !p(t[i])
  {
    if t != [] {
      KeepEmpty(p, t[1..]);
      assert t == [t[0]] + t[1..];
    }
  }

  /** As far as `p` looks, `t` grew into `u` by exactly `es`. */
  predicate Grows(p: Event -> bool, t: seq<Event>, u: seq<Event>, es: seq<Event>) {
    Keep(p, u) == Keep(p, t) + es
  }

  lemma GrowsLog(p: Event -> bool, t: seq<Event>, e: Event)
    ensures Grows(p, t, t + [e], if p(e) then [e] else [])
  {
    KeepSnoc(p, t, e);
  }

  lemma GrowsBoth(p: Event -> bool, t: seq<Event>, u: seq<Event>, v: seq<Event>, a: seq<Event>, b: seq<Event>)
    requires Grows(p, t, u, a) && Grows(p, u, v, b)
    ensures Grows(p, t, v, a + b)
  {
    assert Keep(p, t) + a + b == Keep(p, t) + (a + b);
  }

  predicate IsCallback(e: Event) {
    e.Notified? || e.Delivered?
  }

  predicate IsDelivery(e: Event) {
    e.Delivered?
  }
}
