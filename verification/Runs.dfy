/** The driver loop over any fragmentation of any stream is the reference semantics; the one
    case in which it is not, and what happens then. */
module Runs {
  import opened Bytes
  import opened GenericHeader
  import opened Trace
  import opened ConnectionSpec
  import opened Frames

  // ---------- State facts every reaction keeps ----------

  /** What no operation changes: the gateway address and two of the timer's flags; an active
      timer stays active; closing is final and takes the TLS layer with it. */
  predicate Later(c: Core, d: Core) {
    && d.gateway == c.gateway
    && d.timer.timeout == c.timer.timeout && d.timer.disabled == c.timer.disabled
    && (c.timer.active ==> d.timer.active)
    && (d.open ==> c.open && d.tls == c.tls)
    && (!d.open ==> (c.open || c.tls == d.tls) && (c.open ==> !d.tls))
  }

  lemma {:induction false} PerformKeeps(env: Env, c: Core, calls: seq<AppCall>)
    ensures var d := Perform(env, c, calls);
            d == c.(trace := d.trace, tlsError := d.tlsError)
    decreases |calls|
  {
    if calls != [] {
      PerformKeeps(env, Do(env, c, calls[0]), calls[1..]);
    }
  }

  lemma PassKeeps(env: Env, c: Core, payload: seq<byte>)
    requires 5 <= |payload| < 0x1_0000_0000
    ensures var d := Pass(env, c, payload);
            d == c.(trace := d.trace, tlsError := d.tlsError)
  {
    var length := ToInt32(|payload|);
    if c.routed.Some? && length >= 4 {
      var p := DiagnosticMessages.ParseMessage(c.routed.value, payload, length).delivery;
      if p.Some? {
        PerformKeeps(env, Log(c, Delivered(Addr(payload[0], payload[1]), p.value.target, p.value.data)),
                     env.deliver(Keep(IsCallback, c.trace), p.value.target, p.value.data));
      }
    }
  }

  lemma DiagnoseKeeps(env: Env, c: Core, payload: seq<byte>)
    requires 5 <= |payload| < 0x1_0000_0000
    ensures var d := Diagnose(env, c, payload);
            d == c.(trace := d.trace, tlsError := d.tlsError)
  {
    var target := Value16(payload[2], payload[3]);
    PerformKeeps(env, Log(c, Notified(target)), env.notify(Keep(IsCallback, c.trace), target).calls);
    PassKeeps(env, Notify(env, c, target), payload);
  }

  lemma ActivateLater(env: Env, c: Core, payload: seq<byte>)
    requires |payload| >= 3
    ensures Later(c, Activate(env, c, payload).core)
  {
  }

  lemma ReactLater(env: Env, c: Core, a: Action, payload: seq<byte>)
    requires Safe(a, payload)
    ensures Later(c, React(env, c, a, payload).core)
  {
    if a.typ.DiagnosticMessage? {
      DiagnoseKeeps(env, c, payload);
    } else if a.typ.RoutingActivationRequest? {
      ActivateLater(env, c, payload);
    }
  }

  lemma HandleLater(env: Env, c: Core, h: seq<byte>, payload: seq<byte>)
    requires |h| >= 8 && |payload| == Parse(h).payloadLength
    ensures Later(c, Handle(env, c, h, payload).core)
  {
    ParsedIsSafe(h, payload);
    ReactLater(env, Touch(env, c), Parse(h), payload);
  }

  lemma ReceiveLater(env: Env, c: Core, inbox: seq<Read>)
    ensures Later(c, ReceiveMessage(env, c, inbox).core)
  {
    var g, h := ReadExact(inbox, HEADER_LENGTH), ReceiveHeader(c, inbox);
    if h.Some? {
      var b := ReceivePayload(env, c, g.rest, Parse(h.value).payloadLength);
      if b.payload.Some? {
        HandleLater(env, b.core, h.value, b.payload.value);
      }
    }
  }

  // ---------- One receive ----------

  lemma HeaderTells(c: Core, g: Got)
    requires !c.timer.timeout
    requires if g.failure.None? then |g.data| == HEADER_LENGTH else |g.data| < HEADER_LENGTH
    ensures HeaderIn(c, g) == if g.failure.None? then Some(g.data) else None
  {
  }

  lemma HeaderArrives(c: Core, inbox: seq<Read>)
    requires !c.timer.timeout
    ensures var s, g := Arrived(inbox), ReadExact(inbox, HEADER_LENGTH);
            if |s| >= 8
            then && ReceiveHeader(c, inbox) == Some(s[..8])
                 && Arrived(g.rest) == s[8..] && Ending(g.rest) == Ending(inbox)
                 && AfterFailure(g.rest) == AfterFailure(inbox)
            else && ReceiveHeader(c, inbox) == None
                 && g.failure == Some(Ending(inbox)) && g.rest == AfterFailure(inbox)
  {
    ReadExactArrived(inbox, HEADER_LENGTH);
    HeaderTells(c, ReadExact(inbox, HEADER_LENGTH));
  }

  lemma PayloadArrives(env: Env, c: Core, inbox: seq<Read>, n: uint32)
    requires |Arrived(inbox)| >= n
    ensures var s, b := Arrived(inbox), ReceivePayload(env, c, inbox, n);
            && b.core == c && b.payload == Some(s[..n])
            && Arrived(b.inbox) == s[n..] && Ending(b.inbox) == Ending(inbox)
            && AfterFailure(b.inbox) == AfterFailure(inbox)
  {
    ReadExactArrived(inbox, n);
    if n > 0 {
      var s, p := Arrived(inbox), ReadExact(inbox, n);
      assert p.failure == None && p.data == s[..n];
      assert Buffer(env, s[..n], n) == s[..n];
    }
  }

  lemma PayloadFails(env: Env, c: Core, inbox: seq<Read>, n: uint32)
    requires |Arrived(inbox)| < n
    ensures var end := AfterRead(c, Some(Ending(inbox)));
            ReceivePayload(env, c, inbox, n)
            == if c.tls && Ending(inbox) != EndOfStream && n == 0xFFFF_FFFF
               then Body(end, AfterFailure(inbox), Some(Buffer(env, Arrived(inbox), n)))
               else Body(CloseSocket(end, false), AfterFailure(inbox), None)
  {
    ReadExactArrived(inbox, n);
  }

  lemma ReceiveComplete(env: Env, c: Core, inbox: seq<Read>)
    requires c.open && !c.timer.timeout && !Truncated(Arrived(inbox))
    ensures var st, r := Split(Arrived(inbox)), ReceiveMessage(env, c, inbox);
            && st.frames != [] && r.core == Dispatch(env, c, st.frames[0])
            && r.code == Handle(env, c, st.frames[0].header, st.frames[0].payload).code
            && Split(Arrived(r.inbox)) == Stream(st.frames[1..], st.rest)
            && Ending(r.inbox) == Ending(inbox) && AfterFailure(r.inbox) == AfterFailure(inbox)
  {
    var s := Arrived(inbox);
    SplitStep(s);
    HeaderArrives(c, inbox);
    var g := ReadExact(inbox, HEADER_LENGTH);
    var n := Parse(s[..8]).payloadLength;
    PayloadArrives(env, c, g.rest, n);
    assert s[8..][..n] == s[8..8 + n] && s[8..][n..] == s[8 + n..];
  }

  lemma MistakenByLength(tls: bool, inbox: seq<Read>)
    requires Truncated(Arrived(inbox)) && |Arrived(inbox)| >= 8
    ensures Mistaken(tls, inbox) <==>
            tls && Ending(inbox) != EndOfStream && Parse(Arrived(inbox)[..8]).payloadLength == 0xFFFF_FFFF
  {
  }

  lemma ReceiveTruncatedPayload(env: Env, c: Core, inbox: seq<Read>)
    requires c.open && !c.timer.timeout && Truncated(Arrived(inbox)) && |Arrived(inbox)| >= 8
    ensures var s, why, r := Arrived(inbox), Ending(inbox), ReceiveMessage(env, c, inbox);
            && r.inbox == AfterFailure(inbox)
            && r.core == if Mistaken(c.tls, inbox) then Dispatch(env, AfterRead(c, Some(why)), Filled(env, s))
                         else Finish(c, why)
  {
    var s := Arrived(inbox);
    HeaderArrives(c, inbox);
    MistakenByLength(c.tls, inbox);
    PayloadFails(env, c, ReadExact(inbox, HEADER_LENGTH).rest, Parse(s[..8]).payloadLength);
  }

  lemma ReceiveTruncated(env: Env, c: Core, inbox: seq<Read>)
    requires c.open && !c.timer.timeout && Truncated(Arrived(inbox))
    ensures var s, why, r := Arrived(inbox), Ending(inbox), ReceiveMessage(env, c, inbox);
            && Split(s) == Stream([], s)
            && r.inbox == AfterFailure(inbox)
            && r.core == if Mistaken(c.tls, inbox) then Dispatch(env, AfterRead(c, Some(why)), Filled(env, s))
                         else Finish(c, why)
  {
    if |Arrived(inbox)| >= 8 {
      ReceiveTruncatedPayload(env, c, inbox);
    } else {
      HeaderArrives(c, inbox);
    }
  }

  // ---------- Runs ----------

  lemma Regroup(a: Frame, fs: seq<Frame>, g: Frame, gs: seq<Frame>)
    ensures ([a] + fs) + [g] + gs == [a] + (fs + [g] + gs)
  {
  }

  lemma TakenStep(env: Env, tls: bool, inbox: seq<Read>, next: seq<Read>, f: Frame)
    requires var st, st1 := Split(Arrived(inbox)), Split(Arrived(next));
             st.frames == [f] + st1.frames && st.rest == st1.rest
    requires Ending(next) == Ending(inbox) && AfterFailure(next) == AfterFailure(inbox)
    ensures var t, u := Taken(env, tls, inbox), Taken(env, tls, next);
            t == u.(frames := [f] + u.frames)
  {
    if Mistaken(tls, inbox) && Ending(inbox) != FatalError {
      Regroup(f, Split(Arrived(next)).frames, Filled(env, Split(Arrived(inbox)).rest),
              Taken(env, tls, AfterFailure(inbox)).frames);
    }
  }

  /** Each receive handles the next frame the input is taken for, or ends the connection. */
  lemma ReceiveTakes(env: Env, c: Core, inbox: seq<Read>)
    requires c.open && !c.timer.timeout
    ensures var t, r := Taken(env, c.tls, inbox), ReceiveMessage(env, c, inbox);
            if t.frames == [] then r.core == Conclude(env, c, t.ending, t.tail) && !r.core.open
            else r.core == Dispatch(env, c, t.frames[0])
                 && Taken(env, c.tls, r.inbox) == t.(frames := t.frames[1..])
  {
    var st, r := Split(Arrived(inbox)), ReceiveMessage(env, c, inbox);
    if !Truncated(Arrived(inbox)) {
      ReceiveComplete(env, c, inbox);
      assert st.frames == [st.frames[0]] + st.frames[1..];
      TakenStep(env, c.tls, inbox, r.inbox, st.frames[0]);
    } else {
      ReceiveTruncated(env, c, inbox);
      if Mistaken(c.tls, inbox) && Ending(inbox) == FatalError {
        var f := Filled(env, st.rest);
        HandleLater(env, Finish(c, FatalError), f.header, f.payload);
      }
    }
  }

  lemma MeaningStep(env: Env, c: Core, t: Intake)
    requires c.open && t.frames != []
    ensures Meaning(env, c, t) == Meaning(env, Dispatch(env, c, t.frames[0]), t.(frames := t.frames[1..]))
  {
  }

  lemma ClosedMeaning(env: Env, c: Core, t: Intake)
    requires !c.open
    ensures Meaning(env, c, t) == c
  {
  }

  /** One theorem for every input, however it is cut and however its reads fail: the driver loop
      handles the frames the input is taken for, one after the other, and then its ending. */
  lemma {:induction false} RunIsMeaning(env: Env, c: Core, inbox: seq<Read>)
    requires c.open && !c.timer.timeout
    ensures Run(env, c, inbox).0 == Meaning(env, c, Taken(env, c.tls, inbox))
    decreases Size(inbox)
  {
    var t, r := Taken(env, c.tls, inbox), ReceiveMessage(env, c, inbox);
    ReceiveTakes(env, c, inbox);
    if t.frames != [] {
      MeaningStep(env, c, t);
      HandleLater(env, c, t.frames[0].header, t.frames[0].payload);
      if r.core.open {
        RunIsMeaning(env, r.core, r.inbox);
      } else {
        ClosedMeaning(env, r.core, t.(frames := t.frames[1..]));
      }
    }
  }

  /** The same bytes up to each failure that the server overlooks, the same kinds of failure. */
  predicate SameInput(tls: bool, one: seq<Read>, two: seq<Read>)
    decreases Size(one)
  {
    && Arrived(one) == Arrived(two) && Ending(one) == Ending(two)
    && (Mistaken(tls, one) && Ending(one) == OtherError ==> SameInput(tls, AfterFailure(one), AfterFailure(two)))
  }

  lemma {:induction false} SameInputTaken(env: Env, tls: bool, one: seq<Read>, two: seq<Read>)
    requires SameInput(tls, one, two)
    ensures Taken(env, tls, one) == Taken(env, tls, two)
    decreases Size(one)
  {
    if Mistaken(tls, one) && Ending(one) == OtherError {
      SameInputTaken(env, tls, AfterFailure(one), AfterFailure(two));
    }
  }

  /** Fragmentation independence: two ways of cutting the same bytes, with the same kinds of
      failures, cannot be told apart by anything the connection does. */
  lemma FragmentationIndependence(env: Env, c: Core, one: seq<Read>, two: seq<Read>)
    requires c.open && !c.timer.timeout && SameInput(c.tls, one, two)
    ensures Run(env, c, one).0 == Run(env, c, two).0
  {
    RunIsMeaning(env, c, one);
    RunIsMeaning(env, c, two);
    SameInputTaken(env, c.tls, one, two);
  }
}
