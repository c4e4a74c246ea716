/** The promise that a closed connection stays quiet, and the exact input on which it fails. */
module AfterClose {
  import opened Bytes
  import opened GenericHeader
  import opened Trace
  import opened ConnectionSpec
  import opened Frames
  import opened Runs
  import opened Safety
  import opened Closing

  /** Nothing happens after the close. */
  predicate Quiet(t: seq<Event>) {
    forall i :: 0 <= i < |t| - 1 ==> !IsClose(t[i])
  }

  // ---------- The input that decides, as bytes ----------

  /** A fatal read error reaches a TLS connection that no frame has closed: in the first stretch
      of bytes, or in a later one if the server overlooks that the first one failed otherwise. */
  predicate FatalEnd(tls: bool, inbox: seq<Read>)
    decreases Size(inbox)
  {
    var st, why := Split(Arrived(inbox)), Ending(inbox);
    && tls && NoneRefused(st.frames)
    && (why == FatalError ||
        (Overruns(tls, inbox) && !RefusedType(st.rest) && FatalEnd(tls, AfterFailure(inbox))))
  }

  /** That read error falls into a payload announced as 2^32 - 1 bytes. */
  predicate FatalOverrun(tls: bool, inbox: seq<Read>)
    decreases Size(inbox)
  {
    && Overruns(tls, inbox)
    && (Ending(inbox) == FatalError ||
        (!RefusedType(Split(Arrived(inbox)).rest) && FatalOverrun(tls, AfterFailure(inbox))))
  }

  /** How a frame in between decides about the frames before and after it. */
  lemma NoneRefusedAround(fs: seq<Frame>, g: Frame, gs: seq<Frame>)
    ensures NoneRefused(fs + [g] + gs) <==> NoneRefused(fs) && !Refused(g) && NoneRefused(gs)
  {
    FirstRefusedConcat(fs, [g] + gs);
    FirstRefusedConcat([g], gs);
    assert fs + [g] + gs == fs + ([g] + gs);
    assert [g][1..] == [];
  }

  lemma {:induction false} TakenBytes(env: Env, tls: bool, inbox: seq<Read>)
    ensures var t := Taken(env, tls, inbox);
            && (tls && NoneRefused(t.frames) && t.ending == FatalError <==> FatalEnd(tls, inbox))
            && (NoneRefused(t.frames) && t.tail.Some? <==> FatalOverrun(tls, inbox))
    decreases Size(inbox)
  {
    var st := Split(Arrived(inbox));
    if Mistaken(tls, inbox) && Ending(inbox) != FatalError {
      FilledRefused(env, st.rest);
      NoneRefusedAround(st.frames, Filled(env, st.rest), Taken(env, tls, AfterFailure(inbox)).frames);
      TakenBytes(env, tls, AfterFailure(inbox));
    }
  }

  // ---------- Nothing after the close ----------

  lemma OneCloseIsQuiet(t: seq<Event>, e: Event)
    requires |Keep(IsClose, t)| == 1 && EndsWith(t, e) && IsClose(e)
    ensures Quiet(t)
  {
    var s := t[..|t| - 1];
    assert t == s + [e];
    KeepSnoc(IsClose, s, e);
    assert |Keep(IsClose, s)| == 0;
    KeepEmpty(IsClose, s);
    forall i | 0 <= i < |t| - 1 ensures !IsClose(t[i]) {
      assert t[i] == s[i];
    }
  }

  /** For every input: the trace is quiet after the close if and only if no fatal overrun occurs. */
  lemma QuietAfterClose(env: Env, c: Core, inbox: seq<Read>)
    requires Inv(env, c) && c.open && !c.timer.timeout
    ensures Quiet(Run(env, c, inbox).0.trace) <==> !FatalOverrun(c.tls, inbox)
  {
    var t := Taken(env, c.tls, inbox);
    TakenBytes(env, c.tls, inbox);
    RunIsMeaning(env, c, inbox);
    RunServes(env, c, inbox);
    RunClosesOnce(env, c, inbox);
    if FatalOverrun(c.tls, inbox) {
      var d := DispatchAll(env, c, t.frames);
      DispatchAllServes(env, c, t.frames);
      ConcludeCloses(env, d, t.ending, t.tail);
      assert IsClose(Run(env, c, inbox).0.trace[|Finish(d, t.ending).trace| - 1]);
    } else {
      OneCloseIsQuiet(Run(env, c, inbox).0.trace, LastClose(c.tls, t.frames, t.ending));
    }
  }

  /** The failing input is real: a TLS peer announces 2^32 - 1 bytes of an unknown type and its
      next read fails fatally. The server closes, and then writes a negative acknowledgement. */
  lemma SendsAfterClose(env: Env, gateway: uint16)
    ensures var c := Accepted(true, gateway);
            var header := [0x02, 0xFD, 0x00, 0x00, 0xFF, 0xFF, 0xFF, 0xFF];
            Run(env, c, [Chunk(header), Failed(FatalError)]).0.trace
            == [Closed(AbruptClose), Sent(NackReply, NackWire(UNKNOWN_PAYLOAD_TYPE))]
  {
    var c := Accepted(true, gateway);
    var header := [0x02, 0xFD, 0x00, 0x00, 0xFF, 0xFF, 0xFF, 0xFF];
    var inbox := [Chunk(header), Failed(FatalError)];
    assert inbox[1..] == [Failed(FatalError)];
    assert Arrived([Failed(FatalError)]) == [] && Ending([Failed(FatalError)]) == FatalError;
    assert Arrived(inbox) == header && Ending(inbox) == FatalError;
    assert header[..8] == header;
    assert Parse(header) == Action(NegativeAck, Some(UNKNOWN_PAYLOAD_TYPE), 0xFFFF_FFFF);
    assert Split(header) == Stream([], header);
    assert Taken(env, true, inbox) == Intake([], FatalError, Some(Filled(env, header)));
    RunIsMeaning(env, c, inbox);
  }

  // ---------- SSL_shutdown after a fatal error ----------

  /** The source keeps track of fatal errors of reads only. For every input of a TLS connection:
      OpenSSL has reported a fatal error exactly if a read failed fatally (and SSL_shutdown was
      skipped) or a write did before the close; SSL_shutdown is attempted after such an error
      exactly if a write failed fatally and no fatal read ended the connection. */
  lemma ShutdownAfterError(env: Env, gateway: uint16, inbox: seq<Read>)
    ensures var r := Run(env, Accepted(true, gateway), inbox).0;
            && (r.tlsError <==> Closed(AbruptClose) in r.trace || FatalWrite(env, r.trace))
            && (Closed(ShutdownClose) in r.trace && r.tlsError <==>
                Closed(AbruptClose) !in r.trace && FatalWrite(env, r.trace))
            && (Closed(AbruptClose) in r.trace <==> FatalEnd(true, inbox))
  {
    var c := Accepted(true, gateway);
    var t, r := Taken(env, true, inbox), Run(env, c, inbox).0;
    RunErrors(env, true, gateway, inbox);
    AcceptedInv(env, true, gateway);
    RunClosesOnce(env, c, inbox);
    TakenBytes(env, true, inbox);
    KeptIsIn(IsClose, r.trace, LastClose(true, t.frames, t.ending));
  }

  lemma KeptIsIn(p: Event -> bool, t: seq<Event>, last: Event)
    requires Keep(p, t) == [last]
    ensures forall e :: e in t && p(e) <==> e == last
  {
    assert last in Keep(p, t);
    forall e | e in t && p(e) ensures e == last {
      KeepContains(p, t, e);
    }
  }

  lemma {:induction false} KeepContains(p: Event -> bool, t: seq<Event>, e: Event)
    requires e in t && p(e)
    ensures e in Keep(p, t)
  {
    if t[0] != e {
      KeepContains(p, t[1..], e);
    }
  }

  /** It does happen: the acknowledgement of a bad header fails fatally, and the close that the
      bad header causes still calls SSL_shutdown. */
  lemma ShutdownAfterFailedWrite(env: Env, gateway: uint16)
    requires env.write([], NackWire(INCORRECT_PATTERN)) == WriteFatal
    ensures var c := Accepted(true, gateway);
            var r := Run(env, c, [Chunk([0x02, 0x02, 0x00, 0x05, 0, 0, 0, 7])]).0;
            r.tlsError && r.trace == [Sent(NackReply, NackWire(INCORRECT_PATTERN)), Closed(ShutdownClose)]
  {
    var c := Accepted(true, gateway);
    var header := [0x02, 0x02, 0x00, 0x05, 0, 0, 0, 7];
    var inbox := [Chunk(header)];
    assert inbox[1..] == [];
    assert Arrived(inbox) == header && Ending(inbox) == EndOfStream;
    assert header[..8] == header;
    assert Parse(header) == Action(NegativeAck, Some(INCORRECT_PATTERN), 0);
    SplitConcat([RawFrame(header, [])], []);
    assert Concat([RawFrame(header, [])]) + [] == header;
    RunIsMeaning(env, c, inbox);
  }
}
