/** Frames, byte streams and the reference semantics of a connection: split the stream, then
    react to one frame after the other until a reaction closes the socket. */
module Frames {
  import opened Bytes
  import opened GenericHeader
  import opened RoutingActivation
  import opened Trace
  import opened ConnectionSpec

  datatype RawFrame = RawFrame(header: seq<byte>, payload: seq<byte>)

  predicate Complete(f: RawFrame) {
    |f.header| == 8 && |f.payload| == Parse(f.header).payloadLength
  }

  type Frame = f: RawFrame | Complete(f) witness RawFrame([0, 0, 0, 0, 0, 0, 0, 0], [])

  function Concat(fs: seq<Frame>): seq<byte> {
    if fs == [] then [] else fs[0].header + fs[0].payload + Concat(fs[1..])
  }

  /** The bytes end inside a header or inside the payload the header announces. */
  predicate Truncated(t: seq<byte>) {
    |t| < 8 || |t| - 8 < Parse(t[..8]).payloadLength
  }

  datatype Stream = Stream(frames: seq<Frame>, rest: seq<byte>)

  function Split(s: seq<byte>): (r: Stream)
    ensures Truncated(r.rest) && |r.rest| <= |s|
    decreases |s|
  {
    if Truncated(s) then Stream([], s)
    else
      var n := 8 + Parse(s[..8]).payloadLength;
      var f := RawFrame(s[..8], s[8..n]);
      var r := Split(s[n..]);
      Stream([f] + r.frames, r.rest)
  }

  lemma SplitStep(s: seq<byte>)
    requires !Truncated(s)
    ensures var n, r := 8 + Parse(s[..8]).payloadLength, Split(s);
            && r.frames != []
            && r.frames[0] == RawFrame(s[..8], s[8..n])
            && Split(s[n..]) == Stream(r.frames[1..], r.rest)
  {
  }

  lemma Associate(a: seq<byte>, b: seq<byte>, c: seq<byte>, d: seq<byte>)
    ensures a + b + c + d == a + b + (c + d)
  {
  }

  lemma ConcatHead(fs: seq<Frame>, t: seq<byte>)
    requires fs != []
    ensures Concat(fs) + t == fs[0].header + fs[0].payload + (Concat(fs[1..]) + t)
  {
    Associate(fs[0].header, fs[0].payload, Concat(fs[1..]), t);
  }

  lemma Rejoin(s: seq<byte>, n: nat)
    requires 8 <= n <= |s|
    ensures s[..8] + s[8..n] + s[n..] == s
  {
  }

  lemma {:induction false} SplitWhole(s: seq<byte>)
    ensures Concat(Split(s).frames) + Split(s).rest == s
    decreases |s|
  {
    var r := Split(s);
    if r.frames != [] {
      SplitStep(s);
      var n := 8 + |r.frames[0].payload|;
      SplitWhole(s[n..]);
      ConcatHead(r.frames, r.rest);
      Rejoin(s, n);
    }
  }

  /** A stream has only one reading as frames. */
  lemma {:induction false} SplitConcat(fs: seq<Frame>, t: seq<byte>)
    requires Truncated(t)
    ensures Split(Concat(fs) + t) == Stream(fs, t)
    decreases |fs|
  {
    var s := Concat(fs) + t;
    if fs == [] {
      assert s == t;
    } else {
      var f := fs[0];
      ConcatHead(fs, t);
      assert s[..8] == f.header;
      var n := 8 + |f.payload|;
      assert s[8..n] == f.payload && s[n..] == Concat(fs[1..]) + t;
      SplitConcat(fs[1..], t);
      assert RawFrame(s[..8], s[8..n]) == f;
      assert [f] + fs[1..] == fs;
    }
  }

  // ---------- Reference semantics ----------

  function Dispatch(env: Env, c: Core, f: Frame): Core {
    Handle(env, c, f.header, f.payload).core
  }

  function DispatchAll(env: Env, c: Core, fs: seq<Frame>): Core
    decreases |fs|
  {
    if fs == [] || !c.open then c else DispatchAll(env, Dispatch(env, c, fs[0]), fs[1..])
  }

  lemma DispatchCons(env: Env, c: Core, f: Frame, gs: seq<Frame>)
    requires c.open
    ensures DispatchAll(env, c, [f] + gs) == DispatchAll(env, Dispatch(env, c, f), gs)
  {
    assert ([f] + gs)[1..] == gs;
  }

  /** What the end of the input does to a connection that is still open. */
  function Finish(c: Core, why: Failure): Core {
    if !c.open then c else CloseSocket(AfterRead(c, Some(why)), false)
  }

  function Reference(env: Env, c: Core, s: seq<byte>, why: Failure): Core {
    Finish(DispatchAll(env, c, Split(s).frames), why)
  }

  // ---------- Input as bytes ----------

  /** All bytes that arrive before the first failed read. */
  function Arrived(inbox: seq<Read>): seq<byte> {
    if inbox == [] || inbox[0].Failed? then [] else inbox[0].data + Arrived(inbox[1..])
  }

  function Ending(inbox: seq<Read>): Failure {
    if inbox == [] then EndOfStream
    else if inbox[0].Failed? then inbox[0].why
    else Ending(inbox[1..])
  }

  function AfterFailure(inbox: seq<Read>): (r: seq<Read>)
    ensures Size(r) <= Size(inbox)
    ensures Arrived(inbox) != [] ==> Size(r) < Size(inbox)
  {
    if inbox == [] then []
    else if inbox[0].Failed? then inbox[1..]
    else AfterFailure(inbox[1..])
  }

  /** The receive loop depends on the bytes that arrive, not on how they are cut. */
  lemma {:induction false} ReadExactArrived(inbox: seq<Read>, n: nat)
    ensures var g, s := ReadExact(inbox, n), Arrived(inbox);
            if |s| >= n
            then && g.data == s[..n] && g.failure == None
                 && Arrived(g.rest) == s[n..] && Ending(g.rest) == Ending(inbox)
                 && AfterFailure(g.rest) == AfterFailure(inbox)
            else g == Got(s, Some(Ending(inbox)), AfterFailure(inbox))
    decreases |inbox|
  {
    if n != 0 && inbox != [] && inbox[0].Chunk? {
      var b, s := inbox[0].data, Arrived(inbox);
      assert s == b + Arrived(inbox[1..]);
      if |b| <= n {
        ReadExactArrived(inbox[1..], n - |b|);
        if |s| >= n {
          assert s[..n] == b + Arrived(inbox[1..])[..n - |b|];
          assert s[n..] == Arrived(inbox[1..])[n - |b|..];
        }
      } else {
        var r := [Chunk(b[n..])] + inbox[1..];
        assert r[1..] == inbox[1..];
        assert Arrived(r) == b[n..] + Arrived(inbox[1..]) == s[n..];
      }
    }
  }

  // ---------- What the code does to a frame, read off the bytes ----------

  /** The frames that make the server close: wrong pattern, wrong length for the type, or an
      activation from outside the tester range or of an unsupported type. */
  predicate Refused(f: Frame) {
    var h, code, n := f.header, TypeCode(f.header), LengthField(f.header);
    || !Synchronised(h)
    || (code == 0x0005 && n != 7 && n != 11)
    || (code == 0x0001 && n != 0)
    || (code == 0x0004 && n != 32 && n != 33)
    || (code == 0x8001 && n <= 4)
    || (code == 0x0005 && (n == 7 || n == 11)
        && (!IsTesterAddress(Value16(f.payload[0], f.payload[1])) || f.payload[2] > 0x01))
  }

  predicate Unknown(f: Frame) {
    Synchronised(f.header)
    && TypeCode(f.header) !in {0x0001, 0x0004, 0x0005, 0x8001, 0x8002, 0x8003}
  }

  /** The index of the first frame that makes the server close, or the number of frames. */
  function FirstRefused(fs: seq<Frame>): (k: nat)
    ensures k <= |fs|
    ensures k < |fs| ==> Refused(fs[k])
    ensures forall i :: 0 <= i < k ==> !Refused(fs[i])
  {
    if fs == [] || Refused(fs[0]) then 0 else 1 + FirstRefused(fs[1..])
  }

  predicate NoneRefused(fs: seq<Frame>) {
    FirstRefused(fs) == |fs|
  }

  // ---------- Truncated frames that count as complete ----------

  /** The bytes end inside a payload announced as 2^32 - 1 bytes. */
  predicate InHugePayload(t: seq<byte>) {
    |t| >= 8 && Synchronised(t[..8]) && LengthField(t[..8]) == 0xFFFF_FFFF
  }

  /** Over TLS a failed read other than an orderly end returns -1. Narrowed to 32 bits that is
      the length a header of FF FF FF FF announces, so the truncated frame counts as complete. */
  predicate Mistaken(tls: bool, inbox: seq<Read>) {
    tls && Ending(inbox) != EndOfStream && InHugePayload(Split(Arrived(inbox)).rest)
  }

  /** The mistake is made: no earlier frame has closed the connection. */
  predicate Overruns(tls: bool, inbox: seq<Read>) {
    Mistaken(tls, inbox) && NoneRefused(Split(Arrived(inbox)).frames)
  }

  /** The frame the server then handles: what is missing is whatever the allocation held. */
  function Filled(env: Env, t: seq<byte>): Frame
    requires Truncated(t) && InHugePayload(t)
  {
    RawFrame(t[..8], Buffer(env, t[8..], 0xFFFF_FFFF))
  }

  /** A truncated frame that is taken for complete is refused for its type alone. */
  predicate RefusedType(t: seq<byte>)
    requires |t| >= 8
  {
    TypeCode(t[..8]) in {0x0001, 0x0004, 0x0005}
  }

  lemma FilledRefused(env: Env, t: seq<byte>)
    requires Truncated(t) && InHugePayload(t)
    ensures Refused(Filled(env, t)) <==> RefusedType(t)
  {
  }

  /** What the server takes its input for: the frames it handles one after the other, the
      failure that ends them, and the frame it handles after a fatal one has closed the socket. */
  datatype Intake = Intake(frames: seq<Frame>, ending: Failure, tail: Option<Frame>)

  function Taken(env: Env, tls: bool, inbox: seq<Read>): Intake
    decreases Size(inbox)
  {
    var st, why := Split(Arrived(inbox)), Ending(inbox);
    if !Mistaken(tls, inbox) then Intake(st.frames, why, None)
    else if why == FatalError then Intake(st.frames, why, Some(Filled(env, st.rest)))
    else
      var r := Taken(env, tls, AfterFailure(inbox));
      r.(frames := st.frames + [Filled(env, st.rest)] + r.frames)
  }

  function Tail(tail: Option<Frame>): seq<Frame> {
    if tail.Some? then [tail.value] else []
  }

  /** The end of the input on an open connection, and the frame that is handled after it. */
  function Conclude(env: Env, c: Core, why: Failure, tail: Option<Frame>): Core {
    if !c.open || tail.None? then Finish(c, why) else Dispatch(env, Finish(c, why), tail.value)
  }

  function Meaning(env: Env, c: Core, taken: Intake): Core {
    Conclude(env, DispatchAll(env, c, taken.frames), taken.ending, taken.tail)
  }
}
