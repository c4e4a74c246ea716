/** The example application with any number of concurrent connections (exampleDoIPServer.cpp). Each
    connection is served by its handler's loop and watched by its own alive check timer; both call
    the application's close callback, which counts connections down. */
module Accounting {
  import opened Bytes
  import opened Trace
  import opened ConnectionSpec
  import opened Frames
  import opened Runs
  import opened Safety
  import opened InactivityTimer
  import Session
  import AliveCheck

  /** What was accepted (`env` to `input`), what the handler has made of it, and the timer. */
  datatype Conn = Conn(
    env: Env,
    tls: bool,
    gateway: uint16,
    input: seq<Read>,
    core: Core,
    inbox: seq<Read>,
    timer: AliveCheck.State,
    finished: bool)

  datatype App = App(counter: int, conns: seq<Conn>)

  datatype Step =
    /** The listener takes a connection, counts it and starts its handler. */
    | Accept(env: Env, tls: bool, gateway: uint16, input: seq<Read>, clock: int, startTime: int)
    /** The handler's loop finds the socket active and receives one message. */
    | Receive(i: nat)
    /** Time passes, the timer's thread takes a step, or the receiver takes its next one inside
        `startTimer` or `resetTimer`. */
    | Clockwork(i: nat, step: AliveCheck.Step)
    /** The handler's loop finds the socket closed and ends in `triggerDisconnection`. */
    | Finish(i: nat)

  predicate OfTimer(step: AliveCheck.Step) {
    step.Tick? || step.Continue? || step.Timer?
  }

  /** The step in which the timer's thread runs `aliveCheckTimeout`. */
  predicate IsTimeout(t: AliveCheck.State, step: AliveCheck.Step) {
    step.Timer? && step.thread < |t.threads| && t.threads[step.thread].Callback?
  }

  /** The connection with the timer's flags as they are; `startTimer` looks at `disabled` itself. */
  function Flagged(k: Conn): Core {
    k.core.(timer := TimerState(k.timer.active, false, k.timer.timeout, k.core.timer.startTime))
  }

  /** The handler's next receive, with the timer's flags as they are. What it logs of the timer is
      what it goes on to do with it: start it, or restart it. */
  function Serve(cfg: AliveCheck.Config, k: Conn): Conn
    requires AliveCheck.Sane(cfg) && k.timer.receiver == AliveCheck.Idle
  {
    var c := Flagged(k);
    var m := ReceiveMessage(k.env, c, k.inbox);
    var started := !c.timer.active && m.core.timer.active;
    var restarted := |Keep(IsReset, m.core.trace)| > |Keep(IsReset, c.trace)|;
    k.(core := m.core, inbox := m.inbox,
       timer := if started then AliveCheck.Apply(cfg, k.timer, AliveCheck.Activation)
                else if restarted then AliveCheck.Apply(cfg, k.timer, AliveCheck.Message)
                else k.timer)
  }

  function Wind(cfg: AliveCheck.Config, k: Conn, step: AliveCheck.Step): Conn
    requires AliveCheck.Sane(cfg) && AliveCheck.Enabled(k.timer, step)
  {
    k.(timer := AliveCheck.Apply(cfg, k.timer, step),
       core := if IsTimeout(k.timer, step) then CloseSocket(k.core, false) else k.core)
  }

  function Accepting(step: Step): Conn
    requires step.Accept?
  {
    Conn(step.env, step.tls, step.gateway, step.input, Accepted(step.tls, step.gateway), step.input,
         AliveCheck.State(step.clock, step.startTime, false, false, false, AliveCheck.Idle, [], []), false)
  }

  predicate Enabled(a: App, step: Step) {
    match step
    case Accept(_, _, _, _, _, _) => true
    case Receive(i) =>
      i < |a.conns| && var k := a.conns[i]; !k.finished && k.core.open && k.timer.receiver == AliveCheck.Idle
    case Clockwork(i, s) => i < |a.conns| && OfTimer(s) && AliveCheck.Enabled(a.conns[i].timer, s)
    case Finish(i) =>
      i < |a.conns| && var k := a.conns[i]; !k.finished && !k.core.open && k.timer.receiver == AliveCheck.Idle
  }

  /** Counting up and down is taken as one step each. */
  function Apply(cfg: AliveCheck.Config, a: App, step: Step): App
    requires AliveCheck.Sane(cfg) && Enabled(a, step)
  {
    match step
    case Accept(_, _, _, _, _, _) => App(a.counter + 1, a.conns + [Accepting(step)])
    case Receive(i) => a.(conns := a.conns[i := Serve(cfg, a.conns[i])])
    case Clockwork(i, s) =>
      App(if IsTimeout(a.conns[i].timer, s) then a.counter - 1 else a.counter,
          a.conns[i := Wind(cfg, a.conns[i], s)])
    case Finish(i) => App(a.counter - 1, a.conns[i := a.conns[i].(finished := true)])
  }

  predicate AllEnabled(cfg: AliveCheck.Config, a: App, steps: seq<Step>)
    requires AliveCheck.Sane(cfg)
    decreases |steps|
  {
    steps == [] || (Enabled(a, steps[0]) && AllEnabled(cfg, Apply(cfg, a, steps[0]), steps[1..]))
  }

  function Execute(cfg: AliveCheck.Config, a: App, steps: seq<Step>): App
    requires AliveCheck.Sane(cfg) && AllEnabled(cfg, a, steps)
    decreases |steps|
  {
    if steps == [] then a else Execute(cfg, Apply(cfg, a, steps[0]), steps[1..])
  }

  // ---------- One connection ----------

  /** The timer is as the invariants of `AliveCheck` say, is the one the connection started, and
      was not disabled by anything but its own timeout. */
  predicate TimerInv(cfg: AliveCheck.Config, k: Conn) {
    && AliveCheck.Inv(cfg, k.timer)
    && !k.timer.receiver.Joining? && !k.timer.receiver.Destroyed?
    && (k.timer.disabled ==> k.timer.threads != [])
    && (k.core.timer.active <==>
        k.timer.active || k.timer.receiver.CheckDisabled? || AliveCheck.Starting(k.timer))
    && !k.core.timer.disabled
  }

  /** As long as no timeout is flagged, the rest of the run is that of the sequential connection. */
  predicate Sequential(k: Conn) {
    k.timer.timeout ||
    (!k.core.timer.timeout && Run(k.env, k.core, k.inbox) == Run(k.env, Accepted(k.tls, k.gateway), k.input))
  }

  predicate ConnInv(cfg: AliveCheck.Config, k: Conn) {
    && TimerInv(cfg, k)
    && Sequential(k)
    && (k.finished || k.timer.fired != [] ==> !k.core.open)
    && Inv(k.env, k.core)
  }

  lemma ServeKeepsTimer(cfg: AliveCheck.Config, k: Conn)
    requires AliveCheck.Sane(cfg) && TimerInv(cfg, k) && k.timer.receiver == AliveCheck.Idle
    ensures TimerInv(cfg, Serve(cfg, k))
    ensures Serve(cfg, k).timer.timeout == k.timer.timeout && Serve(cfg, k).timer.fired == k.timer.fired
  {
    ReceiveLater(k.env, Flagged(k), k.inbox);
    AliveCheck.StepKeepsInv(cfg, k.timer, AliveCheck.Activation);
    AliveCheck.StepKeepsInv(cfg, k.timer, AliveCheck.Message);
  }

  lemma ServeKeepsSequence(cfg: AliveCheck.Config, k: Conn)
    requires AliveCheck.Sane(cfg) && TimerInv(cfg, k) && Sequential(k)
    requires k.core.open && k.timer.receiver == AliveCheck.Idle
    ensures Sequential(Serve(cfg, k))
  {
    ServeKeepsTimer(cfg, k);
    var c := Flagged(k);
    ReceiveLater(k.env, c, k.inbox);
    if !k.timer.timeout {
      assert c == k.core;
    }
  }

  lemma FlagsKeepInv(env: Env, c: Core, flags: TimerState)
    requires Inv(env, c) && flags.active == c.timer.active
    ensures Inv(env, c.(timer := flags))
  {
    var d := c.(timer := flags);
    assert RoutedInv(d) && CountInv(d) && ErrorInv(env, d);
  }

  lemma ServeKeepsInv(cfg: AliveCheck.Config, k: Conn)
    requires AliveCheck.Sane(cfg) && ConnInv(cfg, k)
    requires !k.finished && k.core.open && k.timer.receiver == AliveCheck.Idle
    ensures ConnInv(cfg, Serve(cfg, k))
  {
    ServeKeepsTimer(cfg, k);
    ServeKeepsSequence(cfg, k);
    var flags := Flagged(k).timer;
    FlagsKeepInv(k.env, k.core, flags);
    ReceiveInv(k.env, k.core.(timer := flags), k.inbox);
  }

  lemma WindKeepsTimer(cfg: AliveCheck.Config, k: Conn, step: AliveCheck.Step)
    requires AliveCheck.Sane(cfg) && TimerInv(cfg, k) && OfTimer(step) && AliveCheck.Enabled(k.timer, step)
    ensures TimerInv(cfg, Wind(cfg, k, step))
    ensures IsTimeout(k.timer, step) ==> k.timer.timeout && |Wind(cfg, k, step).timer.fired| == |k.timer.fired| + 1
    ensures !IsTimeout(k.timer, step) ==> Wind(cfg, k, step).timer.fired == k.timer.fired
    ensures k.timer.timeout ==> Wind(cfg, k, step).timer.timeout
  {
    AliveCheck.StepKeepsInv(cfg, k.timer, step);
  }

  lemma WindKeepsInv(cfg: AliveCheck.Config, k: Conn, step: AliveCheck.Step)
    requires AliveCheck.Sane(cfg) && ConnInv(cfg, k) && OfTimer(step) && AliveCheck.Enabled(k.timer, step)
    ensures ConnInv(cfg, Wind(cfg, k, step))
  {
    WindKeepsTimer(cfg, k, step);
    CloseInv(k.env, k.core);
  }

  lemma AcceptKeepsInv(cfg: AliveCheck.Config, step: Step)
    requires step.Accept?
    ensures ConnInv(cfg, Accepting(step))
  {
    AcceptedInv(step.env, step.tls, step.gateway);
  }

  // ---------- The timer and the handler ----------

  /** A message that the handler receives while the timer is active makes it restart the timer, and
      nothing else does. */
  lemma ServeRestarts(cfg: AliveCheck.Config, k: Conn)
    requires AliveCheck.Sane(cfg) && k.core.open
    requires k.timer.receiver == AliveCheck.Idle && k.timer.active && !k.timer.timeout
    ensures var t := Taken(k.env, k.core.tls, k.inbox);
            Serve(cfg, k).timer
            == if t.frames == [] && t.tail == None then k.timer
               else k.timer.(receiver := AliveCheck.SetStart(false))
  {
    ReceiveRestarts(k.env, Flagged(k), k.inbox);
  }

  /** With the timeout flagged in `k`, what has become of it by `u`: at most its socket was closed. */
  predicate Silent(k: Conn, u: Conn) {
    && u.timer.timeout && u.core.routed == k.core.routed
    && (u.core.open ==> k.core.open)
    && (if k.core.open && !u.core.open
        then |u.core.trace| == |k.core.trace| + 1 && k.core.trace < u.core.trace && u.core.trace[|k.core.trace|].Closed?
        else u.core.trace == k.core.trace)
  }

  lemma ServeIsSilent(cfg: AliveCheck.Config, k: Conn)
    requires AliveCheck.Sane(cfg) && k.timer.timeout && k.core.open && k.timer.receiver == AliveCheck.Idle
    ensures Silent(k, Serve(cfg, k))
  {
    TimedOutReceive(k.env, Flagged(k), k.inbox);
    var t := k.core.trace;
    KeepSnoc(IsReset, t, ReceiveMessage(k.env, Flagged(k), k.inbox).core.trace[|t|]);
  }

  lemma StepIsSilent(cfg: AliveCheck.Config, a: App, step: Step, i: nat)
    requires AliveCheck.Sane(cfg) && Enabled(a, step)
    requires i < |a.conns| && a.conns[i].timer.timeout
    ensures i < |Apply(cfg, a, step).conns| && Silent(a.conns[i], Apply(cfg, a, step).conns[i])
  {
    if step == Receive(i) {
      ServeIsSilent(cfg, a.conns[i]);
    }
  }

  /** From the moment a timeout is flagged, before the timer's callback or after it, the handler
      handles no message any more: no answer, no delivery, no activation, at most the close. */
  lemma {:induction false} TimedOutIsSilent(cfg: AliveCheck.Config, a: App, steps: seq<Step>, i: nat)
    requires AliveCheck.Sane(cfg) && AllEnabled(cfg, a, steps)
    requires i < |a.conns| && a.conns[i].timer.timeout
    ensures i < |Execute(cfg, a, steps).conns| && Silent(a.conns[i], Execute(cfg, a, steps).conns[i])
    decreases |steps|
  {
    if steps != [] {
      StepIsSilent(cfg, a, steps[0], i);
      TimedOutIsSilent(cfg, Apply(cfg, a, steps[0]), steps[1..], i);
    }
  }

  // ---------- Counting ----------

  /** How often the close callback has run for a connection. */
  function Callbacks(k: Conn): nat {
    |k.timer.fired| + if k.finished then 1 else 0
  }

  function AllCallbacks(ks: seq<Conn>): nat {
    if ks == [] then 0 else Callbacks(ks[0]) + AllCallbacks(ks[1..])
  }

  lemma {:induction false} CallbacksSnoc(ks: seq<Conn>, k: Conn)
    ensures AllCallbacks(ks + [k]) == AllCallbacks(ks) + Callbacks(k)
    decreases |ks|
  {
    if ks == [] {
      assert [k][1..] == [];
    } else {
      assert (ks + [k])[1..] == ks[1..] + [k];
      CallbacksSnoc(ks[1..], k);
    }
  }

  lemma {:induction false} CallbacksUpdate(ks: seq<Conn>, i: nat, k: Conn)
    requires i < |ks|
    ensures AllCallbacks(ks[i := k]) + Callbacks(ks[i]) == AllCallbacks(ks) + Callbacks(k)
    decreases |ks|
  {
    if i == 0 {
      assert ks[0 := k][1..] == ks[1..];
    } else {
      assert ks[i := k][1..] == ks[1..][i - 1 := k];
      CallbacksUpdate(ks[1..], i - 1, k);
    }
  }

  predicate AllConnInv(cfg: AliveCheck.Config, ks: seq<Conn>) {
    forall i :: 0 <= i < |ks| ==> ConnInv(cfg, ks[i])
  }

  predicate AppInv(cfg: AliveCheck.Config, a: App) {
    a.counter == |a.conns| - AllCallbacks(a.conns) && AllConnInv(cfg, a.conns)
  }

  lemma UpdateKeepsAll(cfg: AliveCheck.Config, ks: seq<Conn>, i: nat, k: Conn)
    requires i < |ks| && ConnInv(cfg, k) && AllConnInv(cfg, ks)
    ensures AllConnInv(cfg, ks[i := k])
  {
  }

  lemma UpdateKeepsInv(cfg: AliveCheck.Config, a: App, i: nat, k: Conn)
    requires AppInv(cfg, a) && i < |a.conns| && ConnInv(cfg, k)
    ensures AppInv(cfg, App(a.counter + Callbacks(a.conns[i]) - Callbacks(k), a.conns[i := k]))
  {
    CallbacksUpdate(a.conns, i, k);
    UpdateKeepsAll(cfg, a.conns, i, k);
  }

  lemma AppendKeepsInv(cfg: AliveCheck.Config, a: App, k: Conn)
    requires AppInv(cfg, a) && ConnInv(cfg, k) && Callbacks(k) == 0
    ensures AppInv(cfg, App(a.counter + 1, a.conns + [k]))
  {
    CallbacksSnoc(a.conns, k);
  }

  lemma FinishKeepsInv(cfg: AliveCheck.Config, k: Conn)
    requires ConnInv(cfg, k) && !k.core.open
    ensures ConnInv(cfg, k.(finished := true))
  {
  }

  lemma StepKeepsInv(cfg: AliveCheck.Config, a: App, step: Step)
    requires AliveCheck.Sane(cfg) && AppInv(cfg, a) && Enabled(a, step)
    ensures AppInv(cfg, Apply(cfg, a, step))
  {
    match step {
      case Accept(_, _, _, _, _, _) =>
        AcceptKeepsInv(cfg, step);
        AppendKeepsInv(cfg, a, Accepting(step));
      case Receive(i) =>
        var k := a.conns[i];
        assert ConnInv(cfg, k);
        ServeKeepsTimer(cfg, k);
        ServeKeepsInv(cfg, k);
        UpdateKeepsInv(cfg, a, i, Serve(cfg, k));
      case Clockwork(i, s) =>
        var k := a.conns[i];
        assert ConnInv(cfg, k);
        WindKeepsTimer(cfg, k, s);
        WindKeepsInv(cfg, k, s);
        UpdateKeepsInv(cfg, a, i, Wind(cfg, k, s));
      case Finish(i) =>
        var k := a.conns[i];
        assert ConnInv(cfg, k);
        FinishKeepsInv(cfg, k);
        UpdateKeepsInv(cfg, a, i, k.(finished := true));
    }
  }

  lemma {:induction false} RunKeepsInv(cfg: AliveCheck.Config, a: App, steps: seq<Step>)
    requires AliveCheck.Sane(cfg) && AppInv(cfg, a) && AllEnabled(cfg, a, steps)
    ensures AppInv(cfg, Execute(cfg, a, steps))
    decreases |steps|
  {
    if steps != [] {
      StepKeepsInv(cfg, a, steps[0]);
      RunKeepsInv(cfg, Apply(cfg, a, steps[0]), steps[1..]);
    }
  }

  /** In every reachable state and for every connection: the close callback has run once for a
      finished handler and once for a timeout, and neither can happen twice. Only an activated
      connection times out, and a timeout leaves its socket closed. While no timeout is flagged,
      timer and handler together do what the handler does alone. */
  lemma ConnectionsAccounted(cfg: AliveCheck.Config, steps: seq<Step>, i: nat)
    requires AliveCheck.Sane(cfg) && AllEnabled(cfg, App(0, []), steps)
    requires i < |Execute(cfg, App(0, []), steps).conns|
    ensures var k := Execute(cfg, App(0, []), steps).conns[i];
            && Callbacks(k) == (if k.finished then 1 else 0) + (if k.timer.fired != [] then 1 else 0)
            && (k.timer.fired != [] ==> k.core.routed.Some?)
            && (k.finished || k.timer.fired != [] ==> !k.core.open && |Keep(IsClose, k.core.trace)| == 1)
            && (k.finished && !k.timer.timeout ==>
                (k.core, k.inbox) == Run(k.env, Accepted(k.tls, k.gateway), k.input))
  {
    RunKeepsInv(cfg, App(0, []), steps);
    assert ConnInv(cfg, Execute(cfg, App(0, []), steps).conns[i]);
  }

  function Count(p: Conn -> bool, ks: seq<Conn>): nat {
    if ks == [] then 0 else (if p(ks[0]) then 1 else 0) + Count(p, ks[1..])
  }

  predicate IsFinished(k: Conn) { k.finished }

  predicate IsServed(k: Conn) { !k.finished }

  predicate IsTimedOut(k: Conn) { k.timer.fired != [] }

  lemma {:induction false} CountCallbacks(cfg: AliveCheck.Config, ks: seq<Conn>)
    requires AllConnInv(cfg, ks)
    ensures AllCallbacks(ks) == Count(IsFinished, ks) + Count(IsTimedOut, ks)
    ensures Count(IsFinished, ks) + Count(IsServed, ks) == |ks|
    decreases |ks|
  {
    if ks != [] {
      assert ConnInv(cfg, ks[0]);
      forall i | 0 <= i < |ks| - 1 ensures ConnInv(cfg, ks[1..][i]) {
        assert ConnInv(cfg, ks[i + 1]);
      }
      CountCallbacks(cfg, ks[1..]);
    }
  }

  /** In every interleaving of all connections, handlers and timers the counter is the number of
      accepted connections minus ended handlers minus timeouts. It is therefore the number of
      connections still being served exactly as long as no timeout has fired. */
  lemma CounterBalances(cfg: AliveCheck.Config, steps: seq<Step>)
    requires AliveCheck.Sane(cfg) && AllEnabled(cfg, App(0, []), steps)
    ensures var b := Execute(cfg, App(0, []), steps);
            && b.counter == |b.conns| - Count(IsFinished, b.conns) - Count(IsTimedOut, b.conns)
            && (b.counter == Count(IsServed, b.conns) <==> Count(IsTimedOut, b.conns) == 0)
  {
    RunKeepsInv(cfg, App(0, []), steps);
    CountCallbacks(cfg, Execute(cfg, App(0, []), steps).conns);
  }

  // ---------- A timeout is counted twice ----------

  lemma {:induction false} Extend(cfg: AliveCheck.Config, a: App, steps: seq<Step>, step: Step)
    requires AliveCheck.Sane(cfg) && AllEnabled(cfg, a, steps) && Enabled(Execute(cfg, a, steps), step)
    ensures AllEnabled(cfg, a, steps + [step])
    ensures Execute(cfg, a, steps + [step]) == Apply(cfg, Execute(cfg, a, steps), step)
    decreases |steps|
  {
    if steps == [] {
      assert [step][1..] == [];
    } else {
      assert (steps + [step])[1..] == steps[1..] + [step];
      Extend(cfg, Apply(cfg, a, steps[0]), steps[1..], step);
    }
  }

  /** The only connection of an application. */
  ghost predicate Only(a: App, counter: int, k: Conn) {
    a == App(counter, [k])
  }

  // From the activation on, the timer is started, the inactivity time passes without a message,
  // and the timer's thread goes through one body of its loop.

  function IdleSteps(cfg: AliveCheck.Config): seq<AliveCheck.Step>
    requires AliveCheck.Sane(cfg)
  {
    var next, thread := AliveCheck.Continue, AliveCheck.Timer(0);
    [next, next, next, next, AliveCheck.Tick(cfg.maxSeconds * cfg.ticksPerSecond),
     thread, thread, thread, thread, thread, thread, thread]
  }

  function TimerAt(cfg: AliveCheck.Config, i: nat): AliveCheck.State
    requires AliveCheck.Sane(cfg) && i <= 12
  {
    var b := cfg.maxSeconds * cfg.ticksPerSecond;
    var s0 := AliveCheck.State(0, 0, false, false, false, AliveCheck.CheckDisabled, [], []);
    var s4 := s0.(active := true, threads := [AliveCheck.Top], receiver := AliveCheck.Idle);
    var s5 := s4.(clock := b);
    match i
    case 0 => s0
    case 1 => s0.(receiver := AliveCheck.SetStart(true))
    case 2 => s0.(receiver := AliveCheck.SetActive(true))
    case 3 => s0.(active := true, receiver := AliveCheck.Spawn)
    case 4 => s4
    case 5 => s5
    case 6 => s5.(threads := [AliveCheck.Enter])
    case 7 => s5.(threads := [if cfg.order.ClockFirst? then AliveCheck.HaveClock(b) else AliveCheck.HaveStart(0)])
    case 8 => s5.(threads := [AliveCheck.Decide(b, 0)])
    case 9 => s5.(threads := [AliveCheck.SetDisabled(b, 0)])
    case 10 => s5.(disabled := true, threads := [AliveCheck.SetTimeout(b, 0)])
    case 11 => s5.(disabled := true, timeout := true, threads := [AliveCheck.Callback(b, 0)])
    case _ => s5.(disabled := true, timeout := true, threads := [AliveCheck.Top], fired := [(b, 0)])
  }

  lemma TimerMoves(cfg: AliveCheck.Config, i: nat)
    requires AliveCheck.Sane(cfg) && i < 12
    ensures OfTimer(IdleSteps(cfg)[i])
    ensures AliveCheck.Follows(cfg, TimerAt(cfg, i), IdleSteps(cfg)[i], TimerAt(cfg, i + 1))
    ensures IsTimeout(TimerAt(cfg, i), IdleSteps(cfg)[i]) <==> i == 11
  {
    AliveCheck.ExpiredExactly(cfg, cfg.maxSeconds * cfg.ticksPerSecond, 0);
  }

  /** The connection after `i` of these steps. */
  function Idling(cfg: AliveCheck.Config, k: Conn, i: nat): Conn
    requires AliveCheck.Sane(cfg) && i <= 12
  {
    k.(timer := TimerAt(cfg, i), core := if i == 12 then CloseSocket(k.core, false) else k.core)
  }

  lemma IdlesOnce(cfg: AliveCheck.Config, a: App, k: Conn, i: nat)
    requires AliveCheck.Sane(cfg) && i < 12 && Only(a, 1, Idling(cfg, k, i))
    ensures var step := Clockwork(0, IdleSteps(cfg)[i]);
            && Enabled(a, step)
            && Only(Apply(cfg, a, step), if i == 11 then 0 else 1, Idling(cfg, k, i + 1))
  {
    TimerMoves(cfg, i);
  }

  lemma Idles(cfg: AliveCheck.Config, k: Conn, steps: seq<Step>) returns (more: seq<Step>)
    requires AliveCheck.Sane(cfg) && AllEnabled(cfg, App(0, []), steps)
    requires Only(Execute(cfg, App(0, []), steps), 1, Idling(cfg, k, 0))
    ensures AllEnabled(cfg, App(0, []), more)
    ensures Only(Execute(cfg, App(0, []), more), 0, Idling(cfg, k, 12))
  {
    more := steps;
    for i := 0 to 12
      invariant AllEnabled(cfg, App(0, []), more)
      invariant Only(Execute(cfg, App(0, []), more), if i == 12 then 0 else 1, Idling(cfg, k, i))
    {
      IdlesOnce(cfg, Execute(cfg, App(0, []), more), k, i);
      Extend(cfg, App(0, []), more, Clockwork(0, IdleSteps(cfg)[i]));
      more := more + [Clockwork(0, IdleSteps(cfg)[i])];
    }
  }

  /** The handler receives the client's activation request and starts the timer. */
  lemma ServesActivation(cfg: AliveCheck.Config, env: Env, gateway: uint16)
    requires AliveCheck.Sane(cfg)
    ensures var request := Accept(env, false, gateway, [Chunk(Session.SessionBytes([]))], 0, 0);
            var k := Serve(cfg, Accepting(request));
            k.core.open && !k.finished && k.timer == TimerAt(cfg, 0)
  {
    var bytes := Session.SessionBytes([]);
    var c, inbox: seq<Read> := Accepted(false, gateway), [Chunk(bytes)];
    assert inbox[1..] == [] && Arrived(inbox) == bytes;
    Session.SessionIsFrames([]);
    assert Concat(Session.SessionFrames([])) + [] == bytes;
    SplitConcat(Session.SessionFrames([]), []);
    ReceiveComplete(env, c, inbox);
    Session.ServeActivation(env, c);
  }

  lemma ActivatesFirst(cfg: AliveCheck.Config, env: Env, gateway: uint16) returns (steps: seq<Step>, k: Conn)
    requires AliveCheck.Sane(cfg)
    ensures AllEnabled(cfg, App(0, []), steps)
    ensures Only(Execute(cfg, App(0, []), steps), 1, Idling(cfg, k, 0)) && !k.finished
  {
    var request := Accept(env, false, gateway, [Chunk(Session.SessionBytes([]))], 0, 0);
    k := Serve(cfg, Accepting(request));
    ServesActivation(cfg, env, gateway);
    Extend(cfg, App(0, []), [], request);
    assert [] + [request] == [request];
    Extend(cfg, App(0, []), [request], Receive(0));
    steps := [request] + [Receive(0)];
    assert Execute(cfg, App(0, []), steps).conns == [k] && k == Idling(cfg, k, 0);
  }

  /** It does happen, for every inactivity time and every application: the only client activates
      and falls silent, its timer fires, its handler ends, and the counter is -1. */
  lemma CounterCanGoNegative(cfg: AliveCheck.Config, env: Env, gateway: uint16) returns (steps: seq<Step>)
    requires AliveCheck.Sane(cfg)
    ensures AllEnabled(cfg, App(0, []), steps) && Execute(cfg, App(0, []), steps).counter == -1
  {
    var active, k := ActivatesFirst(cfg, env, gateway);
    var idle := Idles(cfg, k, active);
    Extend(cfg, App(0, []), idle, Finish(0));
    steps := idle + [Finish(0)];
  }
}
