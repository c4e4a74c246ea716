/** The alive check timer as the two-thread protocol it is (AliveCheckTimer.cpp and its use in
    DoIPConnection.cpp): every access to a shared field is a step of its own. */
module AliveCheck {
  /** C++ leaves open which operand of `clock() - startTime` is read first. */
  datatype Order = ClockFirst | StartFirst

  datatype Config = Config(maxSeconds: nat, ticksPerSecond: nat, order: Order)

  /** The setter stores positive limits only, and POSIX has a million ticks in a second. */
  predicate Sane(cfg: Config) {
    cfg.maxSeconds >= 1 && cfg.ticksPerSecond >= 2
  }

  function Bound(cfg: Config): int {
    cfg.maxSeconds * cfg.ticksPerSecond
  }

  /** Integer division as C++ does it, towards zero. */
  function Quotient(x: int, y: nat): int
    requires y > 0
  {
    if x >= 0 then x / y else -(-x / y)
  }

  /** `(clock() - startTime) / CLOCKS_PER_SEC >= maxSeconds`. */
  predicate Expired(cfg: Config, now: int, start: int)
    requires Sane(cfg)
  {
    Quotient(now - start, cfg.ticksPerSecond) >= cfg.maxSeconds
  }

  lemma QuotientBound(x: int, y: nat, m: nat)
    requires y > 0 && m > 0
    ensures Quotient(x, y) >= m <==> x >= m * y
  {
    if x >= 0 {
      var q, r := x / y, x % y;
      assert x == q * y + r;
      if q >= m {
        assert q * y >= m * y;
      } else {
        assert (m - 1) * y >= q * y;
        assert (m - 1) * y + y == m * y;
      }
    } else {
      assert m * y >= 0;
    }
  }

  /** The truncating division loses nothing: the comparison is exactly one in clock ticks. */
  lemma ExpiredExactly(cfg: Config, now: int, start: int)
    requires Sane(cfg)
    ensures Expired(cfg, now, start) <==> now - start >= Bound(cfg)
  {
    QuotientBound(now - start, cfg.ticksPerSecond, cfg.maxSeconds);
  }

  // ---------- State ----------

  /** Where the receiver is: in `startTimer` (`spawn`) or in `resetTimer` on a message. */
  datatype ReceiverPc =
    | Idle
    | CheckDisabled
    | SetStart(spawn: bool)
    | SetActive(spawn: bool)
    | Spawn
    | Joining
    | Destroyed

  /** Where a timer thread is in the loop of `waitForResponse`, with the operands it has read. */
  datatype TimerPc =
    | Top
    | Enter
    | HaveClock(now: int)
    | HaveStart(start: int)
    | Decide(now: int, start: int)
    | SetDisabled(now: int, start: int)
    | SetTimeout(now: int, start: int)
    | Callback(now: int, start: int)
    | Done

  /** `fired` lists the readings with which the callback ran. */
  datatype State = State(
    clock: int,
    startTime: int,
    disabled: bool,
    active: bool,
    timeout: bool,
    receiver: ReceiverPc,
    threads: seq<TimerPc>,
    fired: seq<(int, int)>)

  predicate Init(s: State) {
    !s.disabled && !s.active && !s.timeout && s.receiver == Idle && s.threads == [] && s.fired == []
  }

  /** `Activation` and `Message` start the receiver's two uses of the timer, `Continue` is its next
      step, `Disable` is `setGeneralInactivityTime(0)` from any thread, `Destroy` the destructor. */
  datatype Step = Tick(ticks: nat) | Activation | Message | Continue | Disable | Destroy | Timer(thread: nat)

  predicate Enabled(s: State, step: Step) {
    match step
    case Tick(_) => true
    case Activation => s.receiver == Idle
    case Message => s.receiver == Idle
    case Continue =>
      && !s.receiver.Idle? && !s.receiver.Destroyed?
      && (s.receiver == Joining && |s.threads| > 0 ==> s.threads[0] == Done)
    case Disable => s.receiver != Destroyed
    case Destroy => s.receiver == Idle
    case Timer(t) => t < |s.threads| && s.threads[t] != Done
  }

  function ReceiverStep(s: State): State {
    match s.receiver
    case CheckDisabled => s.(receiver := if s.disabled then Idle else SetStart(true))
    case SetStart(spawn) => s.(startTime := s.clock, receiver := SetActive(spawn))
    case SetActive(spawn) => s.(active := true, receiver := if spawn then Spawn else Idle)
    case Spawn => s.(threads := s.threads + [Top], receiver := Idle)
    case Joining => s.(receiver := Destroyed)
    case _ => s
  }

  function TimerStep(cfg: Config, s: State, t: nat): State
    requires Sane(cfg) && t < |s.threads|
  {
    match s.threads[t]
    case Top => s.(threads := s.threads[t := if s.disabled then Done else Enter])
    case Enter =>
      s.(threads := s.threads[t := if cfg.order.ClockFirst? then HaveClock(s.clock) else HaveStart(s.startTime)])
    case HaveClock(now) => s.(threads := s.threads[t := Decide(now, s.startTime)])
    case HaveStart(start) => s.(threads := s.threads[t := Decide(s.clock, start)])
    case Decide(now, start) =>
      s.(threads := s.threads[t := if Expired(cfg, now, start) then SetDisabled(now, start) else Top])
    case SetDisabled(now, start) => s.(disabled := true, threads := s.threads[t := SetTimeout(now, start)])
    case SetTimeout(now, start) => s.(timeout := true, threads := s.threads[t := Callback(now, start)])
    case Callback(now, start) => s.(fired := s.fired + [(now, start)], threads := s.threads[t := Top])
    case Done => s
  }

  function Apply(cfg: Config, s: State, step: Step): State
    requires Sane(cfg) && Enabled(s, step)
  {
    match step
    case Tick(n) => s.(clock := s.clock + n)
    case Activation => s.(receiver := if s.active then Idle else CheckDisabled)
    case Message => s.(receiver := if s.active then SetStart(false) else Idle)
    case Continue => ReceiverStep(s)
    case Disable => s.(disabled := true)
    case Destroy => s.(disabled := true, receiver := Joining)
    case Timer(t) => TimerStep(cfg, s, t)
  }

  predicate IsRun(cfg: Config, states: seq<State>, steps: seq<Step>)
    requires Sane(cfg)
  {
    && |states| == |steps| + 1
    && forall i :: 0 <= i < |steps| ==> Follows(cfg, states[i], steps[i], states[i + 1])
  }

  predicate Follows(cfg: Config, s: State, step: Step, u: State)
    requires Sane(cfg)
  {
    Enabled(s, step) && u == Apply(cfg, s, step)
  }

  /** Without interference the steps of `startTimer` add up to its sequential effect: nothing if
      the timer is disabled, else start time, `active` and one more thread. */
  lemma UninterruptedStart(cfg: Config, s: State)
    requires Sane(cfg) && s.receiver == CheckDisabled
    ensures var s1 := Apply(cfg, s, Continue);
            if s.disabled then s1 == s.(receiver := Idle)
            else && s1.receiver == SetStart(true)
                 && var u := Apply(cfg, Apply(cfg, Apply(cfg, s1, Continue), Continue), Continue);
                    u == s.(startTime := s.clock, active := true, threads := s.threads + [Top], receiver := Idle)
  {
  }

  /** Without interference a message restarts an active timer, and leaves an inactive one alone. */
  lemma UninterruptedReset(cfg: Config, s: State)
    requires Sane(cfg) && s.receiver == Idle
    ensures var s1 := Apply(cfg, s, Message);
            if s.active
            then s1.receiver == SetStart(false)
                 && Apply(cfg, Apply(cfg, s1, Continue), Continue) == s.(startTime := s.clock)
            else s1 == s
  {
  }

  function Thread(cfg: Config, s: State, steps: nat): State
    requires Sane(cfg)
    decreases steps
  {
    if steps == 0 || !Enabled(s, Timer(0)) then s else Thread(cfg, Apply(cfg, s, Timer(0)), steps - 1)
  }

  lemma ThreadStep(cfg: Config, s: State, u: State, steps: nat)
    requires Sane(cfg) && Enabled(s, Timer(0)) && u == Apply(cfg, s, Timer(0))
    ensures Thread(cfg, s, steps + 1) == Thread(cfg, u, steps)
  {
  }

  /** The thread finds the timer enabled and compares the clock with the start time. */
  lemma UninterruptedComparison(cfg: Config, s: State, steps: nat)
    requires Sane(cfg) && s.threads == [Top] && !s.disabled
    ensures var pc := if s.clock - s.startTime >= Bound(cfg) then SetDisabled(s.clock, s.startTime) else Top;
            Thread(cfg, s, steps + 4) == Thread(cfg, s.(threads := [pc]), steps)
  {
    var pc := if s.clock - s.startTime >= Bound(cfg) then SetDisabled(s.clock, s.startTime) else Top;
    var s1 := s.(threads := [Enter]);
    var s2 := s.(threads := [if cfg.order.ClockFirst? then HaveClock(s.clock) else HaveStart(s.startTime)]);
    var s3 := s.(threads := [Decide(s.clock, s.startTime)]);
    ExpiredExactly(cfg, s.clock, s.startTime);
    assert s3.threads[0 := pc] == [pc];
    ThreadStep(cfg, s, s1, steps + 3);
    ThreadStep(cfg, s1, s2, steps + 2);
    ThreadStep(cfg, s2, s3, steps + 1);
    ThreadStep(cfg, s3, s.(threads := [pc]), steps);
  }

  function Reporting(s: State, now: int, start: int): State {
    s.(disabled := true, timeout := true, fired := s.fired + [(now, start)], threads := [Top])
  }

  lemma UninterruptedReport(cfg: Config, s: State, now: int, start: int, steps: nat)
    requires Sane(cfg) && s.threads == [SetDisabled(now, start)]
    ensures Thread(cfg, s, steps + 3) == Thread(cfg, Reporting(s, now, start), steps)
  {
    var s1 := s.(disabled := true, threads := [SetTimeout(now, start)]);
    var s2 := s1.(timeout := true, threads := [Callback(now, start)]);
    ThreadStep(cfg, s, s1, steps + 2);
    ThreadStep(cfg, s1, s2, steps + 1);
    ThreadStep(cfg, s2, Reporting(s, now, start), steps);
  }

  /** Without interference one body of the thread's loop reports a timeout exactly if the full
      inactivity time has passed, and otherwise changes nothing; a disabled timer's thread ends.
      What the thread does after that is left to `steps`. */
  lemma UninterruptedLoop(cfg: Config, s: State, steps: nat)
    requires Sane(cfg) && s.threads == [Top]
    ensures s.disabled ==> Apply(cfg, s, Timer(0)) == s.(threads := [Done])
    ensures !s.disabled && s.clock - s.startTime < Bound(cfg) ==> Thread(cfg, s, steps + 4) == Thread(cfg, s, steps)
    ensures !s.disabled && s.clock - s.startTime >= Bound(cfg) ==>
              Thread(cfg, s, steps + 7) == Thread(cfg, Reporting(s, s.clock, s.startTime), steps)
  {
    if !s.disabled && s.clock - s.startTime < Bound(cfg) {
      UninterruptedComparison(cfg, s, steps);
      assert s.(threads := [Top]) == s;
    } else if !s.disabled {
      var u := s.(threads := [SetDisabled(s.clock, s.startTime)]);
      UninterruptedComparison(cfg, s, steps + 3);
      UninterruptedReport(cfg, u, s.clock, s.startTime, steps);
      assert Reporting(u, s.clock, s.startTime) == Reporting(s, s.clock, s.startTime);
    }
  }

  /** `setGeneralInactivityTime(0)` and the destructor disable the timer at once; the destructor
      is done only when the thread it waits for is. */
  lemma DisabledAtOnce(cfg: Config, s: State)
    requires Sane(cfg)
    ensures Enabled(s, Disable) ==> Apply(cfg, s, Disable) == s.(disabled := true)
    ensures Enabled(s, Destroy) ==>
              var u := Apply(cfg, s, Destroy);
              && u.disabled && u.threads == s.threads
              && (Enabled(u, Continue) <==> s.threads == [] || s.threads[0] == Done)
  {
  }

  // ---------- Invariants of every interleaving ----------

  /** A thread that has seen the timeout only goes on to report it. */
  predicate Committed(pc: TimerPc) {
    pc.SetDisabled? || pc.SetTimeout? || pc.Callback?
  }

  predicate Inv(cfg: Config, s: State) {
    && |s.threads| <= 1
    && (s.active <==> |s.threads| == 1 || s.receiver == Spawn)
    && (s.receiver == Spawn ==> s.threads == [])
    && (s.receiver == CheckDisabled || s.receiver == SetStart(true) || s.receiver == SetActive(true) ==> !s.active)
    && (s.receiver == SetStart(false) || s.receiver == SetActive(false) ==> s.active)
    && (s.timeout ==> s.disabled)
    && (s.fired != [] ==> s.timeout)
    && |s.fired| <= 1
    && (s.receiver == Joining || s.receiver == Destroyed ==> s.disabled)
    && (s.receiver == Destroyed && s.threads != [] ==> s.threads[0] == Done)
    && (forall r :: r in s.fired ==> r.0 - r.1 >= Bound(cfg))
    && (s.threads == [] ==> !s.timeout && s.fired == [])
    && (s.threads != [] ==> ThreadInv(cfg, s, s.threads[0]))
  }

  predicate ThreadInv(cfg: Config, s: State, pc: TimerPc) {
    && (Committed(pc) ==> pc.now - pc.start >= Bound(cfg))
    && (pc.SetTimeout? || pc.Callback? ==> s.disabled)
    && (pc.Callback? ==> s.timeout)
    && (s.fired != [] ==> pc == Top || pc == Done)
    && (s.timeout && s.fired == [] ==> pc.Callback?)
  }

  lemma StepKeepsInv(cfg: Config, s: State, step: Step)
    requires Sane(cfg) && Inv(cfg, s) && Enabled(s, step)
    ensures Inv(cfg, Apply(cfg, s, step))
  {
    if step.Timer? && s.threads[0].Decide? {
      ExpiredExactly(cfg, s.threads[0].now, s.threads[0].start);
    }
  }

  /** In every reachable state: at most one timer thread, `active` exactly when it was started,
      `timeout` only with `disabled`, at most one callback, and only after a comparison that saw
      the full inactivity time between the two values it read. */
  lemma {:induction false} RunKeepsInv(cfg: Config, states: seq<State>, steps: seq<Step>)
    requires Sane(cfg) && IsRun(cfg, states, steps) && Init(states[0])
    ensures forall i :: 0 <= i < |states| ==> Inv(cfg, states[i])
    decreases |steps|
  {
    if steps != [] {
      var n := |steps| - 1;
      forall i | 0 <= i < n ensures Follows(cfg, states[..n + 1][i], steps[..n][i], states[..n + 1][i + 1]) {
        assert Follows(cfg, states[i], steps[i], states[i + 1]);
      }
      RunKeepsInv(cfg, states[..n + 1], steps[..n]);
      assert states[..n + 1][n] == states[n] && Inv(cfg, states[n]);
      assert Follows(cfg, states[n], steps[n], states[n + 1]);
      StepKeepsInv(cfg, states[n], steps[n]);
      forall i | 0 <= i < |states| ensures Inv(cfg, states[i]) {
        if i <= n {
          assert states[..n + 1][i] == states[i];
        }
      }
    }
  }

  // ---------- Disabling is final, and the thread ends soon after ----------

  /** Steps a timer thread has left once `disabled` is set: at most the rest of one loop body. */
  function StepsLeft(pc: TimerPc): nat {
    match pc
    case Done => 0
    case Top => 1
    case Callback(_, _) => 2
    case SetTimeout(_, _) => 3
    case SetDisabled(_, _) => 4
    case Decide(_, _) => 5
    case HaveClock(_) => 6
    case HaveStart(_) => 6
    case Enter => 7
  }

  function TimerSteps(steps: seq<Step>): nat {
    if steps == [] then 0 else (if steps[0].Timer? then 1 else 0) + TimerSteps(steps[1..])
  }

  /** `startTimer` has found the timer enabled and will start the thread. */
  predicate Starting(s: State) {
    s.receiver == SetStart(true) || s.receiver == SetActive(true) || s.receiver == Spawn
  }

  /** The same before there is a thread: one that is still to be started sees `disabled` at once. */
  function Left(s: State): nat {
    if s.threads != [] then StepsLeft(s.threads[0]) else if Starting(s) then 1 else 0
  }

  lemma DisabledStep(cfg: Config, s: State, step: Step)
    requires Sane(cfg) && Inv(cfg, s) && s.disabled && Enabled(s, step)
    ensures var u := Apply(cfg, s, step);
            u.disabled && (if step.Timer? then 1 else 0) + Left(u) <= Left(s)
  {
  }

  /** Once `disabled` is set, by whomever and before or after a thread is started, it stays set and
      the timer takes at most the steps it has left; a destroyed timer has none, so the destructor's
      join of thread 0 waits for all there is. */
  lemma {:induction false} DisabledIsFinal(cfg: Config, states: seq<State>, steps: seq<Step>)
    requires Sane(cfg) && IsRun(cfg, states, steps) && Inv(cfg, states[0])
    requires states[0].disabled
    ensures var s, u := states[0], states[|steps|];
            && u.disabled && |u.threads| <= 1
            && TimerSteps(steps) + Left(u) <= Left(s) <= 7
            && (u.receiver == Destroyed ==> Left(u) == 0)
    decreases |steps|
  {
    if steps != [] {
      assert Follows(cfg, states[0], steps[0], states[1]);
      StepKeepsInv(cfg, states[0], steps[0]);
      DisabledStep(cfg, states[0], steps[0]);
      forall i | 0 <= i < |steps| - 1 ensures Follows(cfg, states[1..][i], steps[1..][i], states[1..][i + 1]) {
        assert Follows(cfg, states[i + 1], steps[i + 1], states[i + 2]);
      }
      DisabledIsFinal(cfg, states[1..], steps[1..]);
    }
  }

  // ---------- No early timeout ----------

  /** The last message or start is less than the inactivity time ago. */
  predicate Punctual(cfg: Config, s: State) {
    s.clock - s.startTime < Bound(cfg)
  }

  /** The step of a comparison that takes the clock reading. */
  predicate ReadsClock(cfg: Config, s: State, step: Step) {
    step.Timer? && step.thread < |s.threads|
    && (if cfg.order.ClockFirst? then s.threads[step.thread].Enter? else s.threads[step.thread].HaveStart?)
  }

  /** Whenever a comparison reads the clock, the last restart is recent enough. */
  predicate Timely(cfg: Config, states: seq<State>, steps: seq<Step>)
    requires |states| == |steps| + 1
  {
    forall i :: 0 <= i < |steps| ==> (ReadsClock(cfg, states[i], steps[i]) ==> Punctual(cfg, states[i]))
  }

  /** What a thread that reads the clock first knows while every comparison is punctual. */
  predicate Calm(cfg: Config, s: State) {
    && s.fired == [] && !s.timeout && |s.threads| <= 1
    && (s.threads != [] || s.receiver == Spawn || s.receiver == SetActive(true) ==> s.startTime <= s.clock)
    && (s.threads != [] ==> CalmThread(cfg, s, s.threads[0]))
  }

  predicate CalmThread(cfg: Config, s: State, pc: TimerPc) {
    match pc
    case HaveClock(now) => now - s.startTime < Bound(cfg)
    case Decide(now, start) => now - start < Bound(cfg)
    case pc => pc == Top || pc == Enter || pc == Done
  }

  lemma StepKeepsCalm(cfg: Config, s: State, step: Step)
    requires Sane(cfg) && cfg.order == ClockFirst
    requires Inv(cfg, s) && Calm(cfg, s) && Enabled(s, step)
    requires ReadsClock(cfg, s, step) ==> Punctual(cfg, s)
    ensures Calm(cfg, Apply(cfg, s, step))
  {
    if step.Timer? && s.threads[0].Decide? {
      ExpiredExactly(cfg, s.threads[0].now, s.threads[0].start);
    }
  }

  lemma {:induction false} TimelyRunsAreCalm(cfg: Config, states: seq<State>, steps: seq<Step>)
    requires Sane(cfg) && cfg.order == ClockFirst && IsRun(cfg, states, steps)
    requires Inv(cfg, states[0]) && Calm(cfg, states[0]) && Timely(cfg, states, steps)
    ensures Calm(cfg, states[|steps|])
    decreases |steps|
  {
    if steps != [] {
      assert Follows(cfg, states[0], steps[0], states[1]);
      StepKeepsInv(cfg, states[0], steps[0]);
      StepKeepsCalm(cfg, states[0], steps[0]);
      forall i | 0 <= i < |steps| - 1
        ensures Follows(cfg, states[1..][i], steps[1..][i], states[1..][i + 1])
        ensures ReadsClock(cfg, states[1..][i], steps[1..][i]) ==> Punctual(cfg, states[1..][i])
      {
        assert Follows(cfg, states[i + 1], steps[i + 1], states[i + 2]);
        assert ReadsClock(cfg, states[i + 1], steps[i + 1]) ==> Punctual(cfg, states[i + 1]);
      }
      TimelyRunsAreCalm(cfg, states[1..], steps[1..]);
    }
  }

  // ---------- The evaluation order matters ----------

  /** A connection is restarted in time for every comparison, and the callback runs all the same. */
  ghost predicate EarlyTimeout(cfg: Config)
    requires Sane(cfg)
  {
    exists states: seq<State>, steps: seq<Step> ::
      && IsRun(cfg, states, steps) && Init(states[0])
      && Timely(cfg, states, steps)
      && states[|steps|].fired != []
  }

  // The start time is read first, a message then restarts the timer in time, and the comparison
  // uses the start time from before.

  function EarlySteps(cfg: Config): seq<Step>
    requires Sane(cfg)
  {
    var b := Bound(cfg);
    assert b >= 2 by { assert cfg.maxSeconds * cfg.ticksPerSecond >= cfg.ticksPerSecond; }
    [Activation, Continue, Continue, Continue, Continue, Timer(0), Timer(0), Tick(b - 1),
     Message, Continue, Continue, Tick(1), Timer(0), Timer(0), Timer(0), Timer(0), Timer(0)]
  }

  function StateAt(cfg: Config, i: nat): State
    requires Sane(cfg) && i <= 17
  {
    var b := Bound(cfg);
    var s0 := State(0, 0, false, false, false, Idle, [], []);
    var s5 := s0.(active := true, threads := [Top]);
    var s7 := s5.(threads := [HaveStart(0)]);
    var s8 := s7.(clock := b - 1);
    var s12 := s8.(startTime := b - 1, clock := b);
    match i
    case 0 => s0
    case 1 => s0.(receiver := CheckDisabled)
    case 2 => s0.(receiver := SetStart(true))
    case 3 => s0.(receiver := SetActive(true))
    case 4 => s0.(active := true, receiver := Spawn)
    case 5 => s5
    case 6 => s5.(threads := [Enter])
    case 7 => s7
    case 8 => s8
    case 9 => s8.(receiver := SetStart(false))
    case 10 => s8.(startTime := b - 1, receiver := SetActive(false))
    case 11 => s8.(startTime := b - 1)
    case 12 => s12
    case 13 => s12.(threads := [Decide(b, 0)])
    case 14 => s12.(threads := [SetDisabled(b, 0)])
    case 15 => s12.(disabled := true, threads := [SetTimeout(b, 0)])
    case 16 => s12.(disabled := true, timeout := true, threads := [Callback(b, 0)])
    case _ => s12.(disabled := true, timeout := true, threads := [Top], fired := [(b, 0)])
  }

  lemma EarlyStep(cfg: Config, i: nat)
    requires Sane(cfg) && cfg.order == StartFirst && i < 17
    ensures Follows(cfg, StateAt(cfg, i), EarlySteps(cfg)[i], StateAt(cfg, i + 1))
  {
    if i == 13 {
      ExpiredExactly(cfg, Bound(cfg), 0);
    }
  }

  lemma EarlyStatesArePunctual(cfg: Config, i: nat)
    requires Sane(cfg) && i <= 17 && StateAt(cfg, i).threads != []
    ensures Punctual(cfg, StateAt(cfg, i))
  {
    assert Bound(cfg) >= 2 by { assert cfg.maxSeconds * cfg.ticksPerSecond >= cfg.ticksPerSecond; }
  }

  /** The run is punctual in every state in which a timer thread exists, not only when it
      reads the clock. */
  lemma EarlyTimeoutHappens(cfg: Config) returns (states: seq<State>, steps: seq<Step>)
    requires Sane(cfg) && cfg.order == StartFirst
    ensures IsRun(cfg, states, steps) && Init(states[0]) && states[|steps|].fired == [(Bound(cfg), 0)]
    ensures forall i :: 0 <= i < |states| && states[i].threads != [] ==> Punctual(cfg, states[i])
    ensures EarlyTimeout(cfg)
  {
    states := seq(18, i requires 0 <= i < 18 => StateAt(cfg, i));
    steps := EarlySteps(cfg);
    forall i | 0 <= i < |steps| ensures Follows(cfg, states[i], steps[i], states[i + 1]) {
      EarlyStep(cfg, i);
    }
    forall i | 0 <= i < |states| && states[i].threads != [] ensures Punctual(cfg, states[i]) {
      EarlyStatesArePunctual(cfg, i);
    }
    assert IsRun(cfg, states, steps) && Timely(cfg, states, steps);
  }

  /** A connection whose timer is restarted in time for every comparison never times out if and
      only if the clock is read before the start time. */
  lemma NoEarlyTimeout(cfg: Config)
    requires Sane(cfg)
    ensures !EarlyTimeout(cfg) <==> cfg.order == ClockFirst
  {
    if cfg.order == StartFirst {
      var _, _ := EarlyTimeoutHappens(cfg);
    } else if EarlyTimeout(cfg) {
      var states: seq<State>, steps: seq<Step> :|
        && IsRun(cfg, states, steps) && Init(states[0])
        && Timely(cfg, states, steps)
        && states[|steps|].fired != [];
      TimelyRunsAreCalm(cfg, states, steps);
    }
  }
}
