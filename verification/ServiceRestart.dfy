/**
  The service-restart command of the Windows agent: stop the service, wait until it no longer runs,
  start it again. The tick counter has 32 bits; time here is real time in milliseconds.
*/
module ServiceRestart {

  const TICKS := 0x1_0000_0000
  const TIMEOUT := 30000
  const SLEEP := 500
  const SETTLE := 1000

  function Tick(time: nat): nat {
    time % TICKS
  }

  /** The difference of two 32-bit unsigned numbers. */
  function Minus(a: nat, b: nat): (d: nat)
    requires a < TICKS && b < TICKS
  {
    (a - b) % TICKS
  }

  /** What the tick counter says has passed is what has passed, less some whole turns. */
  lemma WrappedElapsed(start: nat, now: nat)
    requires start <= now
    ensures Minus(Tick(now), Tick(start)) == (now - start) % TICKS
    ensures Minus(Tick(now), Tick(start)) <= now - start
    ensures now - start < TICKS ==> Minus(Tick(now), Tick(start)) == now - start
  {
  }

  // ---------------------------------------------------------------- the service manager's answers

  datatype State = Running | StartPending | StopPending | Stopped | Paused

  /** A status query; without a handle it tells nothing. */
  datatype Query = NoHandle | Reported(state: State)

  datatype StopAnswer = StopNoHandle | StopTaken | NotActive | CannotAcceptControl | StopOtherError

  datatype StartAnswer = StartNoHandle | StartTaken | AlreadyRunning | StartOtherError

  function StopCode(answer: StopAnswer): int {
    match answer
    case StopTaken => 1
    case NotActive => -1
    case CannotAcceptControl => -1
    case _ => 0
  }

  predicate CheckServiceRunning(query: Query) {
    query == Reported(Running)
  }

  function StartCode(answer: StartAnswer): int {
    match answer
    case StartTaken => 1
    case AlreadyRunning => -1
    case _ => 0
  }

  /** The outside of one run: the answer to each status check, the time at which the wait starts and
      the time at which the tick counter is read after each check. */
  datatype World = World(stop: StopAnswer, check: nat -> Query, start: nat, read: nat -> nat, restart: StartAnswer)

  /** Each sleep takes at least as long as asked for, and no round takes anything like a whole turn of
      the tick counter. */
  ghost predicate Timely(w: World) {
    && w.start <= w.read(0) < w.start + TICKS - TIMEOUT
    && forall k: nat :: w.read(k) + SLEEP <= w.read(k + 1) < w.read(k) + TICKS - TIMEOUT
  }

  /** The wait is over at this check: the service does not run, or the time is up. */
  ghost predicate Over(w: World, k: nat) {
    !CheckServiceRunning(w.check(k)) || w.read(k) - w.start > TIMEOUT
  }

  lemma {:induction false} ReadAtLeast(w: World, k: nat)
    requires Timely(w)
    ensures w.read(k) >= w.start + SLEEP * k
  {
    if k > 0 {
      ReadAtLeast(w, k - 1);
    }
  }

  // ---------------------------------------------------------------- the command

  datatype Call = Sleep(ms: nat) | Stop | Check | Start

  datatype Outcome = StopFailed | TimedOut | StartFailed | Restarted

  /** The calls of a wait with this many checks, a sleep between any two. */
  function WaitCalls(checks: nat): seq<Call> {
    if checks == 0 then [] else if checks == 1 then [Check] else WaitCalls(checks - 1) + [Sleep(SLEEP), Check]
  }

  /** The wait loop: it ends at the first check that finds the service not running or the real time
      up, after at most 62 checks, whatever the tick counter's value at the start. */
  method Wait(w: World) returns (stopped: bool, checks: nat, calls: seq<Call>)
    requires Timely(w)
    ensures 1 <= checks <= 62 && calls == WaitCalls(checks)
    ensures Waited(w, checks)
    ensures stopped <==> !CheckServiceRunning(w.check(checks - 1))
  {
    var startTime := Tick(w.start);
    checks, calls, stopped := 1, [Check], true;
    while CheckServiceRunning(w.check(checks - 1))
      invariant 1 <= checks <= 62 && calls == WaitCalls(checks) && stopped
      invariant forall k | 0 <= k < checks - 1 :: !Over(w, k)
      decreases 62 - checks
    {
      var k := checks - 1;
      ReadAtLeast(w, k);
      InTime(w, k);
      WrappedElapsed(w.start, w.read(k));
      if Minus(Tick(w.read(k)), startTime) > TIMEOUT {
        stopped := false;
        break;
      }
      calls := calls + [Sleep(SLEEP), Check];
      checks := checks + 1;
    }
  }

  /** While no check has been over, less than a turn of the counter has passed. */
  lemma InTime(w: World, k: nat)
    requires Timely(w) && forall j: nat | j < k :: !Over(w, j)
    ensures w.read(k) - w.start < TICKS
  {
    if k > 0 {
      assert !Over(w, k - 1);
      assert w.read(k - 1 + 1) < w.read(k - 1) + TICKS - TIMEOUT;
    }
  }

  /** The stop was taken, or was not needed as the service is stopped or stopping already. */
  predicate StopSettled(answer: StopAnswer) {
    answer in {StopTaken, NotActive, CannotAcceptControl}
  }

  /** The checks of a wait and what is between them. */
  lemma {:induction false} WaitCallsAre(checks: nat)
    requires checks >= 1
    ensures |WaitCalls(checks)| == 2 * checks - 1
    ensures forall i | 0 <= i < |WaitCalls(checks)| :: WaitCalls(checks)[i] == if i % 2 == 0 then Check else Sleep(500)
  {
    if checks > 1 {
      WaitCallsAre(checks - 1);
    }
  }

  /** The whole command. The start is attempted exactly when the stop was accepted or not needed and
      the last check found the service not running; a time-out is reported only when more than the
      allowed time has really passed. */
  method Restart(w: World) returns (code: int, outcome: Outcome, checks: nat, calls: seq<Call>)
    requires Timely(w)
    ensures !StopSettled(w.stop) ==> outcome == StopFailed && checks == 0 && calls == [Sleep(1000), Stop]
    ensures StopSettled(w.stop) ==>
              && 1 <= checks <= 62 && Waited(w, checks)
              && calls == [Sleep(1000), Stop, Sleep(300)] + WaitCalls(checks)
                          + (if w.check(checks - 1) == Reported(Running) then [] else [Start])
              && outcome == (if w.check(checks - 1) == Reported(Running) then TimedOut
                             else if w.restart in {StartTaken, AlreadyRunning} then Restarted else StartFailed)
    ensures outcome == TimedOut ==> w.read(checks - 1) - w.start > 30000
    ensures code == if outcome == Restarted then 0 else 1
  {
    calls := [Sleep(SETTLE), Stop];
    if StopCode(w.stop) == 0 {
      return 1, StopFailed, 0, calls;
    }
    calls := calls + [Sleep(300)];
    var stopped, waited;
    stopped, checks, waited := Wait(w);
    calls := calls + waited;
    if !stopped {
      return 1, TimedOut, checks, calls;
    }
    calls := calls + [Start];
    if StartCode(w.restart) == 0 {
      return 1, StartFailed, checks, calls;
    }
    return 0, Restarted, checks, calls;
  }

  // ---------------------------------------------------------------- where the promise ends

  /** With rounds of exactly one turn of the counter, no time ever seems to pass: at every check the
      loop goes on, for as long as the service runs. */
  lemma NeverTimesOut(w: World, k: nat)
    requires forall j: nat :: CheckServiceRunning(w.check(j)) && w.read(j) == w.start + j * TICKS
    ensures CheckServiceRunning(w.check(k)) && Minus(Tick(w.read(k)), Tick(w.start)) <= TIMEOUT
    ensures k > 0 ==> Over(w, k)
  {
    assert w.read(k) == w.start + k * TICKS;
    WrappedElapsed(w.start, w.read(k));
  }

  /** The wait reaches check m: until then every check reports the service running, in time. */
  ghost predicate Reaches(w: World, m: nat) {
    forall j: nat | j < m :: w.check(j) == Reported(Running) && w.read(j) - w.start <= 30000
  }

  /** The last check of a wait is the one at which it is over first. */
  ghost predicate Waited(w: World, checks: nat) {
    checks >= 1 && Over(w, checks - 1) && forall k | 0 <= k < checks - 1 :: !Over(w, k)
  }

  lemma WaitedReaches(w: World, checks: nat, m: nat)
    requires Waited(w, checks)
    ensures Reaches(w, checks - 1)
    ensures Reaches(w, m) && !CheckServiceRunning(w.check(m)) ==> m == checks - 1
  {
    forall j: nat | j < checks - 1 ensures w.check(j) == Reported(Running) && w.read(j) - w.start <= 30000 {
      assert !Over(w, j);
    }
    if Reaches(w, m) && !CheckServiceRunning(w.check(m)) {
      assert Over(w, m);
    }
  }

  /** The loop is meant to wait for the service to be stopped. The start is attempted on a service
      reported stopped if and only if some check reports that and every check before it reports the
      service running, in time. */
  lemma StartsStoppedExactly(w: World, checks: nat)
    requires Waited(w, checks)
    ensures w.check(checks - 1) == Reported(Stopped) <==> exists m :: Reaches(w, m) && w.check(m) == Reported(Stopped)
  {
    WaitedReaches(w, checks, checks - 1);
    if m :| Reaches(w, m) && w.check(m) == Reported(Stopped) {
      WaitedReaches(w, checks, m);
    }
  }

  /** Otherwise the first answer that is not running will do: another state, such as stop pending, or a
      query that fails, whatever the service is doing. */
  lemma StartsUnstopped(w: World, checks: nat, m: nat)
    requires Waited(w, checks) && Reaches(w, m)
    requires w.check(m) != Reported(Running) && w.check(m) != Reported(Stopped)
    ensures checks == m + 1 && !CheckServiceRunning(w.check(checks - 1)) && w.check(checks - 1) != Reported(Stopped)
  {
    WaitedReaches(w, checks, m);
  }

  /** A command that restarts the service without one answer about it. */
  method RestartBlind() returns (outcome: Outcome, calls: seq<Call>)
    ensures outcome == Restarted && calls == [Sleep(1000), Stop, Sleep(300), Check, Start]
  {
    var w := World(StopTaken, k => NoHandle, 0, k => SLEEP * k, StartTaken);
    var code, checks;
    code, outcome, checks, calls := Restart(w);
    assert Over(w, 0);
    assert checks == 1;
    assert WaitCalls(1) == [Check];
  }
}
