/**
  Starting and stopping the Windows service: the thread that starts it, and any number of calls of
  the control handler with a stop, from the service manager or from within the agent, also while
  another call is at work. Steps of all of them interleave; a call that is made from within another
  is one interleaving of these. The status structure is shared, and reporting sends what it holds.
*/
module StopHandler {
  import opened Common

  datatype State = Unset | StartPending | Running | StopPending | Stopped

  type CallId = nat

  /** Where the starting thread is: before the step that the name says. */
  datatype StarterPc = Initialising | Registering | SettingRunning | Announcing | Started | GaveUp

  /** Where one call of the handler is; the calls from SettingPending on have won the flag. */
  datatype CallPc = Entering | Swapping | Returned
                  | SettingPending | ReportingPending | Killing | StoppingModules | Flagging | TearingDown
                  | SettingStopped | ReportingStopped | Finished

  /** What can be seen from outside, in order. */
  datatype Event = Announce(state: State) | Report(state: State)
                 | KillChildren | StopModules | FlagShutdown | TearDownDb

  /** winner and early are history: which call took the flag, and whether it wrote the pending status
      before the starting thread had announced its own. */
  datatype Service = Service(starter: StarterPc, calls: map<CallId, CallPc>, handle: bool, flag: bool,
                             status: State, log: seq<Event>, winner: Option<CallId>, early: bool)

  datatype Step = StarterStep(ok: bool) | Call(id: CallId) | CallStep(id: CallId)

  const INITIAL := Service(Initialising, map[], false, false, Unset, [], None, false)

  /** The starting thread's next step; ok is whether the system call in it succeeds. */
  function StarterNext(s: Service, ok: bool): Service {
    match s.starter
    case Initialising => s.(starter := Registering, status := StartPending)
    case Registering => if ok then s.(starter := SettingRunning, handle := true) else s.(starter := GaveUp)
    case SettingRunning => s.(starter := Announcing, status := Running)
    case Announcing => if ok then s.(starter := Started, log := s.log + [Announce(s.status)]) else s.(starter := GaveUp)
    case _ => s
  }

  /** Where one call goes next. Only the call that finds the flag clear goes on. */
  function NextPc(pc: CallPc, handle: bool, flag: bool): CallPc {
    match pc
    case Entering => if handle then Swapping else Returned
    case Swapping => if flag then Returned else SettingPending
    case SettingPending => ReportingPending
    case ReportingPending => Killing
    case Killing => StoppingModules
    case StoppingModules => Flagging
    case Flagging => TearingDown
    case TearingDown => SettingStopped
    case SettingStopped => ReportingStopped
    case ReportingStopped => Finished
    case _ => pc
  }

  /** What a step of a call shows outside. */
  function Shown(pc: CallPc, status: State): seq<Event> {
    match pc
    case ReportingPending => [Report(status)]
    case Killing => [KillChildren]
    case StoppingModules => [StopModules]
    case Flagging => [FlagShutdown]
    case TearingDown => [TearDownDb]
    case ReportingStopped => [Report(status)]
    case _ => []
  }

  function CallNext(s: Service, id: CallId): Service
    requires id in s.calls
  {
    var pc := s.calls[id];
    Service(
      s.starter,
      s.calls[id := NextPc(pc, s.handle, s.flag)],
      s.handle,
      s.flag || pc.Swapping?,
      if pc.SettingPending? then StopPending else if pc.SettingStopped? then Stopped else s.status,
      s.log + Shown(pc, s.status),
      if pc.Swapping? && !s.flag then Some(id) else s.winner,
      if pc.SettingPending? then !s.starter.Started? else s.early
    )
  }

  /** A step of a call that was never made, or a call made twice, does nothing. */
  function Next(s: Service, step: Step): Service {
    match step
    case StarterStep(ok) => StarterNext(s, ok)
    case Call(id) => if id in s.calls then s else s.(calls := s.calls[id := Entering])
    case CallStep(id) => if id in s.calls then CallNext(s, id) else s
  }

  function After(steps: seq<Step>): Service {
    if steps == [] then INITIAL else Next(After(steps[..|steps| - 1]), steps[|steps| - 1])
  }

  // ---------------------------------------------------------------- one winner

  predicate Lost(pc: CallPc) {
    pc.Entering? || pc.Swapping? || pc.Returned?
  }

  /** The flag is set exactly when some call has won it, and no other call has got any further; no
      call gets as far as the flag before the handler is registered. */
  ghost predicate OneWinner(s: Service) {
    && (s.flag <==> s.winner.Some?)
    && (s.winner.Some? ==> s.winner.value in s.calls && !Lost(s.calls[s.winner.value]))
    && (forall id | id in s.calls && s.winner != Some(id) :: Lost(s.calls[id]))
    && (forall id | id in s.calls && !s.handle :: s.calls[id].Entering? || s.calls[id].Returned?)
    && (s.handle ==> !s.starter.Initialising? && !s.starter.Registering?)
  }

  lemma OneWinnerStep(s: Service, step: Step)
    requires OneWinner(s)
    ensures OneWinner(Next(s, step))
  {
    if step.CallStep? && step.id in s.calls {
      OneWinnerCall(s, step.id);
    }
  }

  lemma OneWinnerCall(s: Service, id: CallId)
    requires OneWinner(s) && id in s.calls
    ensures OneWinner(CallNext(s, id))
  {
    var pc := s.calls[id];
    if pc.Swapping? && !s.flag {
      assert forall other | other in s.calls :: Lost(s.calls[other]);
    }
  }

  // ---------------------------------------------------------------- the starting thread and the winner

  /** All that matters: the starting thread, the winner, what they share and what is seen. */
  datatype View = View(starter: StarterPc, pc: CallPc, status: State, log: seq<Event>, early: bool)

  /** Swapping stands for there being no winner yet. */
  function ViewOf(s: Service): View {
    View(s.starter,
         if s.winner.Some? && s.winner.value in s.calls then s.calls[s.winner.value] else Swapping,
         s.status, s.log, s.early)
  }

  function StarterMove(v: View, ok: bool): View {
    match v.starter
    case Initialising => v.(starter := Registering, status := StartPending)
    case Registering => v.(starter := if ok then SettingRunning else GaveUp)
    case SettingRunning => v.(starter := Announcing, status := Running)
    case Announcing => if ok then v.(starter := Started, log := v.log + [Announce(v.status)]) else v.(starter := GaveUp)
    case _ => v
  }

  function WinnerMove(v: View): View {
    View(v.starter,
         NextPc(v.pc, true, false),
         if v.pc.SettingPending? then StopPending else if v.pc.SettingStopped? then Stopped else v.status,
         v.log + Shown(v.pc, v.status),
         if v.pc.SettingPending? then !v.starter.Started? else v.early)
  }

  predicate Registered(starter: StarterPc) {
    !starter.Initialising? && !starter.Registering?
  }

  /** The losing calls do not show. */
  lemma ViewStep(s: Service, step: Step)
    requires OneWinner(s)
    ensures var v, w := ViewOf(s), ViewOf(Next(s, step));
            || w == v
            || (step.StarterStep? && w == StarterMove(v, step.ok))
            || (step.CallStep? && Registered(v.starter) && w == WinnerMove(v))
  {
    if step.CallStep? && step.id in s.calls {
      WinnerMoves(s, step.id);
    }
  }

  lemma WinnerMoves(s: Service, id: CallId)
    requires OneWinner(s) && id in s.calls
    ensures var v, w := ViewOf(s), ViewOf(CallNext(s, id));
            w == v || (Registered(v.starter) && w == WinnerMove(v))
  {
    var pc, shown := s.calls[id], Shown(s.calls[id], s.status);
    assert s.log + [] == s.log;
    if Lost(pc) && !(pc.Swapping? && !s.flag) {
      assert s.winner != Some(id);
    } else {
      assert s.handle;
    }
  }

  // ---------------------------------------------------------------- what is seen

  /** How many events of its own a call has caused. */
  function Done(pc: CallPc): (n: nat)
    ensures n <= 6
  {
    match pc
    case Killing => 1
    case StoppingModules => 2
    case Flagging => 3
    case TearingDown => 4
    case SettingStopped => 5
    case ReportingStopped => 5
    case Finished => 6
    case _ => 0
  }

  /** The events of the handler alone. */
  function Handled(log: seq<Event>): (r: seq<Event>) {
    if log == [] then []
    else
      var before, e := Handled(log[..|log| - 1]), log[|log| - 1];
      if e.Announce? then before else before + [e]
  }

  /** The statuses reported, by whichever thread. */
  function Statuses(log: seq<Event>): seq<State> {
    if log == [] then []
    else
      var before, e := Statuses(log[..|log| - 1]), log[|log| - 1];
      if e.Announce? || e.Report? then before + [e.state] else before
  }

  lemma Appended(log: seq<Event>, e: Event)
    ensures Handled(log + [e]) == if e.Announce? then Handled(log) else Handled(log) + [e]
    ensures Statuses(log + [e]) == if e.Announce? || e.Report? then Statuses(log) + [e.state] else Statuses(log)
  {
    assert (log + [e])[..|log|] == log;
  }

  /** The event a teardown shows at this place. */
  predicate Fits(i: nat, e: Event) {
    match i
    case 0 => e == Report(StopPending) || e == Report(Running)
    case 1 => e == KillChildren
    case 2 => e == StopModules
    case 3 => e == FlagShutdown
    case 4 => e == TearDownDb
    case 5 => e == Report(Stopped) || e == Report(Running)
    case _ => false
  }

  /** The first events of one teardown between two reports. */
  ghost predicate Teardown(events: seq<Event>) {
    forall i | 0 <= i < |events| :: Fits(i, events[i])
  }

  /** What a step of the winner adds to either. */
  lemma WinnerShows(log: seq<Event>, pc: CallPc, status: State)
    ensures Handled(log + Shown(pc, status)) == Handled(log) + Shown(pc, status)
    ensures Statuses(log + Shown(pc, status))
            == Statuses(log) + (if pc.ReportingPending? || pc.ReportingStopped? then [status] else [])
  {
    var shown := Shown(pc, status);
    if shown == [] {
      assert log + shown == log;
    } else {
      assert shown == [shown[0]];
      Appended(log, shown[0]);
    }
  }

  /** The handler's events are a teardown as far as the winner has come. */
  ghost predicate InTeardown(starter: StarterPc, pc: CallPc, status: State, events: seq<Event>) {
    && Teardown(events) && |events| == Done(pc)
    && (pc.ReportingPending? ==> status == StopPending || status == Running)
    && (pc.ReportingStopped? ==> status == Stopped || status == Running)
    && (!Registered(starter) ==> pc.Swapping?)
  }

  ghost predicate TornDown(v: View) {
    InTeardown(v.starter, v.pc, v.status, Handled(v.log))
  }

  lemma StarterShows(v: View, ok: bool)
    ensures Handled(StarterMove(v, ok).log) == Handled(v.log)
  {
    if v.starter.Announcing? {
      Appended(v.log, Announce(v.status));
    }
  }

  lemma StarterTornDown(v: View, ok: bool)
    requires TornDown(v)
    ensures TornDown(StarterMove(v, ok))
  {
    StarterShows(v, ok);
    TeardownStays(v.starter, v.pc, v.status, StarterMove(v, ok), Handled(v.log));
  }

  lemma TeardownStays(starter: StarterPc, pc: CallPc, status: State, w: View, events: seq<Event>)
    requires InTeardown(starter, pc, status, events)
    requires w.pc == pc && (Registered(starter) ==> Registered(w.starter))
    requires w.status == status || w.status == Running || !Registered(starter)
    ensures InTeardown(w.starter, w.pc, w.status, events)
  {
  }

  lemma WinnerTornDown(v: View)
    requires TornDown(v) && Registered(v.starter)
    ensures TornDown(WinnerMove(v))
  {
    WinnerShows(v.log, v.pc, v.status);
    TeardownGrows(v.starter, v.pc, v.status, Handled(v.log));
  }

  lemma TeardownGrows(starter: StarterPc, pc: CallPc, status: State, events: seq<Event>)
    requires InTeardown(starter, pc, status, events) && Registered(starter)
    ensures InTeardown(starter, NextPc(pc, true, false),
                       if pc.SettingPending? then StopPending else if pc.SettingStopped? then Stopped else status,
                       events + Shown(pc, status))
  {
    var shown := Shown(pc, status);
    if shown == [] {
      assert events + shown == events;
    } else {
      assert shown == [shown[0]] && Fits(Done(pc), shown[0]);
    }
  }

  // ---------------------------------------------------------------- no early stop

  const ORDERLY := [Announce(Running), Report(StopPending),
                    KillChildren, StopModules, FlagShutdown, TearDownDb, Report(Stopped)]

  /** The pending status was written after the running status had been announced, if at all. */
  ghost predicate InOrder(v: View) {
    if v.pc.Swapping? || v.pc.SettingPending? then
      && v.log == (if v.starter.Started? then [Announce(Running)] else [])
      && (v.starter.Announcing? ==> v.status == Running)
    else
      && v.starter.Started?
      && v.log == ORDERLY[..1 + Done(v.pc)]
      && (v.pc.ReportingPending? ==> v.status == StopPending)
      && (v.pc.ReportingStopped? ==> v.status == Stopped)
      && !Lost(v.pc)
  }

  lemma StarterInOrder(v: View, ok: bool)
    requires InOrder(v)
    ensures InOrder(StarterMove(v, ok))
  {
  }

  lemma WinnerInOrder(v: View)
    requires InOrder(v) && !v.early
    ensures !WinnerMove(v).early ==> InOrder(WinnerMove(v))
  {
    var n := Done(v.pc);
    assert v.log + [] == v.log;
    if v.pc.SettingPending? {
      assert ORDERLY[..1] == [Announce(Running)];
    } else if Shown(v.pc, v.status) != [] {
      assert ORDERLY[..2 + n] == ORDERLY[..1 + n] + [ORDERLY[1 + n]];
    }
  }

  // ---------------------------------------------------------------- an early stop

  /** The reports that can no longer become the right ones. */
  predicate Wrong(seen: seq<State>) {
    |seen| >= 2 && !(seen[0] == Running && seen[1] == StopPending)
  }

  /** The pending status was written too early: whatever happens then, the first two reports are
      not running and stop pending. */
  ghost predicate TooEarly(starter: StarterPc, pc: CallPc, status: State, seen: seq<State>) {
    && !Lost(pc) && !pc.SettingPending?
    && (starter.Started? ==>
          if pc.ReportingPending? then |seen| == 1 && (seen[0] == Running ==> status == Running) else Wrong(seen))
    && (!starter.Started? ==>
          if pc.ReportingPending? then seen == [] && (starter.SettingRunning? ==> status == StopPending)
          else if pc.Finished? then Wrong(seen)
          else |seen| == 1 && (seen[0] == Running ==> status != StopPending && !starter.SettingRunning?))
  }

  ghost predicate Jumbled(v: View) {
    TooEarly(v.starter, v.pc, v.status, Statuses(v.log))
  }

  lemma StarterJumbled(v: View, ok: bool)
    requires Jumbled(v) && Registered(v.starter)
    ensures Jumbled(StarterMove(v, ok))
  {
    Appended(v.log, Announce(v.status));
  }

  lemma WinnerJumbled(v: View)
    requires Jumbled(v)
    ensures Jumbled(WinnerMove(v))
  {
    WinnerShows(v.log, v.pc, v.status);
  }

  lemma BecomesJumbled(v: View)
    requires InOrder(v) && !v.early && v.pc.SettingPending? && Registered(v.starter) && !v.starter.Started?
    ensures Jumbled(WinnerMove(v))
  {
    assert v.log + [] == v.log;
  }

  // ---------------------------------------------------------------- every run

  ghost predicate Inv(s: Service) {
    && OneWinner(s)
    && TornDown(ViewOf(s))
    && (if s.early then Jumbled(ViewOf(s)) && Registered(s.starter) else InOrder(ViewOf(s)))
  }

  lemma StepInv(s: Service, step: Step)
    requires Inv(s)
    ensures Inv(Next(s, step))
  {
    OneWinnerStep(s, step);
    ViewStep(s, step);
    var v, w := ViewOf(s), ViewOf(Next(s, step));
    if w == v {
    } else if step.StarterStep? {
      StarterTornDown(v, step.ok);
      if v.early {
        StarterJumbled(v, step.ok);
      } else {
        StarterInOrder(v, step.ok);
      }
    } else {
      WinnerTornDown(v);
      if v.early {
        WinnerJumbled(v);
      } else if w.early {
        BecomesJumbled(v);
      } else {
        WinnerInOrder(v);
      }
    }
  }

  lemma {:induction false} RunInv(steps: seq<Step>)
    ensures Inv(After(steps))
  {
    if steps != [] {
      RunInv(steps[..|steps| - 1]);
      StepInv(After(steps[..|steps| - 1]), steps[|steps| - 1]);
    }
  }

  /** In any run whatever, the handler tears down at most once, in order, after its first report and
      before its last, and wholly by the time the call that does it is through. */
  lemma TearsDownOnce(steps: seq<Step>)
    ensures Teardown(Handled(After(steps).log)) && |Handled(After(steps).log)| <= 6
    ensures ViewOf(After(steps)).pc.Finished? ==> |Handled(After(steps).log)| == 6
  {
    RunInv(steps);
  }

  /** Unless the stop was too early, what is seen is a first part of the one orderly course. */
  lemma OrderlyCourse(steps: seq<Step>)
    requires !After(steps).early
    ensures After(steps).log <= ORDERLY
  {
    RunInv(steps);
  }

  /** Once both threads are through, the statuses reported are the right ones exactly when the stop
      was not too early. */
  lemma RightStatusesExactly(steps: seq<Step>)
    requires After(steps).starter.Started? && ViewOf(After(steps)).pc.Finished?
    ensures Statuses(After(steps).log) == [Running, StopPending, Stopped] <==> !After(steps).early
  {
    RunInv(steps);
    if !After(steps).early {
      assert After(steps).log == ORDERLY[..7];
      OrderlyStatuses(7);
    }
  }

  lemma {:induction false} OrderlyStatuses(k: nat)
    requires k <= |ORDERLY|
    ensures Statuses(ORDERLY[..k]) == [Running, StopPending, Stopped][..if k < 2 then k else if k < 7 then 2 else 3]
  {
    if k > 0 {
      OrderlyStatuses(k - 1);
      assert ORDERLY[..k] == ORDERLY[..k - 1] + [ORDERLY[k - 1]];
      Appended(ORDERLY[..k - 1], ORDERLY[k - 1]);
    }
  }

  /** If every call is made after the running status was announced, no stop is too early. */
  lemma {:induction false} LateCallsOnly(steps: seq<Step>)
    requires forall k | 0 <= k < |steps| :: steps[k].Call? ==> After(steps[..k]).starter.Started?
    ensures !After(steps).early && (After(steps).calls == map[] || After(steps).starter.Started?)
  {
    if steps != [] {
      var n := |steps| - 1;
      forall k | 0 <= k < n ensures steps[..n][k].Call? ==> After(steps[..n][..k]).starter.Started? {
        assert steps[..n][..k] == steps[..k];
      }
      LateCallsOnly(steps[..n]);
    }
  }

  // ---------------------------------------------------------------- no stop is lost

  /** Steps a call still has ahead of it, at most. */
  function Left(pc: CallPc): nat {
    match pc
    case Entering => 10
    case Swapping => 9
    case SettingPending => 8
    case ReportingPending => 7
    case Killing => 6
    case StoppingModules => 5
    case Flagging => 4
    case TearingDown => 3
    case SettingStopped => 2
    case ReportingStopped => 1
    case _ => 0
  }

  /** How many steps of a call are among these. */
  function StepsOf(steps: seq<Step>, id: CallId): nat {
    if steps == [] then 0
    else StepsOf(steps[..|steps| - 1], id) + if steps[|steps| - 1] == CallStep(id) then 1 else 0
  }

  lemma AfterLast(steps: seq<Step>, more: seq<Step>)
    requires more != []
    ensures After(steps + more) == Next(After(steps + more[..|more| - 1]), more[|more| - 1])
  {
    assert (steps + more)[..|steps + more| - 1] == steps + more[..|more| - 1];
    assert (steps + more)[|steps + more| - 1] == more[|more| - 1];
  }

  /** Whatever else goes on, a call is through after ten steps of its own. */
  lemma {:induction false} CallEnds(steps: seq<Step>, more: seq<Step>, id: CallId)
    requires id in After(steps).calls
    ensures id in After(steps + more).calls
    ensures Left(After(steps + more).calls[id]) + StepsOf(more, id) <= Left(After(steps).calls[id])
            || Left(After(steps + more).calls[id]) == 0
  {
    if more == [] {
      assert steps + more == steps;
    } else {
      var n := |more| - 1;
      CallEnds(steps, more[..n], id);
      AfterLast(steps, more);
      StepTaken(After(steps + more[..n]), more[n], id);
    }
  }

  lemma StepTaken(s: Service, step: Step, id: CallId)
    requires id in s.calls
    ensures id in Next(s, step).calls
    ensures Left(Next(s, step).calls[id])
            <= if step == CallStep(id) && Left(s.calls[id]) > 0 then Left(s.calls[id]) - 1 else Left(s.calls[id])
  {
  }

  /** If every call is made after the handler was registered, none returns before the stop is taken. */
  lemma {:induction false} StopTaken(steps: seq<Step>)
    requires forall k | 0 <= k < |steps| :: steps[k].Call? ==> After(steps[..k]).handle
    ensures After(steps).calls == map[] || After(steps).handle
    ensures forall id <- After(steps).calls :: After(steps).calls[id].Returned? ==> After(steps).winner.Some?
  {
    if steps != [] {
      var n := |steps| - 1;
      forall k | 0 <= k < n ensures steps[..n][k].Call? ==> After(steps[..n][..k]).handle {
        assert steps[..n][..k] == steps[..k];
      }
      StopTaken(steps[..n]);
      RunInv(steps[..n]);
    }
  }

  /** So a call that has had ten steps has torn the service down, or another one has taken that over; and
      the one that has finds all of it done after ten steps of its own. */
  lemma StopNotLost(steps: seq<Step>, more: seq<Step>, id: CallId)
    requires forall k | 0 <= k < |steps + more| :: (steps + more)[k].Call? ==> After((steps + more)[..k]).handle
    requires id in After(steps).calls && StepsOf(more, id) >= 10
    ensures var t := After(steps + more);
            && t.winner.Some? && id in t.calls
            && (t.winner == Some(id) ==> t.calls[id].Finished? && |Handled(t.log)| == 6)
  {
    var t := After(steps + more);
    CallEnds(steps, more, id);
    StopTaken(steps + more);
    RunInv(steps + more);
    TearsDownOnce(steps + more);
    assert t.calls[id].Returned? || t.calls[id].Finished?;
  }

  /** Nothing has been reported and no call has got past the handle. */
  ghost predicate Silent(s: Service) {
    && !s.handle && s.log == [] && s.winner == None
    && (forall id <- s.calls :: s.calls[id].Entering? || s.calls[id].Returned?)
  }

  lemma SilentStep(s: Service, step: Step)
    requires Silent(s) && (s.starter.Initialising? || s.starter.Registering? || s.starter.GaveUp?)
    ensures (step == StarterStep(true) && s.starter.Registering?) || Silent(Next(s, step))
  {
  }

  lemma {:induction false} SilentBefore(steps: seq<Step>)
    ensures After(steps).starter.Initialising? || After(steps).starter.Registering? ==> Silent(After(steps))
  {
    if steps != [] {
      SilentBefore(steps[..|steps| - 1]);
      var s := After(steps[..|steps| - 1]);
      if Silent(s) && !Registered(s.starter) {
        SilentStep(s, steps[|steps| - 1]);
      }
    }
  }

  /** If the handler cannot be registered, nothing is ever reported and no call does anything. */
  lemma {:induction false} UnregisteredSilent(steps: seq<Step>, more: seq<Step>)
    requires After(steps).starter.Registering?
    ensures var s := After(steps + [StarterStep(false)] + more); s.starter.GaveUp? && Silent(s)
  {
    var failed := steps + [StarterStep(false)];
    if more == [] {
      assert failed + more == failed;
      AfterLast(steps, [StarterStep(false)]);
      assert steps + [StarterStep(false)][..0] == steps;
      SilentBefore(steps);
      SilentStep(After(steps), StarterStep(false));
    } else {
      var n := |more| - 1;
      UnregisteredSilent(steps, more[..n]);
      AfterLast(failed, more);
      SilentStep(After(failed + more[..n]), more[n]);
    }
  }

  // ---------------------------------------------------------------- a stop before the announcement

  ghost predicate Reached(s: Service) {
    exists steps :: After(steps) == s
  }

  lemma ReachedNext(s: Service, step: Step)
    requires Reached(s)
    ensures Reached(Next(s, step))
  {
    var steps :| After(steps) == s;
    assert (steps + [step])[..|steps|] == steps;
    assert After(steps + [step]) == Next(s, step);
  }

  lemma CallMoved(s: Service, pc: CallPc)
    requires s.calls == map[0 := pc]
    ensures var t := CallNext(s, 0);
            && t.calls == map[0 := NextPc(pc, s.handle, s.flag)] && t.starter == s.starter && t.handle == s.handle
            && t.log == s.log + Shown(pc, s.status)
  {
  }

  /** A step of the one call there is, and the statuses it adds. */
  lemma Moved(s: Service, pc: CallPc) returns (t: Service)
    requires Reached(s) && s.calls == map[0 := pc]
    ensures Reached(t) && t.calls == map[0 := NextPc(pc, s.handle, s.flag)] && t.starter == s.starter
            && t.handle == s.handle
    ensures t.status == (if pc.SettingPending? then StopPending else if pc.SettingStopped? then Stopped else s.status)
    ensures t.early == (if pc.SettingPending? then !s.starter.Started? else s.early)
    ensures (pc.Entering? ==> t.flag == s.flag)
    ensures Statuses(t.log)
            == Statuses(s.log) + (if pc.ReportingPending? || pc.ReportingStopped? then [s.status] else [])
  {
    t := CallNext(s, 0);
    CallMoved(s, pc);
    assert t == Next(s, CallStep(0));
    ReachedNext(s, CallStep(0));
    WinnerShows(s.log, pc, s.status);
  }

  lemma HandlerRegistered() returns (s: Service)
    ensures Reached(s) && s == Service(SettingRunning, map[], true, false, StartPending, [], None, false)
  {
    assert After([]) == INITIAL;
    ReachedNext(INITIAL, StarterStep(true));
    var first := Next(INITIAL, StarterStep(true));
    ReachedNext(first, StarterStep(true));
    s := Next(first, StarterStep(true));
  }

  lemma EarlyStopTaken() returns (s: Service)
    ensures Reached(s) && s.starter.SettingRunning? && s.calls == map[0 := ReportingPending]
            && s.status == StopPending && s.early
    ensures Statuses(s.log) == []
  {
    var registered := HandlerRegistered();
    ReachedNext(registered, Call(0));
    var called := Next(registered, Call(0));
    var entered := Moved(called, Entering);
    var won := Moved(entered, Swapping);
    s := Moved(won, SettingPending);
  }

  /** Left alone, a call that is tearing down comes to its last report. */
  lemma {:induction false} WinnerFinishes(s: Service, pc: CallPc) returns (t: Service)
    requires Reached(s) && s.calls == map[0 := pc] && (1 <= Done(pc) <= 4 || pc.SettingStopped?)
    ensures Reached(t) && t.starter == s.starter && t.early == s.early && t.calls == map[0 := Finished]
    ensures Statuses(t.log) == Statuses(s.log) + [Stopped]
    decreases 5 - Done(pc)
  {
    var next := Moved(s, pc);
    if pc.SettingStopped? {
      t := Moved(next, ReportingStopped);
    } else {
      t := WinnerFinishes(next, NextPc(pc, true, true));
    }
  }

  /** The starting thread has its way in the end. */
  lemma Announced(s: Service) returns (t: Service)
    requires Reached(s) && s.starter.SettingRunning?
    ensures Reached(t) && t.starter.Started? && t.early == s.early && Statuses(t.log) == Statuses(s.log) + [Running]
  {
    ReachedNext(s, StarterStep(true));
    var running := Next(s, StarterStep(true));
    ReachedNext(running, StarterStep(true));
    t := Next(running, StarterStep(true));
    Appended(s.log, Announce(Running));
  }

  /** Why LateCallsOnly asks for calls after the announcement, as the service manager makes them: with
      one between registering the handler and announcing, the service would be torn down, report that
      it has stopped, and then that it is running. */
  lemma RunningAfterStopped() returns (s: Service)
    ensures Reached(s) && s.starter.Started? && s.early
    ensures Statuses(s.log) == [StopPending, Stopped, Running]
  {
    var taken := EarlyStopTaken();
    var reported := Moved(taken, ReportingPending);
    var finished := WinnerFinishes(reported, Killing);
    s := Announced(finished);
  }
}
