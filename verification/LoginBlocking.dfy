/**
  Blocking of hosts after failed logins: the check before a login and the counting after a failed
  one, each under the same lock, with any number of logins in between at a time.
*/
module LoginBlocking {

  type Host = nat

  datatype Entry = Entry(attempts: int, timestamp: real)

  datatype State = State(stats: map<Host, Entry>, blocked: set<Host>)

  /** limit is max_login_attempts, blockTime is block_time. */
  datatype Config = Config(limit: int, blockTime: real)

  const INIT := State(map[], {})

  predicate Expired(s: State, cfg: Config, host: Host, now: real) {
    host in s.stats && now - cfg.blockTime >= s.stats[host].timestamp
  }

  function AfterCheck(s: State, cfg: Config, host: Host, now: real): State {
    if Expired(s, cfg, host, now) then State(s.stats - {host}, s.blocked - {host}) else s
  }

  predicate Refused(s: State, cfg: Config, host: Host, now: real) {
    host in AfterCheck(s, cfg, host, now).blocked
  }

  function AfterFailure(s: State, cfg: Config, host: Host, now: real): State {
    var e := if host in s.stats then s.stats[host].(attempts := s.stats[host].attempts + 1) else Entry(1, now);
    State(s.stats[host := e], if e.attempts >= cfg.limit then s.blocked + {host} else s.blocked)
  }

  class LoginGuard {
    var stats: map<Host, Entry>
    var blocked: set<Host>

    constructor ()
      ensures State(stats, blocked) == INIT
    {
      stats, blocked := map[], {};
    }

    /** The entry goes before the host is taken off the block list, and a host that is not on the
        list raises there, which the handler swallows. */
    method CheckBlockedIp(cfg: Config, host: Host, now: real) returns (refused: bool)
      modifies this
      ensures State(stats, blocked) == AfterCheck(old(State(stats, blocked)), cfg, host, now)
      ensures refused == Refused(old(State(stats, blocked)), cfg, host, now)
    {
      if host in stats && now - cfg.blockTime >= stats[host].timestamp {
        stats := stats - {host};
        if host in blocked {
          blocked := blocked - {host};
        }
      }
      refused := host in blocked;
    }

    method PreventBruteforce(cfg: Config, host: Host, now: real)
      modifies this
      ensures State(stats, blocked) == AfterFailure(old(State(stats, blocked)), cfg, host, now)
    {
      if host !in stats {
        stats := stats[host := Entry(1, now)];
      } else {
        stats := stats[host := stats[host].(attempts := stats[host].attempts + 1)];
      }
      if stats[host].attempts >= cfg.limit {
        blocked := blocked + {host};
      }
    }
  }

  // ---------------------------------------------------------------- runs

  /** A login is checked, and if it is let through it later fails or succeeds. */
  datatype Event = Check(host: Host, now: real) | Failure(host: Host, now: real) | Success(host: Host)

  function After(cfg: Config, run: seq<Event>): State {
    if run == [] then INIT
    else
      var s := After(cfg, run[..|run| - 1]);
      match run[|run| - 1]
      case Check(h, now) => AfterCheck(s, cfg, h, now)
      case Failure(h, now) => AfterFailure(s, cfg, h, now)
      case Success(_) => s
  }

  /** The times of the failures that count against a host, oldest first: all of them since the
      last check that came a block time or more after the oldest. */
  function Window(cfg: Config, run: seq<Event>, host: Host): seq<real> {
    if run == [] then []
    else
      var w := Window(cfg, run[..|run| - 1], host);
      match run[|run| - 1]
      case Check(h, now) => if h == host && w != [] && now >= w[0] + cfg.blockTime then [] else w
      case Failure(h, now) => if h == host then w + [now] else w
      case Success(_) => w
  }

  /** The times at which logins of a host failed. */
  function FailuresOf(run: seq<Event>, host: Host): seq<real> {
    if run == [] then []
    else (if run[0].Failure? && run[0].host == host then [run[0].now] else []) + FailuresOf(run[1..], host)
  }

  /** This check comes a block time or more after the first of these failures. */
  predicate Forgives(cfg: Config, e: Event, host: Host, failures: seq<real>) {
    e.Check? && e.host == host && failures != [] && e.now >= failures[0] + cfg.blockTime
  }

  lemma {:induction false} FailuresLast(run: seq<Event>, host: Host)
    requires run != []
    ensures var n := |run| - 1;
            FailuresOf(run, host)
            == FailuresOf(run[..n], host) + if run[n].Failure? && run[n].host == host then [run[n].now] else []
  {
    if |run| > 1 {
      FailuresLast(run[1..], host);
      assert run[1..][..|run| - 2] == run[..|run| - 1][1..];
    }
  }

  /** The window is all the failures since the last check that forgave them, if any did: none after it
      came a block time or more after the first of them. */
  ghost predicate WindowFrom(cfg: Config, run: seq<Event>, host: Host, k: nat) {
    && k <= |run| && Window(cfg, run, host) == FailuresOf(run[k..], host)
    && (k > 0 ==> Forgives(cfg, run[k - 1], host, Window(cfg, run[..k - 1], host)))
    && forall j | k <= j < |run| :: !Forgives(cfg, run[j], host, FailuresOf(run[k..j], host))
  }

  lemma {:induction false} WindowExactly(cfg: Config, run: seq<Event>, host: Host) returns (k: nat)
    ensures WindowFrom(cfg, run, host, k)
  {
    k := 0;
    if run != [] {
      var n := |run| - 1;
      var before := run[..n];
      k := WindowExactly(cfg, before, host);
      if Forgives(cfg, run[n], host, Window(cfg, before, host)) {
        k := |run|;
        assert run[k..] == [];
      } else {
        WindowNext(cfg, run, host, k);
      }
    }
  }

  lemma {:induction false} FailuresNext(run: seq<Event>, host: Host, k: nat)
    requires k < |run|
    ensures var n := |run| - 1;
            FailuresOf(run[k..], host)
            == FailuresOf(run[..n][k..], host) + if run[n].Failure? && run[n].host == host then [run[n].now] else []
  {
    var n := |run| - 1;
    assert run[k..][..n - k] == run[..n][k..] && run[k..][n - k] == run[n];
    FailuresLast(run[k..], host);
  }

  lemma {:induction false} WindowLast(cfg: Config, run: seq<Event>, host: Host)
    requires run != [] && !Forgives(cfg, run[|run| - 1], host, Window(cfg, run[..|run| - 1], host))
    ensures var n := |run| - 1;
            Window(cfg, run, host)
            == Window(cfg, run[..n], host) + if run[n].Failure? && run[n].host == host then [run[n].now] else []
  {
  }

  lemma {:induction false} WindowNext(cfg: Config, run: seq<Event>, host: Host, k: nat)
    requires run != [] && WindowFrom(cfg, run[..|run| - 1], host, k)
    requires !Forgives(cfg, run[|run| - 1], host, Window(cfg, run[..|run| - 1], host))
    ensures WindowFrom(cfg, run, host, k)
  {
    var n := |run| - 1;
    var before := run[..n];
    FailuresNext(run, host, k);
    WindowLast(cfg, run, host);
    assert k > 0 ==> before[k - 1] == run[k - 1] && before[..k - 1] == run[..k - 1];
    assert before[k..] == run[k..n];
    forall j | k <= j < |run| ensures !Forgives(cfg, run[j], host, FailuresOf(run[k..j], host)) {
      if j < n {
        assert before[k..j] == run[k..j] && before[j] == run[j];
      }
    }
  }

  /** The globals hold the length and the first element of every window, and the block list is
      exactly the hosts whose window has reached the limit. */
  lemma {:induction false} StateIsWindows(cfg: Config, run: seq<Event>, host: Host)
    ensures var s, w := After(cfg, run), Window(cfg, run, host);
            && (host in s.stats <==> w != [])
            && (w != [] ==> s.stats[host] == Entry(|w|, w[0]))
            && (host in s.blocked <==> w != [] && |w| >= cfg.limit)
  {
    if run != [] {
      StateIsWindows(cfg, run[..|run| - 1], host);
    }
  }

  /** A login is refused exactly while the limit is reached and the block time, counted from the
      first failure of the window, has not passed. */
  lemma RefusedExactly(cfg: Config, run: seq<Event>, host: Host, now: real)
    ensures var w := Window(cfg, run, host);
            Refused(After(cfg, run), cfg, host, now) <==> w != [] && |w| >= cfg.limit && now < w[0] + cfg.blockTime
  {
    StateIsWindows(cfg, run, host);
  }

  /** Once the limit is reached, whatever happens next, every check before that time is refused. */
  lemma {:induction false} StaysRefused(cfg: Config, run: seq<Event>, more: seq<Event>, host: Host, now: real)
    requires var w := Window(cfg, run, host);
             w != [] && |w| >= cfg.limit && now < w[0] + cfg.blockTime
    requires forall i | 0 <= i < |more| :: more[i].Check? && more[i].host == host ==> more[i].now <= now
    ensures Refused(After(cfg, run + more), cfg, host, now)
    ensures Window(cfg, run, host) <= Window(cfg, run + more, host)
  {
    if more == [] {
      assert run + more == run;
    } else {
      var n := |more| - 1;
      StaysRefused(cfg, run, more[..n], host, now);
      assert (run + more)[..|run + more| - 1] == run + more[..n];
      assert (run + more)[|run + more| - 1] == more[n];
    }
    RefusedExactly(cfg, run + more, host, now);
  }

  // ---------------------------------------------------------------- logins in flight

  /** Logins of a host that were let through and have neither failed nor succeeded yet. */
  function InFlight(cfg: Config, run: seq<Event>, host: Host): int {
    if run == [] then 0
    else
      var prefix := run[..|run| - 1];
      var n := InFlight(cfg, prefix, host);
      match run[|run| - 1]
      case Check(h, now) => if h == host && !Refused(After(cfg, prefix), cfg, h, now) then n + 1 else n
      case Failure(h, _) => if h == host then n - 1 else n
      case Success(h) => if h == host then n - 1 else n
  }

  /** How many logins of a host were let through, and how many have ended. */
  function LetThrough(cfg: Config, run: seq<Event>, host: Host): nat {
    if run == [] then 0
    else
      var before, e := run[..|run| - 1], run[|run| - 1];
      LetThrough(cfg, before, host)
      + if e.Check? && e.host == host && !Refused(After(cfg, before), cfg, host, e.now) then 1 else 0
  }

  function Ended(run: seq<Event>, host: Host): nat {
    if run == [] then 0
    else
      var e := run[|run| - 1];
      Ended(run[..|run| - 1], host) + if !e.Check? && e.host == host then 1 else 0
  }

  lemma {:induction false} InFlightExactly(cfg: Config, run: seq<Event>, host: Host)
    ensures InFlight(cfg, run, host) == LetThrough(cfg, run, host) - Ended(run, host)
  {
    if run != [] {
      InFlightExactly(cfg, run[..|run| - 1], host);
    }
  }

  /** Only logins in flight end, and a host never has more than k of them. */
  ghost predicate AtMost(cfg: Config, run: seq<Event>, host: Host, k: int) {
    forall n | 0 <= n <= |run| :: 0 <= InFlight(cfg, run[..n], host) <= k
  }

  function Most(a: int, b: int): int {
    if a >= b then a else b
  }

  lemma {:induction false} Balance(cfg: Config, run: seq<Event>, host: Host, k: int)
    requires AtMost(cfg, run, host, k)
    ensures |Window(cfg, run, host)| + InFlight(cfg, run, host) <= Most(cfg.limit, 1) - 1 + k
  {
    assert run[..|run|] == run;
    if run != [] {
      var n := |run| - 1;
      var prefix := run[..n];
      forall m | 0 <= m <= n ensures 0 <= InFlight(cfg, prefix[..m], host) <= k {
        assert prefix[..m] == run[..m];
      }
      Balance(cfg, prefix, host, k);
      if run[n].Check? && run[n].host == host {
        RefusedExactly(cfg, prefix, host, run[n].now);
      }
    }
  }

  /** With at most k logins of the host in flight, at most limit - 1 + k failures are recorded. */
  lemma AttemptsBound(cfg: Config, run: seq<Event>, host: Host, k: int)
    requires AtMost(cfg, run, host, k)
    ensures host in After(cfg, run).stats ==> After(cfg, run).stats[host].attempts <= Most(cfg.limit, 1) - 1 + k
  {
    assert run[..|run|] == run;
    Balance(cfg, run, host, k);
    StateIsWindows(cfg, run, host);
  }

  // ---------------------------------------------------------------- the bound is reached

  lemma Snoc(cfg: Config, run: seq<Event>, e: Event, k: int)
    requires AtMost(cfg, run, 0, k) && 0 <= InFlight(cfg, run + [e], 0) <= k
    ensures AtMost(cfg, run + [e], 0, k)
  {
    forall n | 0 <= n <= |run| + 1 ensures 0 <= InFlight(cfg, (run + [e])[..n], 0) <= k {
      if n <= |run| {
        assert (run + [e])[..n] == run[..n];
      } else {
        assert (run + [e])[..n] == run + [e];
      }
    }
  }

  /** Fails more logins of host 0 in flight, the rest of them staying there. */
  lemma {:induction false} Fail(cfg: Config, run: seq<Event>, n: nat, k: int) returns (longer: seq<Event>)
    requires AtMost(cfg, run, 0, k) && n <= InFlight(cfg, run, 0) <= k
    ensures AtMost(cfg, longer, 0, k) && InFlight(cfg, longer, 0) == InFlight(cfg, run, 0) - n
    ensures |Window(cfg, longer, 0)| == |Window(cfg, run, 0)| + n
    ensures Window(cfg, run, 0) == [] || Window(cfg, run, 0)[0] == 0.0 ==>
              Window(cfg, longer, 0) == [] || Window(cfg, longer, 0)[0] == 0.0
  {
    longer := run;
    if n > 0 {
      var before := Fail(cfg, run, n - 1, k);
      longer := before + [Failure(0, 0.0)];
      assert longer[..|longer| - 1] == before;
      Snoc(cfg, before, Failure(0, 0.0), k);
    }
  }

  /** Starts more logins of host 0, all let through. */
  lemma {:induction false} Begin(cfg: Config, run: seq<Event>, n: nat, k: int) returns (longer: seq<Event>)
    requires AtMost(cfg, run, 0, k) && 0 <= InFlight(cfg, run, 0) && InFlight(cfg, run, 0) + n <= k
    requires cfg.blockTime > 0.0 && |Window(cfg, run, 0)| < cfg.limit
    requires Window(cfg, run, 0) == [] || Window(cfg, run, 0)[0] == 0.0
    ensures AtMost(cfg, longer, 0, k) && InFlight(cfg, longer, 0) == InFlight(cfg, run, 0) + n
    ensures Window(cfg, longer, 0) == Window(cfg, run, 0)
  {
    longer := run;
    if n > 0 {
      var before := Begin(cfg, run, n - 1, k);
      longer := before + [Check(0, 0.0)];
      assert longer[..|longer| - 1] == before;
      RefusedExactly(cfg, before, 0, 0.0);
      Snoc(cfg, before, Check(0, 0.0), k);
    }
  }

  /** One login at a time, all failing. */
  lemma {:induction false} OneByOne(cfg: Config, n: nat, k: int) returns (run: seq<Event>)
    requires n < cfg.limit && k >= 1 && cfg.blockTime > 0.0
    ensures AtMost(cfg, run, 0, k) && InFlight(cfg, run, 0) == 0
    ensures |Window(cfg, run, 0)| == n && (n > 0 ==> Window(cfg, run, 0)[0] == 0.0)
  {
    run := [];
    if n > 0 {
      run := OneByOne(cfg, n - 1, k);
      run := Begin(cfg, run, 1, k);
      run := Fail(cfg, run, 1, k);
    }
  }

  /** With k logins in flight at once, limit - 1 + k failures do get recorded. */
  lemma AttemptsReached(cfg: Config, k: int) returns (run: seq<Event>)
    requires cfg.limit >= 1 && k >= 1 && cfg.blockTime > 0.0
    ensures AtMost(cfg, run, 0, k)
    ensures 0 in After(cfg, run).stats && After(cfg, run).stats[0].attempts == cfg.limit - 1 + k
  {
    run := OneByOne(cfg, cfg.limit - 1, k);
    run := Begin(cfg, run, k, k);
    run := Fail(cfg, run, k, k);
    StateIsWindows(cfg, run, 0);
  }
}
