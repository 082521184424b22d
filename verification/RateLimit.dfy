/**
  The request limiter of the API: a counter and the start of the current minute, kept in globals.
  Time is real-valued seconds; one check reads the clock up to three times.
*/
module RateLimit {
  import opened Common

  const MINUTE := 60.0

  datatype State = State(counter: int, start: Option<real>)

  /** The clock readings of one check: when the start is unset, for the comparison, at a reset. */
  datatype Request = Request(first: real, now: real, last: real)

  datatype Outcome = Outcome(state: State, admitted: bool)

  const INIT := State(0, None)

  function Start(s: State, q: Request): real {
    if s.start == None || s.start == Some(0.0) then q.first else s.start.value
  }

  /** The request falls after the minute and opens a new one. */
  predicate Reopens(s: State, q: Request) {
    q.now - MINUTE > Start(s, q)
  }

  function Check(s: State, max: int, q: Request): Outcome {
    if max == 0 then Outcome(s, true)
    else
      var t := if Reopens(s, q) then State(0, Some(q.last)) else State(s.counter + 1, Some(Start(s, q)));
      Outcome(t, t.counter <= max)
  }

  class Limiter {
    var counter: int
    var start: Option<real>

    constructor ()
      ensures State(counter, start) == INIT
    {
      counter, start := 0, None;
    }

    /** Non-zero error codes refuse the request. */
    method CheckRateLimit(max: int, errorCode: int, q: Request) returns (code: int)
      modifies this
      ensures var o := Check(old(State(counter, start)), max, q);
              State(counter, start) == o.state && code == if o.admitted then 0 else errorCode
    {
      if max == 0 {
        return 0;
      }
      if start == None || start == Some(0.0) {
        start := Some(q.first);
      }
      if q.now - MINUTE <= start.value {
        counter := counter + 1;
      } else {
        counter := 0;
        start := Some(q.last);
      }
      if counter > max {
        return errorCode;
      }
      return 0;
    }
  }

  // ---------------------------------------------------------------- runs

  function After(max: int, qs: seq<Request>): State {
    if qs == [] then INIT else Check(After(max, qs[..|qs| - 1]), max, qs[|qs| - 1]).state
  }

  predicate Admitted(max: int, qs: seq<Request>, i: nat)
    requires i < |qs|
  {
    Check(After(max, qs[..i]), max, qs[i]).admitted
  }

  /** Request i opens a new minute after an earlier one. */
  predicate Opens(max: int, qs: seq<Request>, i: nat)
    requires i < |qs|
  {
    Reopens(After(max, qs[..i]), qs[i])
  }

  /** The clock never goes back. */
  ghost predicate Clock(qs: seq<Request>) {
    && (forall i | 0 <= i < |qs| :: 0.0 < qs[i].first <= qs[i].now <= qs[i].last)
    && (forall i, j | 0 <= i < j < |qs| :: qs[i].last <= qs[j].first)
  }

  /** The request that opened the current minute; None while the very first minute lasts. */
  function Opener(max: int, qs: seq<Request>): (k: Option<nat>)
    ensures k.Some? ==> k.value < |qs|
  {
    if qs == [] then None
    else
      var n := |qs| - 1;
      if Opens(max, qs, n) then Some(n) else Opener(max, qs[..n])
  }

  /** How many requests from index k on were admitted. */
  function AdmittedFrom(max: int, qs: seq<Request>, k: nat): nat {
    if |qs| <= k then 0
    else
      var n := |qs| - 1;
      AdmittedFrom(max, qs[..n], k) + if Admitted(max, qs, n) then 1 else 0
  }

  /** How many requests with a comparison time in the minute from a on were admitted. */
  function AdmittedWithin(max: int, qs: seq<Request>, a: real): nat {
    if qs == [] then 0
    else
      var n := |qs| - 1;
      AdmittedWithin(max, qs[..n], a) + if a <= qs[n].now <= a + MINUTE && Admitted(max, qs, n) then 1 else 0
  }

  lemma ClockPrefix(qs: seq<Request>, n: nat)
    requires Clock(qs) && n <= |qs|
    ensures Clock(qs[..n])
  {
  }

  /** The start of the current minute is set, and is the opener's last clock reading. */
  lemma {:induction false} StartOk(max: int, qs: seq<Request>)
    requires max != 0 && Clock(qs) && qs != []
    ensures var s, k := After(max, qs).start, Opener(max, qs);
            && s.Some? && 0.0 < s.value <= qs[|qs| - 1].last
            && (k.Some? ==> s.value == qs[k.value].last)
  {
    var n := |qs| - 1;
    ClockPrefix(qs, n);
    if n > 0 {
      StartOk(max, qs[..n]);
    }
  }

  /** A request opens a new minute exactly if it comes more than sixty seconds after the last reading of
      the one that opened the minute before, or after the first reading of all. */
  lemma {:induction false} OpensExactly(max: int, qs: seq<Request>, i: nat)
    requires max != 0 && Clock(qs) && i < |qs|
    ensures var k := Opener(max, qs[..i]);
            Opens(max, qs, i) <==> qs[i].now - 60.0 > if k.Some? then qs[k.value].last else qs[0].first
  {
    ClockPrefix(qs, i);
    FirstStart(max, qs[..i]);
    if i > 0 {
      StartOk(max, qs[..i]);
    }
  }

  /** In the very first minute the start is the first reading of all. */
  lemma {:induction false} FirstStart(max: int, qs: seq<Request>)
    requires max != 0 && Clock(qs)
    ensures Opener(max, qs) == None ==>
              After(max, qs).start == if qs == [] then None else Some(qs[0].first)
  {
    if qs != [] {
      ClockPrefix(qs, |qs| - 1);
      FirstStart(max, qs[..|qs| - 1]);
    }
  }

  /** A maximum of zero switches the limit off: every request of every run is admitted, and nothing is
      counted. */
  lemma {:induction false} ZeroAdmitsAll(qs: seq<Request>)
    ensures After(0, qs) == INIT && forall i | 0 <= i < |qs| :: Admitted(0, qs, i)
  {
    if qs != [] {
      ZeroAdmitsAll(qs[..|qs| - 1]);
    }
  }

  /** Minutes are more than sixty seconds apart. */
  lemma {:induction false} OpenersApart(max: int, qs: seq<Request>, i: nat, j: nat)
    requires max != 0 && Clock(qs) && i < j < |qs| && Opens(max, qs, i) && Opens(max, qs, j)
    ensures qs[j].now > qs[i].last + MINUTE
  {
    StartKept(max, qs, i, j);
  }

  lemma {:induction false} StartKept(max: int, qs: seq<Request>, i: nat, j: nat)
    requires max != 0 && Clock(qs) && i < j <= |qs| && Opens(max, qs, i)
    ensures After(max, qs[..j]).start.Some? && 0.0 < qs[i].last <= After(max, qs[..j]).start.value
    decreases j
  {
    var n := j - 1;
    assert qs[..j][..n] == qs[..n];
    if n > i {
      StartKept(max, qs, i, n);
    }
  }

  /** The first minute admits min(n, max) of its n requests, a later one min(n, max + 1): the
      request that opens it is not counted. */
  lemma {:induction false} MinuteAdmits(max: int, qs: seq<Request>)
    requires max > 0
    ensures match Opener(max, qs)
            case None => After(max, qs).counter == |qs| && AdmittedFrom(max, qs, 0) == Least(|qs|, max)
            case Some(k) =>
              After(max, qs).counter == |qs| - k - 1 && AdmittedFrom(max, qs, k) == Least(|qs| - k, max + 1)
  {
    if qs != [] {
      MinuteAdmits(max, qs[..|qs| - 1]);
      var n := |qs| - 1;
      if Opens(max, qs, n) {
        assert AdmittedFrom(max, qs[..n], n) == 0;
      }
    }
  }

  /** So a minute keeps to the configured maximum exactly when it is the first or quiet enough. */
  lemma MinuteKeepsLimit(max: int, qs: seq<Request>)
    requires max > 0
    ensures var k := Opener(max, qs);
            AdmittedFrom(max, qs, if k.Some? then k.value else 0) <= max <==> k.None? || |qs| - k.value <= max
  {
    MinuteAdmits(max, qs);
  }

  /** What is known of the minute from a on while it may still grow. */
  ghost predicate SpanOk(max: int, qs: seq<Request>, a: real) {
    var c, k, counted := AdmittedWithin(max, qs, a), Opener(max, qs), Least(After(max, qs).counter, max);
    && After(max, qs).counter >= 0
    && (qs != [] && qs[|qs| - 1].now < a ==> c == 0)
    && (qs != [] && qs[|qs| - 1].now <= a + MINUTE ==>
        if k.Some? && qs[k.value].now >= a then c <= max + 1 + counted else c <= counted)
  }

  lemma {:induction false} SpanGrows(max: int, qs: seq<Request>, a: real)
    requires max > 0 && Clock(qs)
    ensures SpanOk(max, qs, a) && AdmittedWithin(max, qs, a) <= 2 * max + 1
  {
    if qs != [] {
      var n := |qs| - 1;
      ClockPrefix(qs, n);
      SpanGrows(max, qs[..n], a);
      if n > 0 {
        StartOk(max, qs[..n]);
      }
    }
  }

  /** No sixty seconds ever see more than 2 * max + 1 requests admitted. */
  lemma SpanBound(max: int, qs: seq<Request>, a: real)
    requires max > 0 && Clock(qs)
    ensures AdmittedWithin(max, qs, a) <= 2 * max + 1
  {
    SpanGrows(max, qs, a);
  }

  // ---------------------------------------------------------------- the bound is reached

  function At(t: real): Request {
    Request(t, t, t)
  }

  lemma Snoc(max: int, qs: seq<Request>, q: Request, a: real)
    ensures var o := Check(After(max, qs), max, q);
            && After(max, qs + [q]) == o.state
            && AdmittedWithin(max, qs + [q], a)
               == AdmittedWithin(max, qs, a) + if a <= q.now <= a + MINUTE && o.admitted then 1 else 0
  {
    assert (qs + [q])[..|qs|] == qs;
  }

  lemma ClockSnoc(qs: seq<Request>, t: real)
    requires Clock(qs) && t > 0.0 && (qs != [] ==> qs[|qs| - 1].last <= t)
    ensures Clock(qs + [At(t)])
  {
    var rs := qs + [At(t)];
    forall i, j | 0 <= i < j < |rs| ensures rs[i].last <= rs[j].first {
      if j == |qs| && i < |qs| - 1 {
        assert qs[i].last <= qs[|qs| - 1].first;
      }
    }
  }

  /** n more requests at time t, inside the minute, are counted one by one. */
  lemma {:induction false} Burst(max: int, qs: seq<Request>, n: nat, t: real, a: real) returns (rs: seq<Request>)
    requires max > 0 && After(max, qs).start.Some? && After(max, qs).start.value > 0.0
    requires t - MINUTE <= After(max, qs).start.value && a <= t <= a + MINUTE
    requires Clock(qs) && t > 0.0 && (qs != [] ==> qs[|qs| - 1].last <= t)
    ensures Clock(rs) && (rs != [] ==> rs[|rs| - 1].last <= t)
    ensures After(max, rs) == State(After(max, qs).counter + n, After(max, qs).start)
    ensures AdmittedWithin(max, rs, a)
            == AdmittedWithin(max, qs, a) + Least(After(max, qs).counter + n, max) - Least(After(max, qs).counter, max)
  {
    if n == 0 {
      rs := qs;
    } else {
      var before := Burst(max, qs, n - 1, t, a);
      Snoc(max, before, At(t), a);
      ClockSnoc(before, t);
      rs := before + [At(t)];
    }
  }

  /** For every maximum there is a run in which sixty seconds see 2 * max + 1 requests admitted. */
  lemma BoundReached(max: int) returns (qs: seq<Request>)
    requires max > 0
    ensures Clock(qs) && AdmittedWithin(max, qs, 160.0) == 2 * max + 1
  {
    Snoc(max, [], At(1.0), 160.0);
    qs := [] + [At(1.0)];
    Snoc(max, qs, At(100.0), 160.0);
    qs := qs + [At(100.0)];
    qs := Burst(max, qs, max, 160.0, 160.0);
    Snoc(max, qs, At(161.0), 160.0);
    ClockSnoc(qs, 161.0);
    qs := qs + [At(161.0)];
    qs := Burst(max, qs, max, 161.0, 160.0);
  }
}
