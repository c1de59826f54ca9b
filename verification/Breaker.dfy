/**
 The circuit breaker (s3gw/breaker.go ConsecutiveFailures). Every call runs under
 one mutex, so a concurrent execution is a sequence of atomic events; the clock is
 read inside the mutex and therefore never runs backwards along the sequence.
 */
module Breaker {

  datatype Phase = Closed | Opened | HalfOpen

  datatype State = State(phase: Phase, failures: nat, since: int, lastProbe: int)

  /** Allow reads the clock to decide and again to stamp a probe; Report reads it when it opens. */
  datatype Event = Allow(check: int, stamp: int) | Report(ok: bool, now: int)

  datatype Settings = Settings(n: nat, cooldown: int)
  {
    /** The constructor raises n to at least 1. */
    predicate Valid() { n >= 1 }
  }

  const INITIAL := State(Closed, 0, 0, 0)

  function Open(s: State, now: int): (t: State) {
    s.(phase := Opened, failures := 0, since := now)
  }

  /** The moment a waiting breaker counts its cooldown from. */
  function Barrier(s: State): (t: int) {
    if s.phase == Opened then s.since else s.lastProbe
  }

  predicate Admits(c: Settings, s: State, check: int) {
    s.phase == Closed || check - Barrier(s) >= c.cooldown
  }

  function Step(c: Settings, s: State, e: Event): (t: State) {
    match e
    case Allow(check, stamp) =>
      if s.phase == Closed || !Admits(c, s, check) then s
      else s.(phase := HalfOpen, lastProbe := stamp)
    case Report(ok, now) =>
      if ok then s.(phase := Closed, failures := 0)
      else if s.phase == Closed then
        if s.failures + 1 >= c.n then Open(s, now) else s.(failures := s.failures + 1)
      else if s.phase == HalfOpen then Open(s, now)
      else s
  }

  class ConsecutiveFailures {
    const c: Settings
    var phase: Phase
    var failures: nat
    var since: int
    var lastProbe: int

    function Abs(): (s: State)
      reads this
    {
      State(phase, failures, since, lastProbe)
    }

    constructor (n: int, cooldown: int)
      ensures c == Settings(if n < 1 then 1 else n, cooldown) && c.Valid()
      ensures Abs() == INITIAL
    {
      c := Settings(if n < 1 then 1 else n, cooldown);
      phase, failures, since, lastProbe := Closed, 0, 0, 0;
    }

    method Allow(check: int, stamp: int) returns (admitted: bool)
      modifies this
      ensures admitted == Admits(c, old(Abs()), check)
      ensures Abs() == Step(c, old(Abs()), Event.Allow(check, stamp))
    {
      match phase {
        case Closed =>
          return true;
        case Opened =>
          if check - since < c.cooldown {
            return false;
          }
          phase := HalfOpen;
          lastProbe := stamp;
          return true;
        case HalfOpen =>
          if check - lastProbe < c.cooldown {
            return false;
          }
          lastProbe := stamp;
          return true;
      }
    }

    method Report(ok: bool, now: int)
      modifies this
      ensures Abs() == Step(c, old(Abs()), Event.Report(ok, now))
    {
      if ok {
        phase, failures := Closed, 0;
        return;
      }
      match phase {
        case Closed =>
          failures := failures + 1;
          if failures >= c.n {
            OpenNow(now);
          }
        case HalfOpen =>
          OpenNow(now);
        case Opened =>
      }
    }

    method OpenNow(now: int)
      modifies this
      ensures Abs() == Open(old(Abs()), now)
    {
      phase, failures, since := Opened, 0, now;
    }
  }

  // ----- runs

  function After(c: Settings, es: seq<Event>): (s: State) {
    if es == [] then INITIAL else Step(c, After(c, es[..|es| - 1]), es[|es| - 1])
  }

  function Start(e: Event): (t: int) {
    match e case Allow(check, _) => check case Report(_, now) => now
  }

  function Finish(e: Event): (t: int) {
    match e case Allow(_, stamp) => stamp case Report(_, now) => now
  }

  /** The clock readings of a run never decrease. */
  predicate Clocked(es: seq<Event>) {
    && (forall i :: 0 <= i < |es| ==> Start(es[i]) <= Finish(es[i]))
    && (forall i, j :: 0 <= i < j < |es| ==> Finish(es[i]) <= Start(es[j]))
  }

  predicate IsSuccess(e: Event) {
    e.Report? && e.ok
  }

  /** How many attempts were reported since the last success; none of them succeeded. */
  function ReportsSinceSuccess(es: seq<Event>): (k: nat) {
    if es == [] || IsSuccess(es[|es| - 1]) then 0
    else ReportsSinceSuccess(es[..|es| - 1]) + (if es[|es| - 1].Report? then 1 else 0)
  }

  /**
   The breaker is closed exactly while fewer than n attempts were reported since the
   last success, and then its counter is their number.
   */
  lemma {:induction false} ClosedIff(c: Settings, es: seq<Event>)
    requires c.Valid()
    ensures After(c, es).phase == Closed <==> ReportsSinceSuccess(es) < c.n
    ensures After(c, es).phase == Closed ==> After(c, es).failures == ReportsSinceSuccess(es)
  {
    if es != [] {
      ClosedIff(c, es[..|es| - 1]);
    }
  }

  /** Event i happened after every success of the run so far. */
  predicate SinceSuccess(es: seq<Event>, i: nat)
    requires i < |es|
  {
    forall j :: i < j < |es| ==> !IsSuccess(es[j])
  }

  /**
   The event the cooldown in force is counted from, read off the events alone; -1 when none is. A success ends it.
   An attempt asked for while n or more attempts were reported since the last success is a probe, and starts
   a new cooldown, when the one in force is over. A failure starts one when it is the n-th reported since the
   last success, or when it is the first reported since a probe.
   */
  function LastMark(c: Settings, es: seq<Event>): (m: int)
    ensures -1 <= m < |es|
  {
    if es == [] then -1
    else
      var front, e := es[..|es| - 1], es[|es| - 1];
      var m, k := LastMark(c, front), ReportsSinceSuccess(front);
      match e
      case Allow(check, _) =>
        if k >= c.n && (m >= 0 ==> check - Finish(front[m]) >= c.cooldown) then |front| else m
      case Report(ok, _) =>
        if ok then -1
        else if k + 1 == c.n || (m >= 0 && front[m].Allow?) then |front|
        else m
  }

  /** Event i started a cooldown: it opened the breaker, or it was admitted as a probe. */
  predicate Marks(c: Settings, es: seq<Event>, i: nat)
    requires i < |es|
  {
    LastMark(c, es[..i + 1]) == i
  }

  /** While the breaker is tripped, its barrier is the last mark, and it is half-open exactly behind a probe. */
  lemma {:induction false} BarrierIsLastMark(c: Settings, es: seq<Event>)
    requires c.Valid()
    ensures After(c, es).phase == Closed <==> LastMark(c, es) == -1
    ensures LastMark(c, es) >= 0 ==>
              && Barrier(After(c, es)) == Finish(es[LastMark(c, es)])
              && (After(c, es).phase == HalfOpen <==> es[LastMark(c, es)].Allow?)
  {
    if es != [] {
      var front := es[..|es| - 1];
      BarrierIsLastMark(c, front);
      ClosedIff(c, front);
      ClosedIff(c, es);
      var m := LastMark(c, es);
      assert 0 <= m < |front| ==> es[m] == front[m];
    }
  }

  /** The last mark is a mark, since the last success, and none comes after it. */
  lemma {:induction false} LastMarkIsLast(c: Settings, es: seq<Event>)
    requires c.Valid()
    ensures LastMark(c, es) >= 0 ==> Marks(c, es, LastMark(c, es)) && SinceSuccess(es, LastMark(c, es))
    ensures forall i :: 0 <= i < |es| && Marks(c, es, i) && SinceSuccess(es, i) ==> i <= LastMark(c, es)
  {
    if es != [] {
      var front, e := es[..|es| - 1], es[|es| - 1];
      LastMarkIsLast(c, front);
      assert es[..|es|] == es && es == front + [e];
      forall i | 0 <= i < |front|
        ensures Marks(c, es, i) == Marks(c, front, i)
        ensures SinceSuccess(es, i) <==> SinceSuccess(front, i) && !IsSuccess(e)
      {
        MarksOfPrefix(c, front, e, i);
      }
    }
  }

  lemma {:induction false} MarksOfPrefix(c: Settings, es: seq<Event>, e: Event, i: nat)
    requires i < |es|
    ensures Marks(c, es + [e], i) == Marks(c, es, i)
    ensures SinceSuccess(es + [e], i) <==> SinceSuccess(es, i) && !IsSuccess(e)
  {
    var fs := es + [e];
    assert fs[..i + 1] == es[..i + 1] && fs[|es|] == e;
    assert forall j :: 0 <= j < |es| ==> fs[j] == es[j];
  }

  /**
   When an attempt is admitted, for every run of the breaker: exactly when fewer than n
   attempts were reported since the last success, or a full cooldown has passed since
   every opening and every probe after it. In particular an unreported probe never
   wedges the breaker.
   */
  lemma {:induction false} AdmittedIff(c: Settings, es: seq<Event>, check: int)
    requires c.Valid() && Clocked(es)
    ensures Admits(c, After(c, es), check) <==>
            || ReportsSinceSuccess(es) < c.n
            || forall i :: 0 <= i < |es| && Marks(c, es, i) && SinceSuccess(es, i) ==>
                 check - Finish(es[i]) >= c.cooldown
  {
    hide Marks, LastMark;
    ClosedIff(c, es);
    BarrierIsLastMark(c, es);
    LastMarkIsLast(c, es);
    forall i | 0 <= i < LastMark(c, es) ensures Finish(es[i]) <= Finish(es[LastMark(c, es)]) {
      assert Finish(es[i]) <= Start(es[LastMark(c, es)]);
    }
  }

  /** The same without reference to a monotonic clock: the last mark alone counts. */
  lemma {:induction false} AdmittedByLastMark(c: Settings, es: seq<Event>, check: int)
    requires c.Valid()
    ensures Admits(c, After(c, es), check) <==>
            LastMark(c, es) == -1 || check - Finish(es[LastMark(c, es)]) >= c.cooldown
  {
    BarrierIsLastMark(c, es);
  }

  lemma {:induction false} StaysTripped(c: Settings, es: seq<Event>, i: nat, j: nat)
    requires c.Valid() && i < j <= |es| && Marks(c, es, i)
    requires forall k :: i < k < j ==> !IsSuccess(es[k])
    ensures After(c, es[..j]).phase != Closed && LastMark(c, es[..j]) >= i
    decreases j
  {
    assert es[..j][..j - 1] == es[..j - 1] && es[..j][j - 1] == es[j - 1];
    if j > i + 1 {
      StaysTripped(c, es, i, j - 1);
    }
    BarrierIsLastMark(c, es[..j]);
  }

  /**
   From an opening until the next success, the first admission comes at least a cooldown
   after the opening and any two admissions are at least a cooldown apart.
   */
  lemma {:induction false} ProbesAreSpaced(c: Settings, es: seq<Event>, i: nat, j: nat)
    requires c.Valid() && Clocked(es) && i < j < |es| && Marks(c, es, i)
    requires forall k :: i < k < j ==> !IsSuccess(es[k])
    requires es[j].Allow? && Admits(c, After(c, es[..j]), es[j].check)
    ensures es[j].check - Finish(es[i]) >= c.cooldown
  {
    var front := es[..j];
    StaysTripped(c, es, i, j);
    AdmittedByLastMark(c, front, es[j].check);
    var m := LastMark(c, front);
    assert front[m] == es[m] && (i < m ==> Finish(es[i]) <= Start(es[m]));
  }

  /**
   A failed probe starts a new cooldown: after it an attempt is admitted exactly when a
   full cooldown has passed since the failure was reported, however old the probe is.
   */
  lemma {:induction false} FailedProbeReopens(
    c: Settings, es: seq<Event>, check: int, stamp: int, now: int, later: int)
    requires c.Valid() && ReportsSinceSuccess(es) >= c.n && Admits(c, After(c, es), check)
    ensures Admits(c, After(c, es + [Allow(check, stamp), Report(false, now)]), later) <==> later - now >= c.cooldown
  {
    var probe, failure := Allow(check, stamp), Report(false, now);
    var fs, gs := es + [probe], es + [probe, failure];
    assert fs[..|es|] == es && gs[..|fs|] == fs;
    ClosedIff(c, es);
    AdmittedByLastMark(c, es, check);
    AdmittedByLastMark(c, gs, later);
    assert LastMark(c, fs) == |es| && LastMark(c, gs) == |fs|;
  }

  /** A successful probe closes the breaker, which then admits everything. */
  lemma {:induction false} SuccessCloses(c: Settings, es: seq<Event>, now: int, later: int)
    requires c.Valid()
    ensures Admits(c, After(c, es + [Report(true, now)]), later)
  {
    var fs := es + [Report(true, now)];
    assert fs[..|es|] == es;
    AdmittedByLastMark(c, fs, later);
  }
}
