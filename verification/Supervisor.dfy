/** Rebuilding a tunnel that dies under a session (crates/rx11-client/src/ssh.rs,
    `RebuildPolicy::backoff_for` and `supervise`). What the session, the tunnel,
    the timer and the rebuild attempt do is a list of events. */
module Supervisors {
  import opened Bytes

  const U64_LIMIT: nat := 0x1_0000_0000_0000_0000

  datatype Policy = Policy(baseMillis: nat, maxMillis: nat, maxAttempts: u32)

  datatype Event =
    | SessionEnds(ok: bool)
    | TunnelExits
    | TunnelUnhealthy
    | TimerFires
    | Rebuilt
    | RebuildFails(error: string)

  datatype End =
    | Session(ok: bool)
    | TunnelDown(death: Event)
    | RebuildExhausted(attempts: nat, lastError: Option<string>)

  datatype Phase = Watching | Waiting | Attempting | Ended(end: End)

  /** What the supervisor does, in order. */
  datatype Act = TakeOver | Kill | Lost | Sleep(millis: nat) | Attempt | Note(error: string) | Return

  datatype Run = Run(phase: Phase, failures: nat, lastError: Option<string>, log: seq<Act>)

  // ---------------------------------------------------------------- backoff

  /** `x` times two to the power `n`. */
  function Doubled(x: nat, n: nat): nat { if n == 0 then x else 2 * Doubled(x, n - 1) }

  function Least(a: nat, b: nat): nat { if a < b then a else b }

  /** The wait before attempt number `failures`, in 64-bit milliseconds: the product
      saturates and the result is capped. */
  function BackoffFor(p: Policy, failures: nat): nat {
    Least(Least(Doubled(p.baseMillis % U64_LIMIT, Least(failures, 10)), U64_LIMIT - 1), p.maxMillis % U64_LIMIT)
  }

  lemma {:induction false} DoubledGrows(x: nat, a: nat, b: nat)
    requires a <= b
    ensures Doubled(x, a) <= Doubled(x, b)
  {
    if a < b { DoubledGrows(x, a, b - 1); }
  }

  /** The waits of one death never shrink, and the cap holds them. */
  lemma BackoffGrows(p: Policy, a: nat, b: nat)
    requires a <= b
    ensures BackoffFor(p, a) <= BackoffFor(p, b) <= p.maxMillis % U64_LIMIT
  {
    DoubledGrows(p.baseMillis % U64_LIMIT, Least(a, 10), Least(b, 10));
  }

  /** The first wait is the base; each failure doubles it, ten times over, until the cap
      holds it. */
  lemma BackoffDoubles(p: Policy, k: nat)
    requires p.baseMillis < U64_LIMIT && p.maxMillis < U64_LIMIT
    ensures BackoffFor(p, 0) == Least(p.baseMillis, p.maxMillis)
    ensures BackoffFor(p, k + 1) == if k < 10 then Least(2 * BackoffFor(p, k), p.maxMillis) else BackoffFor(p, k)
  {
    assert k < 10 ==> Doubled(p.baseMillis, k + 1) == 2 * Doubled(p.baseMillis, k);
  }

  // ------------------------------------------------------------ one event

  /** The head of the rebuild loop: give up, or sleep before the next attempt. */
  function Knock(p: Policy, r: Run): Run {
    if r.failures >= p.maxAttempts
    then r.(phase := Ended(RebuildExhausted(r.failures, r.lastError)), log := r.log + [Return])
    else r.(phase := Waiting, log := r.log + [Sleep(BackoffFor(p, r.failures))])
  }

  function EndWith(r: Run, end: End): Run { r.(phase := Ended(end), log := r.log + [Return]) }

  predicate Concerns(phase: Phase, e: Event) {
    match phase
    case Watching => e.SessionEnds? || e.TunnelExits? || e.TunnelUnhealthy?
    case Waiting => e.SessionEnds? || e.TimerFires?
    case Attempting => e.SessionEnds? || e.Rebuilt? || e.RebuildFails?
    case Ended(_) => false
  }

  function React(p: Policy, auto: bool, r: Run, e: Event): Run {
    if !Concerns(r.phase, e) then r
    else if r.phase == Watching then
      var k := r.(log := r.log + [Kill]);
      if e.SessionEnds? then EndWith(k, Session(e.ok))
      else if !auto then EndWith(k, TunnelDown(e))
      else Knock(p, k.(log := k.log + [Lost]))
    else if e.SessionEnds? then EndWith(r, Session(e.ok))
    else if r.phase == Waiting then r.(phase := Attempting, log := r.log + [Attempt])
    else if e.Rebuilt? then Run(Watching, 0, None, r.log + [TakeOver])
    else Knock(p, Run(r.phase, r.failures + 1, Some(e.error), r.log + [Note(e.error)]))
  }

  function After(p: Policy, auto: bool, script: seq<Event>): Run {
    if script == [] then Run(Watching, 0, None, [TakeOver])
    else React(p, auto, After(p, auto, script[..|script| - 1]), script[|script| - 1])
  }

  // ------------------------------------------------------------ the two loops

  /** Parks on a select: the first event the phase waits for. */
  method Await(script: seq<Event>, start: nat, phase: Phase, ghost p: Policy, ghost auto: bool) returns (i: nat)
    requires start <= |script| && After(p, auto, script[..start]).phase == phase
    ensures start <= i <= |script| && After(p, auto, script[..i]) == After(p, auto, script[..start])
    ensures i < |script| ==> Concerns(phase, script[i])
  {
    hide After, React;
    i := start;
    while i < |script| && !Concerns(phase, script[i])
      invariant start <= i <= |script|
      invariant After(p, auto, script[..i]) == After(p, auto, script[..start])
    {
      Next(p, auto, script, i);
      Ignored(p, auto, After(p, auto, script[..i]), script[i]);
      i := i + 1;
    }
  }

  lemma Next(p: Policy, auto: bool, script: seq<Event>, i: nat)
    requires i < |script|
    ensures After(p, auto, script[..i + 1]) == React(p, auto, After(p, auto, script[..i]), script[i])
  {
    assert script[..i + 1][..i] == script[..i];
  }

  lemma Ignored(p: Policy, auto: bool, r: Run, e: Event)
    requires !Concerns(r.phase, e)
    ensures React(p, auto, r, e) == r
  {
  }

  method Supervise(p: Policy, auto: bool, script: seq<Event>) returns (r: Run)
    ensures r == After(p, auto, script)
  {
    hide After, React, BackoffFor;
    var failures, lastError, log, i := 0, None, [TakeOver], 0;
    AfterNothing(p, auto, script);
    while true
      invariant i <= |script|
      invariant After(p, auto, script[..i]) == Run(Watching, failures, lastError, log)
      decreases |script| - i
    {
      i := Await(script, i, Watching, p, auto);
      if i == |script| {
        Whole(script);
        return Run(Watching, failures, lastError, log);
      }
      var watched := script[i];
      Next(p, auto, script, i);
      Died(p, auto, Run(Watching, failures, lastError, log), watched);
      i, log := i + 1, log + [Kill];
      if watched.SessionEnds? {
        r := Run(Ended(Session(watched.ok)), failures, lastError, log + [Return]);
        EndedStays(p, auto, script, i, r);
        return;
      }
      if !auto {
        r := Run(Ended(TunnelDown(watched)), failures, lastError, log + [Return]);
        EndedStays(p, auto, script, i, r);
        return;
      }
      log := log + [Lost];
      var rebuilt := false;
      while !rebuilt
        invariant i <= |script|
        invariant After(p, auto, script[..i]) ==
                    if rebuilt then Run(Watching, failures, lastError, log)
                    else Knock(p, Run(Watching, failures, lastError, log))
        decreases |script| - i, !rebuilt
      {
        if failures >= p.maxAttempts {
          r := Run(Ended(RebuildExhausted(failures, lastError)), failures, lastError, log + [Return]);
          EndedStays(p, auto, script, i, r);
          return;
        }
        log := log + [Sleep(BackoffFor(p, failures))];
        i := Await(script, i, Waiting, p, auto);
        if i == |script| {
          Whole(script);
          return Run(Waiting, failures, lastError, log);
        }
        Next(p, auto, script, i);
        Slept(p, auto, Run(Waiting, failures, lastError, log), script[i]);
        i := i + 1;
        if script[i - 1].SessionEnds? {
          r := Run(Ended(Session(script[i - 1].ok)), failures, lastError, log + [Return]);
          EndedStays(p, auto, script, i, r);
          return;
        }
        log := log + [Attempt];
        i := Await(script, i, Attempting, p, auto);
        if i == |script| {
          Whole(script);
          return Run(Attempting, failures, lastError, log);
        }
        var outcome := script[i];
        Next(p, auto, script, i);
        Tried(p, auto, Run(Attempting, failures, lastError, log), outcome);
        i := i + 1;
        match outcome
        case SessionEnds(ok) =>
          r := Run(Ended(Session(ok)), failures, lastError, log + [Return]);
          EndedStays(p, auto, script, i, r);
          return;
        case Rebuilt =>
          failures, lastError, log, rebuilt := 0, None, log + [TakeOver], true;
        case RebuildFails(error) =>
          failures, lastError, log := failures + 1, Some(error), log + [Note(error)];
      }
    }
  }

  lemma AfterNothing(p: Policy, auto: bool, script: seq<Event>)
    ensures After(p, auto, script[..0]) == Run(Watching, 0, None, [TakeOver])
  {
  }

  lemma Whole(script: seq<Event>)
    ensures script[..|script|] == script
  {
  }

  lemma Died(p: Policy, auto: bool, r: Run, e: Event)
    requires r.phase == Watching && Concerns(Watching, e)
    ensures var k := r.(log := r.log + [Kill]);
            React(p, auto, r, e) ==
            if e.SessionEnds? then EndWith(k, Session(e.ok))
            else if !auto then EndWith(k, TunnelDown(e))
            else Knock(p, k.(log := k.log + [Lost]))
  {
  }

  lemma Slept(p: Policy, auto: bool, r: Run, e: Event)
    requires r.phase == Waiting && Concerns(Waiting, e)
    ensures React(p, auto, r, e) ==
            if e.SessionEnds? then EndWith(r, Session(e.ok)) else r.(phase := Attempting, log := r.log + [Attempt])
  {
  }

  lemma Tried(p: Policy, auto: bool, r: Run, e: Event)
    requires r.phase == Attempting && Concerns(Attempting, e)
    ensures e.SessionEnds? ==> React(p, auto, r, e) == EndWith(r, Session(e.ok))
    ensures e.Rebuilt? ==> React(p, auto, r, e) == Run(Watching, 0, None, r.log + [TakeOver])
    ensures e.RebuildFails? ==>
              React(p, auto, r, e) == Knock(p, Run(Watching, r.failures + 1, Some(e.error), r.log + [Note(e.error)]))
  {
  }

  /** Nothing that happens after the return is seen. */
  lemma {:induction false} EndedStays(p: Policy, auto: bool, script: seq<Event>, i: nat, r: Run)
    requires i <= |script| && After(p, auto, script[..i]) == r && r.phase.Ended?
    ensures After(p, auto, script) == r
    decreases |script| - i
  {
    if i == |script| {
      Whole(script);
    } else {
      Next(p, auto, script, i);
      EndedStays(p, auto, script, i + 1, r);
    }
  }

  // --------------------------------------------- what the log alone can tell

  /** Whether a tunnel is live after these acts, or nothing when the acts break the
      discipline: one tunnel at a time, no act but a kill beside a live one. */
  function Live(log: seq<Act>): Option<bool> {
    if log == [] then Some(false)
    else
      var was := Live(log[..|log| - 1]);
      if was == None then None
      else match log[|log| - 1]
        case TakeOver => if was.value then None else Some(true)
        case Kill => if was.value then Some(false) else None
        case _ => if was.value then None else Some(false)
  }

  predicate Returned(log: seq<Act>) { log != [] && log[|log| - 1] == Return }

  /** The acts since the last tunnel was taken over. */
  function Since(log: seq<Act>): seq<Act> {
    if log == [] || log[|log| - 1] == TakeOver then [] else Since(log[..|log| - 1]) + [log[|log| - 1]]
  }

  function Failures(acts: seq<Act>): nat {
    if acts == [] then 0 else Failures(acts[..|acts| - 1]) + if acts[|acts| - 1].Note? then 1 else 0
  }

  function LastError(acts: seq<Act>): Option<string> {
    if acts == [] then None
    else if acts[|acts| - 1].Note? then Some(acts[|acts| - 1].error) else LastError(acts[..|acts| - 1])
  }

  function Sleeps(acts: seq<Act>): seq<nat> {
    if acts == [] then []
    else Sleeps(acts[..|acts| - 1]) + if acts[|acts| - 1].Sleep? then [acts[|acts| - 1].millis] else []
  }

  function Waits(p: Policy, n: nat): seq<nat> {
    if n == 0 then [] else Waits(p, n - 1) + [BackoffFor(p, n - 1)]
  }

  lemma LogAct(log: seq<Act>, a: Act)
    ensures a == TakeOver ==> Since(log + [a]) == []
    ensures a != TakeOver ==>
              && Since(log + [a]) == Since(log) + [a]
              && Failures(Since(log + [a])) == Failures(Since(log)) + (if a.Note? then 1 else 0)
              && LastError(Since(log + [a])) == (if a.Note? then Some(a.error) else LastError(Since(log)))
              && Sleeps(Since(log + [a])) == (if a.Sleep? then Sleeps(Since(log)) + [a.millis] else Sleeps(Since(log)))
    ensures Live(log + [a]) ==
              match Live(log) {
                case None => None
                case Some(live) =>
                  if a == TakeOver then (if live then None else Some(true))
                  else if a == Kill then (if live then Some(false) else None)
                  else if live then None else Some(false)
              }
  {
    assert (log + [a])[..|log|] == log;
    var acts := Since(log) + [a];
    assert acts[..|acts| - 1] == Since(log);
  }

  ghost predicate Inv(p: Policy, auto: bool, r: Run) {
    && Live(r.log) == Some(r.phase == Watching)
    && Failures(Since(r.log)) == r.failures <= p.maxAttempts
    && LastError(Since(r.log)) == r.lastError
    && (Returned(r.log) <==> r.phase.Ended?)
    && (Lost in Since(r.log) ==> auto)
    && (r.phase == Watching ==> r.failures == 0 && Since(r.log) == [])
    && (r.phase in {Waiting, Attempting} ==>
          auto && r.failures < p.maxAttempts && Lost in Since(r.log) && Sleeps(Since(r.log)) == Waits(p, r.failures + 1))
    && (r.phase.Ended? ==>
          && Sleeps(Since(r.log)) in {Waits(p, r.failures), Waits(p, r.failures + 1)}
          && (r.phase.end.TunnelDown? ==> !auto && Lost !in Since(r.log) && Sleeps(Since(r.log)) == [])
          && (r.phase.end.Session? ==> Lost !in Since(r.log) || r.failures < p.maxAttempts)
          && (r.phase.end.RebuildExhausted? ==>
                auto && Lost in Since(r.log) && r.phase.end == RebuildExhausted(p.maxAttempts, r.lastError) && r.failures == p.maxAttempts))
  }

  /** The head of the rebuild loop, entered between tunnels. */
  ghost predicate Between(p: Policy, r: Run) {
    && Live(r.log) == Some(false) && Lost in Since(r.log)
    && Failures(Since(r.log)) == r.failures <= p.maxAttempts
    && LastError(Since(r.log)) == r.lastError
    && Sleeps(Since(r.log)) == Waits(p, r.failures)
  }

  lemma KnockKeeps(p: Policy, r: Run)
    requires Between(p, r)
    ensures Inv(p, true, Knock(p, r))
  {
    hide Live, Since, Failures, LastError, Sleeps, BackoffFor;
    LogAct(r.log, Return);
    LogAct(r.log, Sleep(BackoffFor(p, r.failures)));
  }

  lemma ReactKeeps(p: Policy, auto: bool, r: Run, e: Event)
    requires Inv(p, auto, r)
    ensures Inv(p, auto, React(p, auto, r, e))
  {
    hide Live, Since, Failures, LastError, Sleeps, BackoffFor, Knock;
    if Concerns(r.phase, e) {
      LogAct(r.log, Kill);
      LogAct(r.log + [Kill], Return);
      LogAct(r.log, Return);
      LogAct(r.log, Attempt);
      LogAct(r.log, TakeOver);
      NothingSince();
      if r.phase == Watching && auto && !e.SessionEnds? {
        LogAct(r.log + [Kill], Lost);
        KnockKeeps(p, r.(log := r.log + [Kill] + [Lost]));
      } else if r.phase == Attempting && e.RebuildFails? {
        LogAct(r.log, Note(e.error));
        KnockKeeps(p, Run(r.phase, r.failures + 1, Some(e.error), r.log + [Note(e.error)]));
      }
    }
  }

  lemma NothingSince()
    ensures Failures([]) == 0 && LastError([]) == None && Sleeps([]) == []
  {
  }

  lemma {:induction false} AfterKeeps(p: Policy, auto: bool, script: seq<Event>)
    ensures Inv(p, auto, After(p, auto, script))
  {
    if script == [] {
      LogAct([], TakeOver);
      NothingSince();
      assert [] + [TakeOver] == [TakeOver];
    } else {
      AfterKeeps(p, auto, script[..|script| - 1]);
      ReactKeeps(p, auto, After(p, auto, script[..|script| - 1]), script[|script| - 1]);
    }
  }

  lemma {:induction false} PrefixLive(log: seq<Act>, k: nat)
    requires Live(log) != None && k <= |log|
    ensures Live(log[..k]) != None
    decreases |log|
  {
    if k == |log| {
      assert log[..k] == log;
    } else {
      PrefixLive(log[..|log| - 1], k);
      assert log[..|log| - 1][..k] == log[..k];
    }
  }

  lemma {:induction false} WaitsAre(p: Policy, n: nat)
    ensures |Waits(p, n)| == n && forall k :: 0 <= k < n ==> Waits(p, n)[k] == BackoffFor(p, k)
  {
    hide BackoffFor;
    if n > 0 { WaitsAre(p, n - 1); }
  }

  // ----------------------------------------------------------- every run

  /** THE tunnel law. Whatever the session, the tunnels, the timer and the attempts
      do, at most one tunnel is live, each one taken over is killed before the next
      sleep, attempt or return, and one is live exactly while it is watched. */
  lemma OneTunnel(p: Policy, auto: bool, script: seq<Event>, k: nat)
    requires k < |After(p, auto, script).log|
    ensures var r := After(p, auto, script);
            && Live(r.log) == Some(r.phase == Watching)
            && Live(r.log[..k]) == Some(r.log[k] == Kill)
  {
    hide After, Since, Failures, LastError, Sleeps, BackoffFor;
    var log := After(p, auto, script).log;
    AfterKeeps(p, auto, script);
    PrefixLive(log, k + 1);
    PrefixLive(log, k);
    LogAct(log[..k], log[k]);
    assert log[..k] + [log[k]] == log[..k + 1];
  }

  /** THE budget law, read off the log. Exhaustion is reported exactly when the run
      returns after losing a tunnel with the whole budget of consecutive failures
      since the last success spent; it names their number and their last error. */
  lemma ExhaustedExactly(p: Policy, auto: bool, script: seq<Event>)
    ensures var r := After(p, auto, script);
            var acts := Since(r.log);
            && Failures(acts) <= p.maxAttempts
            && (r.phase.Ended? && r.phase.end.RebuildExhausted? <==>
                  Returned(r.log) && Lost in acts && Failures(acts) == p.maxAttempts)
            && (r.phase.Ended? && r.phase.end.RebuildExhausted? ==>
                  r.phase.end == RebuildExhausted(Failures(acts), LastError(acts)))
            && (r.phase.Ended? && r.phase.end.TunnelDown? ==> !auto && Lost !in acts && Sleeps(acts) == [])
            && (Lost in acts ==> auto)
  {
    hide After, Since, Failures, LastError, Sleeps, BackoffFor, Live;
    AfterKeeps(p, auto, script);
  }

  /** THE waiting law: the waits since the last success are the backoffs of 0, 1,
      2, ... failures in turn, so they never shrink and never pass the cap. */
  lemma WaitsGrow(p: Policy, auto: bool, script: seq<Event>, i: nat, k: nat)
    requires i <= k < |Sleeps(Since(After(p, auto, script).log))|
    ensures var sleeps := Sleeps(Since(After(p, auto, script).log));
            && sleeps[k] == BackoffFor(p, k)
            && sleeps[i] <= sleeps[k] <= p.maxMillis % U64_LIMIT
            && |sleeps| <= Failures(Since(After(p, auto, script).log)) + 1
  {
    hide After, Since, Failures, LastError, Sleeps, BackoffFor, Live;
    AfterKeeps(p, auto, script);
    NothingSince();
    WaitsAre(p, After(p, auto, script).failures);
    WaitsAre(p, After(p, auto, script).failures + 1);
    BackoffGrows(p, i, k);
  }

  /** The session's end wins at once in every phase that is still going, with the
      tunnel torn down, and nothing after it changes the outcome. */
  lemma SessionEndFinal(p: Policy, auto: bool, script: seq<Event>, ok: bool, more: seq<Event>)
    requires !After(p, auto, script).phase.Ended?
    ensures var r := After(p, auto, script + [SessionEnds(ok)] + more);
            && r.phase == Ended(Session(ok)) && Live(r.log) == Some(false)
            && r.failures == After(p, auto, script).failures
  {
    var all := script + [SessionEnds(ok)] + more;
    var i := |script|;
    assert all[..i] == script && all[i] == SessionEnds(ok);
    Next(p, auto, all, i);
    EndedStays(p, auto, all, i + 1, After(p, auto, all[..i + 1]));
    AfterKeeps(p, auto, all);
  }

  lemma Appended(p: Policy, auto: bool, script: seq<Event>, e: Event)
    ensures After(p, auto, script + [e]) == React(p, auto, After(p, auto, script), e)
  {
    assert (script + [e])[..|script|] == script;
  }

  /** What the supervisor does about a tunnel that dies: it is killed, whether it went by
      itself or was found unhealthy. Without reconnecting that ends the run with this very
      death; otherwise the loss is noted and the first wait begins, or the run ends when
      there is no budget at all. */
  lemma DeathSeen(p: Policy, auto: bool, script: seq<Event>, death: Event)
    requires After(p, auto, script).phase == Watching && (death == TunnelExits || death == TunnelUnhealthy)
    ensures var r := After(p, auto, script);
            After(p, auto, script + [death]) ==
              if !auto then Run(Ended(TunnelDown(death)), 0, None, r.log + [Kill, Return])
              else if p.maxAttempts == 0 then Run(Ended(RebuildExhausted(0, None)), 0, None, r.log + [Kill, Lost, Return])
              else Run(Waiting, 0, None, r.log + [Kill, Lost, Sleep(BackoffFor(p, 0))])
  {
    hide After, BackoffFor, Live, Failures, Sleeps;
    var r := After(p, auto, script);
    Appended(p, auto, script, death);
    AfterKeeps(p, auto, script);
    NothingSince();
    assert r.log + [Kill] + [Return] == r.log + [Kill, Return];
    assert r.log + [Kill] + [Lost] + [Return] == r.log + [Kill, Lost, Return];
    assert r.log + [Kill] + [Lost] + [Sleep(BackoffFor(p, 0))] == r.log + [Kill, Lost, Sleep(BackoffFor(p, 0))];
  }

  /** The timer starts an attempt; an attempt that succeeds takes the tunnel over and
      clears the count; one that fails adds one with its error and leads to the next wait,
      or to the end when the budget is spent. Nothing else moves a rebuild. */
  lemma RebuildSeen(p: Policy, auto: bool, script: seq<Event>, e: Event)
    requires !e.SessionEnds?
    ensures var r, r' := After(p, auto, script), After(p, auto, script + [e]);
            && (r.phase == Waiting ==>
                  r' == if e == TimerFires then Run(Attempting, r.failures, r.lastError, r.log + [Attempt]) else r)
            && (r.phase == Attempting ==>
                  r' == if e == Rebuilt then Run(Watching, 0, None, r.log + [TakeOver])
                        else if e.RebuildFails? then
                          (var n, last := r.failures + 1, Some(e.error);
                           if n < p.maxAttempts then Run(Waiting, n, last, r.log + [Note(e.error), Sleep(BackoffFor(p, n))])
                           else Run(Ended(RebuildExhausted(n, last)), n, last, r.log + [Note(e.error), Return]))
                        else r)
            && (r.phase.Ended? ==> r' == r)
  {
    hide After, BackoffFor;
    var r := After(p, auto, script);
    Appended(p, auto, script, e);
    if e.RebuildFails? {
      var noted := r.log + [Note(e.error)];
      assert noted + [Return] == r.log + [Note(e.error), Return];
      assert noted + [Sleep(BackoffFor(p, r.failures + 1))] == r.log + [Note(e.error), Sleep(BackoffFor(p, r.failures + 1))];
    }
  }
}
