/**
 * The shutdown coordinator on a time line: what workers, lifecycle hooks and resources do is given by when
 * their promises settle, if they ever do; the coordinator decides what is started when and how long it waits.
 */
module Shutdown {
  import opened Wrappers

  /** A promise: it never settles, or it does after some milliseconds; `first` decides a tie with a timer. */
  datatype Work = Never | Settles(after: nat, ok: bool, first: bool)

  datatype Outcome = Settled | Rejected | TimedOut

  datatype Done = Done(outcome: Outcome, at: int)

  const RESOURCE_CLOSE_TIMEOUT_MS: nat := 3_000
  const APP_CLOSE_TIMEOUT_MS: nat := 15_000

  /** `settleWithin`: the promise races a timer. */
  function SettleWithin(w: Work, start: int, timeout: nat): Done {
    if w.Never? || w.after > timeout || (w.after == timeout && !w.first) then Done(TimedOut, start + timeout)
    else Done(if w.ok then Settled else Rejected, start + w.after)
  }

  /** `settleBy`: the same against a deadline that may have passed. */
  function SettleBy(w: Work, now: int, deadline: int): Done {
    SettleWithin(w, now, if deadline > now then deadline - now else 0)
  }

  datatype Phase = Queues | Redis | Database

  function Rank(p: Phase): nat {
    match p case Queues => 0 case Redis => 1 case Database => 2
  }

  datatype Resource = Resource(name: string, phase: Phase, close: Work)

  datatype Worker = Worker(pause: Work, close: Work, forceClose: Work)

  /** `app.close()`, and when its hooks reach the coordinator, if they do. */
  datatype App = App(close: Work, hookAfter: Option<nat>)

  datatype Http = NotListening | Listening(closed: Work) | Broken

  datatype Failure = HttpExpired | WorkerFailed(worker: nat) | AppFailed | ResourceFailed(resource: nat)

  /** One call of a resource's `close`: when it was made, until when it was awaited, and how it ended. */
  datatype Closing = Closing(resource: nat, started: int, ended: int, clean: bool)

  // ----- what is promised of the resource phases -----

  predicate ClosedOnce(rs: seq<Resource>, cs: seq<Closing>, below: nat) {
    && (forall k :: 0 <= k < |cs| ==> cs[k].resource < |rs| && Rank(rs[cs[k].resource].phase) < below)
    && (forall k, l :: 0 <= k < l < |cs| ==> cs[k].resource != cs[l].resource)
    && (forall r :: 0 <= r < |rs| && Rank(rs[r].phase) < below ==> Covers(cs, r))
  }

  predicate Covers(cs: seq<Closing>, r: nat) {
    exists k :: 0 <= k < |cs| && cs[k].resource == r
  }

  /** Nothing is started before every member of the earlier phases has settled or used up its time. */
  predicate PhasesInOrder(rs: seq<Resource>, cs: seq<Closing>)
    requires forall k :: 0 <= k < |cs| ==> cs[k].resource < |rs|
  {
    forall k, l :: 0 <= k < |cs| && 0 <= l < |cs| ==>
      (Rank(rs[cs[k].resource].phase) < Rank(rs[cs[l].resource].phase) ==> cs[k].ended <= cs[l].started)
  }

  predicate ResourceClean(r: Resource) {
    SettleWithin(r.close, 0, RESOURCE_CLOSE_TIMEOUT_MS).outcome == Settled
  }

  predicate Timely(rs: seq<Resource>, cs: seq<Closing>, start: int, end: int)
    requires forall k :: 0 <= k < |cs| ==> cs[k].resource < |rs|
  {
    forall k :: 0 <= k < |cs| ==>
      && start <= cs[k].started <= cs[k].ended <= end
      && cs[k].ended == SettleWithin(rs[cs[k].resource].close, cs[k].started, RESOURCE_CLOSE_TIMEOUT_MS).at
      && cs[k].ended <= cs[k].started + RESOURCE_CLOSE_TIMEOUT_MS
      && (cs[k].clean <==> ResourceClean(rs[cs[k].resource]))
  }

  /** Some closing of a phase ranked below `rank` ended at `t`. */
  predicate Awaited(rs: seq<Resource>, cs: seq<Closing>, rank: nat, t: int)
    requires forall k :: 0 <= k < |cs| ==> cs[k].resource < |rs|
  {
    exists k :: 0 <= k < |cs| && Rank(rs[cs[k].resource].phase) < rank && cs[k].ended == t
  }

  /** Nothing waits for longer than it has to: each start, and the end, is the start of all or the end of something. */
  predicate Prompt(rs: seq<Resource>, cs: seq<Closing>, start: int, end: int)
    requires forall k :: 0 <= k < |cs| ==> cs[k].resource < |rs|
  {
    && (end == start || Awaited(rs, cs, 3, end))
    && forall l :: 0 <= l < |cs| ==>
         cs[l].started == start || Awaited(rs, cs, Rank(rs[cs[l].resource].phase), cs[l].started)
  }

  // ----- when things end -----

  /** The race ends with whichever comes first, the promise or the timer. */
  lemma RaceEndsFirst(w: Work, start: int, timeout: nat)
    ensures var d := SettleWithin(w, start, timeout);
      && d.at == start + (if w.Settles? && w.after < timeout then w.after else timeout)
      && (d.outcome == TimedOut <==> w.Never? || w.after > timeout || (w.after == timeout && !w.first))
      && (d.outcome == Settled ==> w.ok) && (d.outcome == Rejected ==> !w.ok)
  {
  }

  /**
   * When the drain of a worker is over: its pause, and after it the close, or a forced close if jobs were still running
   * at the deadline; nothing more if the pause itself failed.
   */
  function WorkerEnd(w: Worker, now: int, deadline: int): int {
    var grace := if deadline > now then deadline - now else 0;
    if w.pause.Never? || w.pause.after > grace || (w.pause.after == grace && !w.pause.first)
    then ClosedAt(w.forceClose, now + grace)
    else if w.pause.ok then ClosedAt(w.close, now + w.pause.after)
    else now + w.pause.after
  }

  /** When a close that is begun at `start` is over: when it settles, or after 3 s. */
  function ClosedAt(close: Work, start: int): int {
    start + if close.Settles? && close.after < 3_000 then close.after else 3_000
  }

  /** The latest of the workers' ends, and `now` if there are none. */
  function WorkersEnd(ws: seq<Worker>, now: int, deadline: int): int {
    if ws == [] then now
    else Max(WorkersEnd(ws[..|ws| - 1], now, deadline), WorkerEnd(ws[|ws| - 1], now, deadline))
  }

  lemma {:induction false} WorkersEndIsLatest(ws: seq<Worker>, now: int, deadline: int)
    ensures forall i :: 0 <= i < |ws| ==> WorkerEnd(ws[i], now, deadline) <= WorkersEnd(ws, now, deadline)
    ensures WorkersEnd(ws, now, deadline) == now ||
      exists i :: 0 <= i < |ws| && WorkerEnd(ws[i], now, deadline) == WorkersEnd(ws, now, deadline)
  {
    if ws == [] {
    } else {
      var n := |ws| - 1;
      WorkersEndIsLatest(ws[..n], now, deadline);
      forall i | 0 <= i < |ws| ensures WorkerEnd(ws[i], now, deadline) <= WorkersEnd(ws, now, deadline) {
        if i < n { assert ws[..n][i] == ws[i]; }
      }
      if WorkersEnd(ws, now, deadline) != now && WorkersEnd(ws, now, deadline) == WorkersEnd(ws[..n], now, deadline) {
        var i :| 0 <= i < n && WorkerEnd(ws[..n][i], now, deadline) == WorkersEnd(ws, now, deadline);
        assert ws[..n][i] == ws[i];
      }
    }
  }

  /** When `app.close()` is over, or given up. */
  function AppEnd(app: Option<App>, now: int): int {
    if app.None? then now
    else now + if app.value.close.Settles? && app.value.close.after < 15_000 then app.value.close.after else 15_000
  }

  /** When the resource phases start: when a hook reaches the coordinator in time, else after the hooks. */
  function PhasesStart(app: Option<App>, now: int): int {
    if app.Some? && app.value.hookAfter.Some? && now + app.value.hookAfter.value <= AppEnd(app, now)
    then now + app.value.hookAfter.value else AppEnd(app, now)
  }

  // ----- what is promised of a clean run -----

  predicate HttpClean(http: Http, grace: nat) {
    http.NotListening? || (http.Listening? && SettleWithin(http.closed, 0, grace).outcome != TimedOut)
  }

  predicate WorkerClean(w: Worker, now: int, deadline: int) {
    SettleBy(w.pause, now, deadline).outcome == Settled
    && SettleWithin(w.close, 0, RESOURCE_CLOSE_TIMEOUT_MS).outcome == Settled
  }

  predicate WorkersClean(ws: seq<Worker>, now: int, deadline: int) {
    forall i :: 0 <= i < |ws| ==> WorkerClean(ws[i], now, deadline)
  }

  predicate AllClean(rs: seq<Resource>) {
    forall r :: 0 <= r < |rs| ==> ResourceClean(rs[r])
  }

  predicate AppClean(app: Option<App>) {
    app.Some? ==> SettleWithin(app.value.close, 0, APP_CLOSE_TIMEOUT_MS).outcome == Settled
  }

  lemma ShiftSettle(w: Work, a: int, b: int, timeout: nat)
    ensures SettleWithin(w, a, timeout).outcome == SettleWithin(w, b, timeout).outcome
    ensures a <= SettleWithin(w, a, timeout).at <= a + timeout
  {
  }

  function Max(a: int, b: int): int {
    if a > b then a else b
  }

  datatype PhaseRun = PhaseRun(start: int, end: int, closings: seq<Closing>)

  class ShutdownCoordinator {
    const gracePeriodMs: nat
    var resources: seq<Resource>
    var workers: seq<Worker>
    var app: Option<App>
    var http: Http
    var shuttingDown: bool
    /** The memoised results of `shutdown` and of the resource phases. */
    var shutdownResult: Option<(int, int)>
    var phaseRun: Option<PhaseRun>

    constructor (gracePeriodMs: nat, app: Option<App>, http: Http)
      ensures this.gracePeriodMs == gracePeriodMs && this.app == app && this.http == http
      ensures resources == [] && workers == [] && !shuttingDown && shutdownResult.None? && phaseRun.None?
    {
      this.gracePeriodMs := gracePeriodMs;
      this.app, this.http := app, http;
      resources, workers, shuttingDown, shutdownResult, phaseRun := [], [], false, None, None;
    }

    /** What the finished phase run did. */
    ghost predicate PhasesDone(run: PhaseRun)
      reads this
    {
      && ClosedOnce(resources, run.closings, 3)
      && PhasesInOrder(resources, run.closings)
      && Timely(resources, run.closings, run.start, run.end)
      && Prompt(resources, run.closings, run.start, run.end)
      && run.start <= run.end <= run.start + 3 * RESOURCE_CLOSE_TIMEOUT_MS
    }

    ghost predicate Valid()
      reads this
    {
      phaseRun.Some? ==> PhasesDone(phaseRun.value)
    }

    /** `register`: too late once the resources are closing. */
    method Register(resource: Resource)
      requires Valid()
      modifies this`resources
      ensures Valid()
      ensures resources == if phaseRun.Some? then old(resources) else old(resources) + [resource]
    {
      if phaseRun.Some? {
        return;
      }
      resources := resources + [resource];
    }

    /** The members of one phase are closed together and awaited together. */
    method ClosePhase(phase: Phase, start: int) returns (end: int, cs: seq<Closing>)
      ensures PhaseClosed(resources, cs, phase, |resources|, start, end)
    {
      end, cs := start, [];
      for i := 0 to |resources|
        invariant PhaseClosed(resources, cs, phase, i, start, end)
      {
        if resources[i].phase != phase {
          PhaseSkips(resources, cs, phase, i, start, end);
        } else {
          PhaseOneMore(resources, cs, phase, i, start, end);
          var d := SettleWithin(resources[i].close, start, RESOURCE_CLOSE_TIMEOUT_MS);
          cs := cs + [Closing(i, start, d.at, d.outcome == Settled)];
          end := Max(end, d.at);
        }
      }
    }

    /** `closeResourcePhases`: queues, then redis, then the database. */
    method CloseResourcePhases(start: int) returns (run: PhaseRun)
      ensures PhasesDone(run) && run.start == start
    {
      var end, cs := start, [];
      var phases := [Queues, Redis, Database];
      for p := 0 to 3
        invariant start <= end <= start + p * RESOURCE_CLOSE_TIMEOUT_MS
        invariant ClosedOnce(resources, cs, p)
        invariant PhasesInOrder(resources, cs) && Timely(resources, cs, start, end) && Prompt(resources, cs, start, end)
      {
        assert Rank(phases[p]) == p;
        var next, part := ClosePhase(phases[p], end);
        JoinPrompt(resources, cs, part, phases[p], start, end, next);
        JoinPhases(resources, cs, part, phases[p], start, end, next);
        cs := cs + part;
        end := next;
      }
      run := PhaseRun(start, end, cs);
    }

    /** `closeResources`: runs the phases once; later callers share that run. */
    method CloseResources(now: int) returns (run: PhaseRun)
      requires Valid()
      modifies this`phaseRun
      ensures Valid() && phaseRun == Some(run)
      ensures old(phaseRun).Some? ==> phaseRun == old(phaseRun)
      ensures old(phaseRun).None? ==> run.start == now
    {
      if phaseRun.None? {
        var first := CloseResourcePhases(now);
        phaseRun := Some(first);
      }
      return phaseRun.value;
    }

    /** `drainHttp`; when stopping the server throws, nothing is returned. */
    method DrainHttp(now: int, deadline: int) returns (done: Option<int>, failures: seq<Failure>)
      requires deadline == now + gracePeriodMs
      ensures http.Broken? <==> done.None?
      ensures done.Some? ==> done.value == HttpDone(http, now, gracePeriodMs) && now <= done.value <= deadline
      ensures done.Some? ==> (failures == [] <==> HttpClean(http, gracePeriodMs))
      ensures done.None? ==> failures == []
    {
      if http.NotListening? {
        return Some(now), [];
      }
      if http.Broken? {
        return None, [];
      }
      var d := SettleBy(http.closed, now, deadline);
      ShiftSettle(http.closed, now, 0, gracePeriodMs);
      if d.outcome == TimedOut {
        return Some(d.at), [HttpExpired];
      }
      return Some(d.at), [];
    }

    /** `drainWorkers`: pause by the deadline, then close, by force if jobs are still running. */
    method DrainWorkers(now: int, deadline: int) returns (done: int, failures: seq<Failure>)
      requires now <= deadline
      ensures now <= done <= deadline + RESOURCE_CLOSE_TIMEOUT_MS
      ensures done == WorkersEnd(workers, now, deadline)
      ensures failures == [] <==> WorkersClean(workers, now, deadline)
    {
      done, failures := now, [];
      for i := 0 to |workers|
        invariant now <= done <= deadline + RESOURCE_CLOSE_TIMEOUT_MS
        invariant done == WorkersEnd(workers[..i], now, deadline)
        invariant failures == [] <==> forall j :: 0 <= j < i ==> WorkerClean(workers[j], now, deadline)
      {
        var w := workers[i];
        var paused := SettleBy(w.pause, now, deadline);
        var ended, clean := paused.at, false;
        if paused.outcome == TimedOut {
          var forced := SettleWithin(w.forceClose, paused.at, RESOURCE_CLOSE_TIMEOUT_MS);
          ended := forced.at;
        } else if paused.outcome == Settled {
          var closed := SettleWithin(w.close, paused.at, RESOURCE_CLOSE_TIMEOUT_MS);
          ShiftSettle(w.close, paused.at, 0, RESOURCE_CLOSE_TIMEOUT_MS);
          ended, clean := closed.at, closed.outcome == Settled;
        }
        if !clean {
          failures := failures + [WorkerFailed(i)];
        }
        done := Max(done, ended);
        assert workers[..i + 1][..i] == workers[..i];
      }
      assert workers[..|workers|] == workers;
    }

    /** `app.close()` with its time limit; on the way the hooks may reach the coordinator. */
    method CloseHooks(now: int) returns (done: int, failures: seq<Failure>)
      requires Valid() && phaseRun.None?
      modifies this`phaseRun
      ensures Valid() && now <= done <= now + APP_CLOSE_TIMEOUT_MS && done == AppEnd(app, now)
      ensures if phaseRun.Some? then now <= phaseRun.value.start == PhasesStart(app, now) <= done else PhasesStart(app, now) == done
      ensures failures == [] <==> AppClean(app)
    {
      if app.None? {
        return now, [];
      }
      var d := SettleWithin(app.value.close, now, APP_CLOSE_TIMEOUT_MS);
      ShiftSettle(app.value.close, now, 0, APP_CLOSE_TIMEOUT_MS);
      if app.value.hookAfter.Some? && now + app.value.hookAfter.value <= d.at {
        var early := CloseResources(now + app.value.hookAfter.value);
      }
      return d.at, if d.outcome != Settled then [AppFailed] else [];
    }

    method ResourceFailures(run: PhaseRun) returns (failures: seq<Failure>)
      requires PhasesDone(run)
      ensures failures == [] <==> AllClean(resources)
    {
      failures := FailuresOf(run.closings);
      AllCleanIff(resources, run.closings, run.start, run.end);
    }

    method FailuresOf(closings: seq<Closing>) returns (failures: seq<Failure>)
      ensures failures == [] <==> forall k :: 0 <= k < |closings| ==> closings[k].clean
    {
      failures := [];
      for i := 0 to |closings|
        invariant failures == [] <==> forall k :: 0 <= k < i ==> closings[k].clean
      {
        if !closings[i].clean {
          failures := failures + [ResourceFailed(closings[i].resource)];
        }
      }
    }

    /** `closeApplication`: the hooks, and the resource phases whether the hooks reached them or not. */
    method CloseApplication(now: int) returns (done: int, failures: seq<Failure>)
      requires Valid() && phaseRun.None?
      modifies this`phaseRun
      ensures Valid() && phaseRun.Some? && now <= phaseRun.value.start == PhasesStart(app, now)
      ensures done == Max(AppEnd(app, now), phaseRun.value.end)
      ensures now <= done <= now + APP_CLOSE_TIMEOUT_MS + 3 * RESOURCE_CLOSE_TIMEOUT_MS
      ensures phaseRun.value.end <= done
      ensures failures == [] <==> AppClean(app) && AllClean(resources)
    {
      done, failures := CloseHooks(now);
      var run := CloseResources(done);
      done := Max(done, run.end);
      var more := ResourceFailures(run);
      failures := failures + more;
    }

    /**
     * `run`: HTTP, workers, application, one after the other. It returns in bounded time whatever the others
     * do, and 0 exactly after a clean drain. Nothing is closed before the server and every worker are done. If
     * stopping the server throws, nothing else is shut down.
     */
    method Run(now: int) returns (code: int, done: int)
      requires Valid() && phaseRun.None?
      modifies this
      ensures Valid() && shuttingDown && resources == old(resources) && shutdownResult == old(shutdownResult)
      ensures !old(http).Broken? ==>
        var drained := HttpDone(old(http), now, gracePeriodMs);
        var idle := WorkersEnd(old(workers), drained, now + gracePeriodMs);
        && phaseRun.Some? && phaseRun.value.start == PhasesStart(old(app), idle)
        && drained <= idle <= phaseRun.value.start
        && (forall i :: 0 <= i < |old(workers)| ==>
              WorkerEnd(old(workers)[i], drained, now + gracePeriodMs) <= phaseRun.value.start)
        && done == Max(AppEnd(old(app), idle), phaseRun.value.end)
        && now <= done <= now + gracePeriodMs + RESOURCE_CLOSE_TIMEOUT_MS + APP_CLOSE_TIMEOUT_MS + 3 * RESOURCE_CLOSE_TIMEOUT_MS
      ensures old(http).Broken? ==> code == 1 && done == now && phaseRun.None?
      ensures code == 0 || code == 1
      ensures code == 0 <==> CleanShutdown(old(http), old(workers), old(app), old(resources), gracePeriodMs, now)
    {
      shuttingDown := true;
      var deadline := now + gracePeriodMs;
      var drained, failures := DrainHttp(now, deadline);
      if drained.None? {
        return 1, now;
      }
      var t, more := DrainWorkers(drained.value, deadline);
      WorkersEndIsLatest(workers, drained.value, deadline);
      failures := failures + more;
      done, more := CloseApplication(t);
      failures := failures + more;
      assert failures == [] <==> |failures| == 0;
      code := if |failures| > 0 then 1 else 0;
    }

    /** `shutdown`: the first call runs the sequence, every other call shares its result. */
    method ShutDown(now: int) returns (code: int, done: int)
      requires Valid() && (shutdownResult.None? ==> phaseRun.None?)
      modifies this
      ensures Valid() && shutdownResult == Some((code, done))
      ensures old(shutdownResult).None? && !old(http).Broken? ==>
        && phaseRun.Some? && phaseRun.value.end <= done && resources == old(resources)
        && WorkersEnd(old(workers), HttpDone(old(http), now, gracePeriodMs), now + gracePeriodMs) <= phaseRun.value.start
        && now <= done <= now + gracePeriodMs + RESOURCE_CLOSE_TIMEOUT_MS + APP_CLOSE_TIMEOUT_MS + 3 * RESOURCE_CLOSE_TIMEOUT_MS
      ensures old(shutdownResult).None? && old(http).Broken? ==> code == 1 && done == now && phaseRun.None?
      ensures old(shutdownResult).None? ==>
        && (code == 0 || code == 1)
        && (code == 0 <==> CleanShutdown(old(http), old(workers), old(app), old(resources), gracePeriodMs, now))
      ensures old(shutdownResult).Some? ==>
        shutdownResult == old(shutdownResult) && phaseRun == old(phaseRun) && resources == old(resources)
    {
      if shutdownResult.None? {
        code, done := Run(now);
        shutdownResult := Some((code, done));
      }
      return shutdownResult.value.0, shutdownResult.value.1;
    }
  }

  /** A shutdown that starts at `now` and in which nothing fails or times out. */
  predicate CleanShutdown(http: Http, workers: seq<Worker>, app: Option<App>, resources: seq<Resource>, grace: nat, now: int) {
    && HttpClean(http, grace)
    && WorkersClean(workers, HttpDone(http, now, grace), now + grace)
    && AppClean(app)
    && AllClean(resources)
  }

  /** When the HTTP drain is over. */
  function HttpDone(http: Http, now: int, grace: nat): int {
    if http.Listening? then SettleWithin(http.closed, now, grace).at else now
  }

  /** Of the first `n` resources, exactly the members of the phase have been closed, each once. */
  predicate MembersClosed(rs: seq<Resource>, cs: seq<Closing>, phase: Phase, n: nat)
    requires n <= |rs|
  {
    && (forall k :: 0 <= k < |cs| ==> cs[k].resource < n && rs[cs[k].resource].phase == phase)
    && (forall k, l :: 0 <= k < l < |cs| ==> cs[k].resource != cs[l].resource)
    && (forall r :: 0 <= r < n && rs[r].phase == phase ==> Covers(cs, r))
  }

  lemma CloseOneMore(rs: seq<Resource>, cs: seq<Closing>, phase: Phase, n: nat, c: Closing)
    requires n < |rs| && MembersClosed(rs, cs, phase, n) && rs[n].phase == phase && c.resource == n
    ensures MembersClosed(rs, cs + [c], phase, n + 1)
  {
    CoversMore(cs, cs + [c]);
    assert (cs + [c])[|cs|].resource == n;
  }

  lemma CoversMore(cs: seq<Closing>, more: seq<Closing>)
    requires cs <= more
    ensures forall r :: Covers(cs, r) ==> Covers(more, r)
  {
    forall r | Covers(cs, r) ensures Covers(more, r) {
      var k :| 0 <= k < |cs| && cs[k].resource == r;
      assert more[k].resource == r;
    }
  }

  /** Adding the next phase: it starts where the earlier ones ended. */
  lemma JoinPhases(rs: seq<Resource>, cs: seq<Closing>, part: seq<Closing>, phase: Phase, start: int, end: int, next: int)
    requires ClosedOnce(rs, cs, Rank(phase)) && PhasesInOrder(rs, cs) && Timely(rs, cs, start, end) && start <= end
    requires PhaseClosed(rs, part, phase, |rs|, end, next)
    ensures ClosedOnce(rs, cs + part, Rank(phase) + 1) && PhasesInOrder(rs, cs + part) && Timely(rs, cs + part, start, next)
  {
    JoinCovers(rs, cs, part, phase);
    JoinTimely(rs, cs, part, start, end, next);
    JoinOrder(rs, cs, part, phase, start, end);
  }

  lemma JoinCovers(rs: seq<Resource>, cs: seq<Closing>, part: seq<Closing>, phase: Phase)
    requires ClosedOnce(rs, cs, Rank(phase)) && MembersClosed(rs, part, phase, |rs|)
    ensures ClosedOnce(rs, cs + part, Rank(phase) + 1)
  {
    var all, p := cs + part, Rank(phase);
    forall r | 0 <= r < |rs| && Rank(rs[r].phase) < p + 1 ensures Covers(all, r) {
      if Rank(rs[r].phase) < p {
        assert Covers(cs, r);
        CoversMore(cs, all);
      } else {
        SameRank(rs[r].phase, phase);
        assert Covers(part, r);
        var k :| 0 <= k < |part| && part[k].resource == r;
        assert all[|cs| + k].resource == r;
      }
    }
  }

  lemma JoinTimely(rs: seq<Resource>, cs: seq<Closing>, part: seq<Closing>, start: int, end: int, next: int)
    requires forall k :: 0 <= k < |cs| ==> cs[k].resource < |rs|
    requires forall k :: 0 <= k < |part| ==> part[k].resource < |rs|
    requires Timely(rs, cs, start, end) && Timely(rs, part, end, next) && start <= end <= next
    ensures Timely(rs, cs + part, start, next)
  {
  }

  lemma JoinOrder(rs: seq<Resource>, cs: seq<Closing>, part: seq<Closing>, phase: Phase, start: int, end: int)
    requires ClosedOnce(rs, cs, Rank(phase)) && PhasesInOrder(rs, cs) && Timely(rs, cs, start, end)
    requires forall k :: 0 <= k < |part| ==>
      part[k].resource < |rs| && rs[part[k].resource].phase == phase && part[k].started == end
    ensures PhasesInOrder(rs, cs + part)
  {
  }

  lemma SameRank(p: Phase, q: Phase)
    ensures Rank(p) == Rank(q) <==> p == q
  {
  }

  /** The members of a phase among the first `n` resources have been closed together at `start`. */
  predicate PhaseClosed(rs: seq<Resource>, cs: seq<Closing>, phase: Phase, n: nat, start: int, end: int) {
    && n <= |rs| && start <= end <= start + RESOURCE_CLOSE_TIMEOUT_MS
    && MembersClosed(rs, cs, phase, n) && Timely(rs, cs, start, end)
    && (forall k :: 0 <= k < |cs| ==> cs[k].started == start)
    && (end == start || exists k :: 0 <= k < |cs| && cs[k].ended == end)
  }

  lemma PhaseSkips(rs: seq<Resource>, cs: seq<Closing>, phase: Phase, n: nat, start: int, end: int)
    requires n < |rs| && PhaseClosed(rs, cs, phase, n, start, end) && rs[n].phase != phase
    ensures PhaseClosed(rs, cs, phase, n + 1, start, end)
  {
  }

  lemma PhaseOneMore(rs: seq<Resource>, cs: seq<Closing>, phase: Phase, n: nat, start: int, end: int)
    requires n < |rs| && PhaseClosed(rs, cs, phase, n, start, end) && rs[n].phase == phase
    ensures var d := SettleWithin(rs[n].close, start, RESOURCE_CLOSE_TIMEOUT_MS);
      PhaseClosed(rs, cs + [Closing(n, start, d.at, d.outcome == Settled)], phase, n + 1, start, Max(end, d.at))
  {
    var d := SettleWithin(rs[n].close, start, RESOURCE_CLOSE_TIMEOUT_MS);
    var c := Closing(n, start, d.at, d.outcome == Settled);
    ShiftSettle(rs[n].close, start, 0, RESOURCE_CLOSE_TIMEOUT_MS);
    CloseOneMore(rs, cs, phase, n, c);
    EndOneMore(cs, start, end, c);
    TimelyOneMore(rs, cs, start, end, c);
  }

  lemma TimelyOneMore(rs: seq<Resource>, cs: seq<Closing>, start: int, end: int, c: Closing)
    requires (forall k :: 0 <= k < |cs| ==> cs[k].resource < |rs|) && Timely(rs, cs, start, end)
    requires c.resource < |rs| && start == c.started <= c.ended
    requires var d := SettleWithin(rs[c.resource].close, start, RESOURCE_CLOSE_TIMEOUT_MS);
      c.ended == d.at <= start + RESOURCE_CLOSE_TIMEOUT_MS && (c.clean <==> ResourceClean(rs[c.resource]))
    ensures Timely(rs, cs + [c], start, Max(end, c.ended))
  {
  }

  lemma EndOneMore(cs: seq<Closing>, start: int, end: int, c: Closing)
    requires end == start || exists k :: 0 <= k < |cs| && cs[k].ended == end
    ensures var more, next := cs + [c], Max(end, c.ended); next == start || exists k :: 0 <= k < |more| && more[k].ended == next
  {
    var more := cs + [c];
    assert more[|cs|].ended == c.ended;
    if end != start {
      var k :| 0 <= k < |cs| && cs[k].ended == end;
      assert more[k].ended == end;
    }
  }

  lemma AwaitedMore(rs: seq<Resource>, cs: seq<Closing>, part: seq<Closing>, rank: nat, t: int)
    requires forall k :: 0 <= k < |cs| ==> cs[k].resource < |rs|
    requires forall k :: 0 <= k < |part| ==> part[k].resource < |rs|
    ensures Awaited(rs, cs, rank, t) ==> Awaited(rs, cs + part, rank, t)
  {
    if Awaited(rs, cs, rank, t) {
      var k :| 0 <= k < |cs| && Rank(rs[cs[k].resource].phase) < rank && cs[k].ended == t;
      assert (cs + part)[k] == cs[k];
    }
  }

  lemma JoinPrompt(rs: seq<Resource>, cs: seq<Closing>, part: seq<Closing>, phase: Phase, start: int, end: int, next: int)
    requires ClosedOnce(rs, cs, Rank(phase)) && Prompt(rs, cs, start, end) && PhaseClosed(rs, part, phase, |rs|, end, next)
    ensures Prompt(rs, cs + part, start, next)
  {
    var all := cs + part;
    AwaitedMore(rs, cs, part, 3, end);
    if next != end {
      var k :| 0 <= k < |part| && part[k].ended == next;
      assert all[|cs| + k] == part[k];
    }
    forall l | 0 <= l < |all|
      ensures all[l].started == start || Awaited(rs, all, Rank(rs[all[l].resource].phase), all[l].started)
    {
      if l < |cs| {
        AwaitedMore(rs, cs, part, Rank(rs[cs[l].resource].phase), cs[l].started);
      } else if end != start {
        var k :| 0 <= k < |cs| && Rank(rs[cs[k].resource].phase) < 3 && cs[k].ended == end;
        assert all[k] == cs[k];
      }
    }
  }

  lemma AllCleanIff(rs: seq<Resource>, cs: seq<Closing>, start: int, end: int)
    requires ClosedOnce(rs, cs, 3) && Timely(rs, cs, start, end)
    ensures (forall k :: 0 <= k < |cs| ==> cs[k].clean) <==> AllClean(rs)
  {
    if forall k :: 0 <= k < |cs| ==> cs[k].clean {
      forall r | 0 <= r < |rs| ensures ResourceClean(rs[r]) {
        assert Covers(cs, r);
        var k :| 0 <= k < |cs| && cs[k].resource == r;
      }
    }
  }
}
