/**
 * The circuit breaker, with `execute` split at its `await`: a call begins (or is refused), and settles at some
 * later time. Any number of calls may overlap, and a call may settle in a state other than the one it began in.
 */
module CircuitBreaker {
  import opened Wrappers

  datatype CircuitState = CLOSED | OPEN | HALF_OPEN

  datatype Options = Options(failureThreshold: int, resetTimeoutMs: int, halfOpenMaxAttempts: int)

  datatype Breaker = Breaker(state: CircuitState, failureCount: nat, openedAt: Option<int>, halfOpenAttempts: nat)

  datatype Decision = Started | FailFast(retryAfterMs: int)

  // ----- one operation -----

  function Transition(b: Breaker, state: CircuitState, now: int): Breaker {
    match state
    case OPEN => Breaker(OPEN, b.failureCount, Some(now), 0)
    case HALF_OPEN => b.(state := HALF_OPEN, halfOpenAttempts := 0)
    case CLOSED => Breaker(CLOSED, 0, None, 0)
  }

  function Elapsed(o: Options, b: Breaker, now: int): int {
    if b.openedAt.Some? then now - b.openedAt.value else o.resetTimeoutMs
  }

  function RetryAfter(o: Options, b: Breaker, now: int): int {
    if b.openedAt.None? then o.resetTimeoutMs
    else if o.resetTimeoutMs - (now - b.openedAt.value) > 0 then o.resetTimeoutMs - (now - b.openedAt.value)
    else 0
  }

  /** The part of `execute` before the operation is invoked. */
  function Begin(o: Options, b: Breaker, now: int): (Breaker, Decision) {
    if b.state == OPEN && Elapsed(o, b, now) < o.resetTimeoutMs then (b, FailFast(RetryAfter(o, b, now)))
    else
      var b1 := if b.state == OPEN then Transition(b, HALF_OPEN, now) else b;
      if b1.state == HALF_OPEN && b1.halfOpenAttempts >= o.halfOpenMaxAttempts then (b1, FailFast(RetryAfter(o, b1, now)))
      else if b1.state == HALF_OPEN then (b1.(halfOpenAttempts := b1.halfOpenAttempts + 1), Started)
      else (b1, Started)
  }

  function OnSuccess(b: Breaker, now: int): Breaker {
    if b.state == HALF_OPEN then Transition(b, CLOSED, now) else b.(failureCount := 0)
  }

  /** `onFailure` for an error that the classifier counts. */
  function OnCounted(o: Options, b: Breaker, now: int): Breaker {
    var b1 := b.(failureCount := b.failureCount + 1);
    if b.state == HALF_OPEN || (b.state == CLOSED && b1.failureCount >= o.failureThreshold)
    then Transition(b1, OPEN, now) else b1
  }

  // ----- runs -----

  datatype Event<E> =
    | Call(now: int)
    | Resolved(id: nat, now: int)
    | Rejected(id: nat, now: int, error: E)

  /**
   * The breaker with the calls in flight. `trials` are the calls begun since the circuit was last half-opened.
   */
  datatype World = World(breaker: Breaker, next: nat, inFlight: set<nat>, trials: set<nat>)

  const INITIAL := World(Breaker(CLOSED, 0, None, 0), 0, {}, {})

  predicate Possible<E>(w: World, e: Event<E>) {
    e.Call? || e.id in w.inFlight
  }

  function Exec<E>(o: Options, isFailure: E -> bool, w: World, e: Event<E>): World {
    match e
    case Call(now) =>
      var (b, d) := Begin(o, w.breaker, now);
      var earlier := if w.breaker.state == HALF_OPEN then w.trials else {};
      if d.FailFast? then World(b, w.next, w.inFlight, earlier)
      else World(b, w.next + 1, w.inFlight + {w.next}, if b.state == HALF_OPEN then earlier + {w.next} else {})
    case Resolved(id, now) => w.(breaker := OnSuccess(w.breaker, now), inFlight := w.inFlight - {id})
    case Rejected(id, now, error) =>
      w.(breaker := if isFailure(error) then OnCounted(o, w.breaker, now) else w.breaker,
         inFlight := w.inFlight - {id})
  }

  predicate Runs<E>(o: Options, isFailure: E -> bool, w: World, events: seq<Event<E>>)
    decreases |events|
  {
    events == [] || (Possible(w, events[0]) && Runs(o, isFailure, Exec(o, isFailure, w, events[0]), events[1..]))
  }

  function Final<E>(o: Options, isFailure: E -> bool, w: World, events: seq<Event<E>>): World
    decreases |events|
  {
    if events == [] then w else Final(o, isFailure, Exec(o, isFailure, w, events[0]), events[1..])
  }

  predicate Sensible(o: Options) {
    o.failureThreshold >= 1 && o.halfOpenMaxAttempts >= 1
  }

  // ----- the invariant of every interleaving -----

  /** Counted failures after the last success of the trace, starting the count at `sofar`. */
  function FailuresSinceSuccess<E>(isFailure: E -> bool, events: seq<Event<E>>, sofar: nat): nat
    decreases |events|
  {
    if events == [] then sofar
    else
      var e := events[0];
      FailuresSinceSuccess(isFailure, events[1..],
        if e.Resolved? then 0 else if e.Rejected? && isFailure(e.error) then sofar + 1 else sofar)
  }

  predicate Inv(o: Options, w: World) {
    var b := w.breaker;
    && (b.state == CLOSED <==> b.openedAt.None?)
    && (b.state == CLOSED ==> b.failureCount < o.failureThreshold && b.halfOpenAttempts == 0)
    && (b.state == OPEN ==> b.halfOpenAttempts == 0)
    && (b.state == HALF_OPEN ==> 1 <= b.halfOpenAttempts <= o.halfOpenMaxAttempts && |w.trials| == b.halfOpenAttempts)
    && (forall id :: id in w.inFlight ==> id < w.next)
    && (forall id :: id in w.trials ==> id < w.next)
  }

  lemma StepKeepsInv<E>(o: Options, isFailure: E -> bool, w: World, e: Event<E>)
    requires Sensible(o) && Inv(o, w) && Possible(w, e)
    ensures Inv(o, Exec(o, isFailure, w, e))
  {
    if e.Call? {
      var (b, d) := Begin(o, w.breaker, e.now);
      var earlier := if w.breaker.state == HALF_OPEN then w.trials else {};
      assert |earlier + {w.next}| == |earlier| + 1;
    }
  }

  /**
   * Over every interleaving: CLOSED holds exactly when `openedAt` is null; the failure count is the number of
   * counted failures since the last success and stays below the threshold while CLOSED; and HALF_OPEN admits
   * between one and the maximum number of trials.
   */
  lemma BreakerInvariant<E>(o: Options, isFailure: E -> bool, w: World, events: seq<Event<E>>)
    requires Sensible(o) && Inv(o, w) && Runs(o, isFailure, w, events)
    ensures Inv(o, Final(o, isFailure, w, events))
    ensures Final(o, isFailure, w, events).breaker.failureCount ==
      FailuresSinceSuccess(isFailure, events, w.breaker.failureCount)
  {
    RunKeepsInv(o, isFailure, w, events);
    RunCounts(o, isFailure, w, events);
  }

  lemma {:induction false} RunKeepsInv<E>(o: Options, isFailure: E -> bool, w: World, events: seq<Event<E>>)
    requires Sensible(o) && Inv(o, w) && Runs(o, isFailure, w, events)
    ensures Inv(o, Final(o, isFailure, w, events))
    decreases |events|
  {
    if events == [] {
    } else {
      StepKeepsInv(o, isFailure, w, events[0]);
      RunKeepsInv(o, isFailure, Exec(o, isFailure, w, events[0]), events[1..]);
    }
  }

  lemma StepCounts<E>(o: Options, isFailure: E -> bool, w: World, e: Event<E>)
    ensures Exec(o, isFailure, w, e).breaker.failureCount ==
      if e.Resolved? then 0
      else if e.Rejected? && isFailure(e.error) then w.breaker.failureCount + 1 else w.breaker.failureCount
  {
  }

  lemma {:induction false} RunCounts<E>(o: Options, isFailure: E -> bool, w: World, events: seq<Event<E>>)
    ensures Final(o, isFailure, w, events).breaker.failureCount ==
      FailuresSinceSuccess(isFailure, events, w.breaker.failureCount)
    decreases |events|
  {
    if events == [] {
    } else {
      StepCounts(o, isFailure, w, events[0]);
      RunCounts(o, isFailure, Exec(o, isFailure, w, events[0]), events[1..]);
    }
  }

  /** From CLOSED the circuit opens exactly on the counted failure that completes the threshold. */
  lemma OpensAtThreshold<E>(o: Options, isFailure: E -> bool, w: World, e: Event<E>)
    requires Sensible(o) && Inv(o, w) && Possible(w, e) && w.breaker.state == CLOSED
    ensures var b := Exec(o, isFailure, w, e).breaker;
      (b.state == OPEN <==>
         e.Rejected? && isFailure(e.error) && w.breaker.failureCount + 1 == o.failureThreshold)
      && (b.state == OPEN || b.state == CLOSED)
  {
  }

  // ----- recovery -----

  /** The state diagram: what moves the circuit out of each state, and when a call is let through. */
  lemma StateDiagram<E>(o: Options, isFailure: E -> bool, w: World, e: Event<E>)
    requires Sensible(o) && Inv(o, w) && Possible(w, e)
    ensures var b, b' := w.breaker, Exec(o, isFailure, w, e).breaker;
      && (b.state == OPEN ==>
            if e.Call? && e.now - b.openedAt.value >= o.resetTimeoutMs
            then b'.state == HALF_OPEN && b'.openedAt == b.openedAt && b'.halfOpenAttempts == 1
            else b'.state == OPEN && b'.openedAt == b.openedAt)
      && (b.state == HALF_OPEN ==>
            && (b'.state == CLOSED <==> e.Resolved?)
            && (b'.state == OPEN <==> e.Rejected? && isFailure(e.error))
            && (b'.state == OPEN ==> b'.openedAt == Some(e.now))
            && (b'.state == HALF_OPEN ==> b'.openedAt == b.openedAt))
      && (b'.state == CLOSED && b.state != CLOSED ==> b' == INITIAL.breaker)
      && (b.state == CLOSED && b'.state == OPEN ==> b'.openedAt == Some(e.now))
  {
  }

  /** Exactly when a call starts. */
  lemma CallStartsIff(o: Options, w: World, now: int)
    requires Sensible(o) && Inv(o, w)
    ensures Begin(o, w.breaker, now).1.Started? <==>
      match w.breaker.state
      case CLOSED => true
      case OPEN => now >= w.breaker.openedAt.value + o.resetTimeoutMs
      case HALF_OPEN => |w.trials| < o.halfOpenMaxAttempts
  {
  }

  predicate AllCalls<E>(events: seq<Event<E>>) {
    forall i :: 0 <= i < |events| ==> events[i].Call?
  }

  /** Further calls alone leave a half-open circuit half-open. */
  lemma {:induction false} CallsKeepHalfOpen<E>(o: Options, isFailure: E -> bool, w: World, calls: seq<Event<E>>)
    requires Sensible(o) && Inv(o, w) && w.breaker.state == HALF_OPEN && AllCalls(calls)
    ensures var v := Final(o, isFailure, w, calls);
      Runs(o, isFailure, w, calls) && Inv(o, v) && v.breaker.state == HALF_OPEN && w.inFlight <= v.inFlight
    decreases |calls|
  {
    if calls == [] {
    } else {
      assert calls[0].Call?;
      StepKeepsInv(o, isFailure, w, calls[0]);
      CallsKeepHalfOpen(o, isFailure, Exec(o, isFailure, w, calls[0]), calls[1..]);
    }
  }

  /**
   * Recovery: from every reachable OPEN state, a call from the reset timeout on is let through as a trial; however
   * many calls crowd in behind it, the first settlement closes the circuit if it is a success, as if nothing had
   * happened, and the next call starts.
   */
  lemma Recovers<E>(
    o: Options, isFailure: E -> bool, past: seq<Event<E>>, at: int, crowd: seq<Event<E>>, id: nat, end: int, next: int)
    requires Sensible(o) && Runs(o, isFailure, INITIAL, past) && AllCalls(crowd)
    requires var w := Final(o, isFailure, INITIAL, past);
      && w.breaker.state == OPEN
      && (w.breaker.openedAt.Some? ==> at >= w.breaker.openedAt.value + o.resetTimeoutMs)
      && id in Final(o, isFailure, Exec(o, isFailure, w, Event<E>.Call(at)), crowd).inFlight
    ensures var w := Final(o, isFailure, INITIAL, past);
      var trial := Exec(o, isFailure, w, Event<E>.Call(at));
      var busy := Final(o, isFailure, trial, crowd);
      var after := Exec(o, isFailure, busy, Event<E>.Resolved(id, end));
      && Begin(o, w.breaker, at).1 == Started && w.next in busy.inFlight
      && after.breaker == INITIAL.breaker
      && Begin(o, after.breaker, next).1 == Started
  {
    var w := Final(o, isFailure, INITIAL, past);
    BreakerInvariant(o, isFailure, INITIAL, past);
    var trial := Exec(o, isFailure, w, Event<E>.Call(at));
    StepKeepsInv(o, isFailure, w, Event<E>.Call(at));
    CallsKeepHalfOpen(o, isFailure, trial, crowd);
  }

  /** A trial that fails with a counted error reopens the circuit from that instant: the timeout starts anew. */
  lemma FailedTrialReopens<E>(o: Options, isFailure: E -> bool, w: World, id: nat, now: int, error: E, t: int)
    requires Sensible(o) && Inv(o, w) && w.breaker.state == HALF_OPEN && id in w.inFlight && isFailure(error)
    ensures var b := Exec(o, isFailure, w, Rejected(id, now, error)).breaker;
      b.state == OPEN && (Begin(o, b, t).1.Started? <==> t >= now + o.resetTimeoutMs)
  {
  }

  /** Calls that settle late, while the circuit is open, neither close it nor prolong the timeout. */
  lemma {:induction false} LateSettlementsChangeNothing<E>(o: Options, isFailure: E -> bool, w: World, events: seq<Event<E>>)
    requires Sensible(o) && Inv(o, w) && w.breaker.state == OPEN && Runs(o, isFailure, w, events)
    requires forall i :: 0 <= i < |events| ==> !events[i].Call?
    ensures var b := Final(o, isFailure, w, events).breaker; b.state == OPEN && b.openedAt == w.breaker.openedAt
    decreases |events|
  {
    if events == [] {
    } else {
      assert !events[0].Call?;
      StepKeepsInv(o, isFailure, w, events[0]);
      LateSettlementsChangeNothing(o, isFailure, Exec(o, isFailure, w, events[0]), events[1..]);
    }
  }

  // ----- can the breaker get stuck? -----

  /** No call can begin, and none is in flight that could change that. */
  predicate Stuck(o: Options, w: World) {
    w.breaker.state == HALF_OPEN && w.breaker.halfOpenAttempts >= o.halfOpenMaxAttempts && w.inFlight == {}
  }

  /** A stuck breaker refuses every call for ever. */
  lemma {:induction false} StuckForever<E>(o: Options, isFailure: E -> bool, w: World, events: seq<Event<E>>)
    requires Stuck(o, w) && Runs(o, isFailure, w, events)
    ensures Final(o, isFailure, w, events) == w
    ensures forall i :: 0 <= i < |events| ==>
      events[i].Call? && Begin(o, w.breaker, events[i].now).1.FailFast?
    decreases |events|
  {
    if events == [] {
    } else {
      assert Exec(o, isFailure, w, events[0]) == w;
      StuckForever(o, isFailure, w, events[1..]);
    }
  }

  predicate TrialsInFlight(w: World) {
    w.breaker.state == HALF_OPEN ==> w.trials <= w.inFlight
  }

  /** When every error counts, the first settlement in HALF_OPEN decides, so all its trials are still in flight. */
  lemma {:induction false} TrialsStayInFlight<E>(o: Options, isFailure: E -> bool, w: World, events: seq<Event<E>>)
    requires forall e :: isFailure(e)
    requires Sensible(o) && Inv(o, w) && TrialsInFlight(w) && Runs(o, isFailure, w, events)
    ensures TrialsInFlight(Final(o, isFailure, w, events)) && !Stuck(o, Final(o, isFailure, w, events))
    decreases |events|
  {
    if events == [] {
    } else {
      StepKeepsInv(o, isFailure, w, events[0]);
      TrialsStayInFlight(o, isFailure, Exec(o, isFailure, w, events[0]), events[1..]);
    }
  }

  /** Without a counted error the circuit never leaves CLOSED. */
  lemma {:induction false} NothingCountedStaysClosed<E>(o: Options, isFailure: E -> bool, w: World, events: seq<Event<E>>)
    requires forall e :: !isFailure(e)
    requires w.breaker.state == CLOSED && Runs(o, isFailure, w, events)
    ensures Final(o, isFailure, w, events).breaker.state == CLOSED
    decreases |events|
  {
    if events == [] {
    } else {
      NothingCountedStaysClosed(o, isFailure, Exec(o, isFailure, w, events[0]), events[1..]);
    }
  }

  lemma {:induction false} RunConcat<E>(o: Options, isFailure: E -> bool, w: World, a: seq<Event<E>>, b: seq<Event<E>>)
    requires Runs(o, isFailure, w, a) && Runs(o, isFailure, Final(o, isFailure, w, a), b)
    ensures Runs(o, isFailure, w, a + b)
    ensures Final(o, isFailure, w, a + b) == Final(o, isFailure, Final(o, isFailure, w, a), b)
    decreases |a|
  {
    if a == [] {
      assert a + b == b;
    } else {
      assert (a + b)[1..] == a[1..] + b;
      RunConcat(o, isFailure, Exec(o, isFailure, w, a[0]), a[1..], b);
    }
  }

  lemma TwoEvents<E>(o: Options, isFailure: E -> bool, w: World, e: Event<E>, f: Event<E>)
    requires Possible(w, e) && Possible(Exec(o, isFailure, w, e), f)
    ensures Runs(o, isFailure, w, [e, f])
    ensures Final(o, isFailure, w, [e, f]) == Exec(o, isFailure, Exec(o, isFailure, w, e), f)
  {
    var v := Exec(o, isFailure, w, e);
    assert [e, f][1..] == [f] && [f][1..] == [];
    assert Runs(o, isFailure, v, [f]) && Final(o, isFailure, v, [f]) == Exec(o, isFailure, v, f);
  }

  /** Calls that fail one after the other with a counted error open the circuit. */
  lemma {:induction false} TripOpen<E>(o: Options, isFailure: E -> bool, counted: E, w: World) returns (events: seq<Event<E>>)
    requires Sensible(o) && isFailure(counted)
    requires w.breaker.state == CLOSED && w.breaker.failureCount < o.failureThreshold && w.inFlight == {}
    ensures Runs(o, isFailure, w, events)
    ensures var v := Final(o, isFailure, w, events);
      v.breaker.state == OPEN && v.breaker.openedAt == Some(0) && v.inFlight == {} && v.breaker.halfOpenAttempts == 0
    decreases o.failureThreshold - w.breaker.failureCount
  {
    var pair := [Call(0), Rejected(w.next, 0, counted)];
    var v := Exec(o, isFailure, w, pair[0]);
    var u := Exec(o, isFailure, v, pair[1]);
    assert v.inFlight == {w.next} && u.inFlight == {};
    TwoEvents(o, isFailure, w, pair[0], pair[1]);
    if u.breaker.state == OPEN {
      events := pair;
    } else {
      var more := TripOpen(o, isFailure, counted, u);
      RunConcat(o, isFailure, w, pair, more);
      events := pair + more;
    }
  }

  /** Trials that all end in an uncounted error use up the slots. */
  lemma {:induction false} UseUpSlots<E>(o: Options, isFailure: E -> bool, uncounted: E, now: int, w: World)
    returns (events: seq<Event<E>>)
    requires !isFailure(uncounted) && w.inFlight == {}
    requires w.breaker.state == HALF_OPEN || (w.breaker.state == OPEN && Elapsed(o, w.breaker, now) >= o.resetTimeoutMs)
    requires w.breaker.state == OPEN ==> w.breaker.halfOpenAttempts == 0
    requires w.breaker.halfOpenAttempts < o.halfOpenMaxAttempts
    ensures Runs(o, isFailure, w, events) && Stuck(o, Final(o, isFailure, w, events))
    decreases o.halfOpenMaxAttempts - w.breaker.halfOpenAttempts
  {
    var pair := [Call(now), Rejected(w.next, now, uncounted)];
    var v := Exec(o, isFailure, w, pair[0]);
    var u := Exec(o, isFailure, v, pair[1]);
    assert v.inFlight == {w.next} && u.inFlight == {};
    TwoEvents(o, isFailure, w, pair[0], pair[1]);
    if u.breaker.halfOpenAttempts >= o.halfOpenMaxAttempts {
      events := pair;
    } else {
      var more := UseUpSlots(o, isFailure, uncounted, now, u);
      RunConcat(o, isFailure, w, pair, more);
      events := pair + more;
    }
  }

  ghost predicate CanGetStuck<E(!new)>(o: Options, isFailure: E -> bool) {
    exists events :: Runs(o, isFailure, INITIAL, events) && Stuck(o, Final(o, isFailure, INITIAL, events))
  }

  /**
   * Exactly which classifiers are safe: the breaker can get stuck for ever if and only if the classifier counts
   * some error and lets some other error pass.
   */
  lemma StuckIffClassifierSplits<E(!new)>(o: Options, isFailure: E -> bool)
    requires Sensible(o)
    ensures CanGetStuck(o, isFailure) <==> (exists e :: isFailure(e)) && (exists e :: !isFailure(e))
  {
    if (exists e :: isFailure(e)) && (exists e :: !isFailure(e)) {
      var counted :| isFailure(counted);
      var uncounted :| !isFailure(uncounted);
      var trip := TripOpen(o, isFailure, counted, INITIAL);
      var v := Final(o, isFailure, INITIAL, trip);
      var now := if o.resetTimeoutMs > 0 then o.resetTimeoutMs else 0;
      var rest := UseUpSlots(o, isFailure, uncounted, now, v);
      RunConcat(o, isFailure, INITIAL, trip, rest);
      assert Stuck(o, Final(o, isFailure, INITIAL, trip + rest));
    }
    forall events | Runs(o, isFailure, INITIAL, events) && Stuck(o, Final(o, isFailure, INITIAL, events))
      ensures (exists e :: isFailure(e)) && (exists e :: !isFailure(e))
    {
      if forall e :: isFailure(e) {
        TrialsStayInFlight(o, isFailure, INITIAL, events);
      }
      if forall e :: !isFailure(e) {
        NothingCountedStaysClosed(o, isFailure, INITIAL, events);
      }
    }
  }

  // ----- how fast an unhealthy dependency is probed -----

  /** The circuit stays away from CLOSED during the run, and time does not run back. */
  predicate Unclosed<E>(o: Options, isFailure: E -> bool, w: World, events: seq<Event<E>>, from: int)
    decreases |events|
  {
    && w.breaker.state != CLOSED
    && (events == [] ||
        (from <= events[0].now && Unclosed(o, isFailure, Exec(o, isFailure, w, events[0]), events[1..], events[0].now)))
  }

  function StartedCalls<E>(o: Options, isFailure: E -> bool, w: World, events: seq<Event<E>>): nat
    decreases |events|
  {
    if events == [] then 0
    else
      (if events[0].Call? && Begin(o, w.breaker, events[0].now).1.Started? then 1 else 0)
      + StartedCalls(o, isFailure, Exec(o, isFailure, w, events[0]), events[1..])
  }

  predicate EndsBy<E>(events: seq<Event<E>>, end: int) {
    forall i :: 0 <= i < |events| ==> events[i].now <= end
  }

  /** Calls that may still begin up to `end`, seen from time `from`. */
  function Budget(o: Options, b: Breaker, from: int, end: int): int
    requires o.resetTimeoutMs >= 1 && from <= end && (b.openedAt.Some? ==> b.openedAt.value <= from)
  {
    if b.state == HALF_OPEN then
      (o.halfOpenMaxAttempts - b.halfOpenAttempts) + o.halfOpenMaxAttempts * ((end - from) / o.resetTimeoutMs)
    else if b.openedAt.Some? then o.halfOpenMaxAttempts * ((end - b.openedAt.value) / o.resetTimeoutMs)
    else 0
  }

  lemma DivIs(a: int, d: int, q: int)
    requires d >= 1 && d * q <= a < d * q + d
    ensures a / d == q
  {
    var p := a / d;
    assert a == d * p + a % d;
    if p < q {
      MulMonotone(d, p + 1, q);
    } else if p > q {
      MulMonotone(d, q + 1, p);
    }
  }

  lemma DivMonotone(a: int, b: int, d: int)
    requires d >= 1 && 0 <= a <= b
    ensures 0 <= a / d <= b / d
  {
    var p, q := a / d, b / d;
    assert a == d * p + a % d && b == d * q + b % d;
    if p > q {
      MulMonotone(d, q + 1, p);
    }
    if p < 0 {
      MulMonotone(d, p, -1);
    }
  }

  lemma DivPlusOne(a: int, d: int)
    requires d >= 1
    ensures (a + d) / d == a / d + 1
  {
    assert a == d * (a / d) + a % d;
    assert d * (a / d + 1) == d * (a / d) + d;
    DivIs(a + d, d, a / d + 1);
  }

  lemma MulMonotone(k: int, a: int, b: int)
    requires 0 <= k && a <= b
    ensures k * a <= k * b
  {
  }

  predicate Plausible(o: Options, b: Breaker, from: int) {
    && (b.state != CLOSED ==> b.openedAt.Some?)
    && (b.openedAt.Some? ==> b.openedAt.value <= from)
    && (b.state == OPEN ==> b.halfOpenAttempts == 0)
    && (b.state == HALF_OPEN ==> b.halfOpenAttempts <= o.halfOpenMaxAttempts)
  }

  /** Every event spends from the budget at least what it starts. */
  lemma BudgetCovers<E>(o: Options, isFailure: E -> bool, w: World, e: Event<E>, from: int, end: int)
    requires o.resetTimeoutMs >= 1 && o.halfOpenMaxAttempts >= 1
    requires from <= e.now <= end && w.breaker.state != CLOSED && Plausible(o, w.breaker, from)
    requires Exec(o, isFailure, w, e).breaker.state != CLOSED
    ensures var b, b' := w.breaker, Exec(o, isFailure, w, e).breaker;
      && Plausible(o, b', e.now)
      && (if e.Call? && Begin(o, b, e.now).1.Started? then 1 else 0) + Budget(o, b', e.now, end) <= Budget(o, b, from, end)
  {
    var k, r, b := o.halfOpenMaxAttempts, o.resetTimeoutMs, w.breaker;
    var a := b.openedAt.value;
    var later := (end - e.now) / r;
    DivMonotone(end - e.now, end - from, r);
    DivMonotone(end - e.now, end - a, r);
    MulMonotone(k, later, (end - from) / r);
    MulMonotone(k, later, (end - a) / r);
    if b.state == OPEN && e.Call? && e.now - a >= r {
      DivPlusOne(end - e.now, r);
      DivMonotone(end - e.now + r, end - a, r);
      MulMonotone(k, later + 1, (end - a) / r);
      assert k * (later + 1) == k * later + k;
    }
  }

  lemma {:induction false} StartedWithinBudget<E>(
    o: Options, isFailure: E -> bool, w: World, events: seq<Event<E>>, from: int, end: int)
    requires o.resetTimeoutMs >= 1 && o.halfOpenMaxAttempts >= 1 && from <= end
    requires Plausible(o, w.breaker, from) && Unclosed(o, isFailure, w, events, from) && EndsBy(events, end)
    ensures StartedCalls(o, isFailure, w, events) <= Budget(o, w.breaker, from, end)
    decreases |events|
  {
    if events == [] {
      BudgetNonNegative(o, w.breaker, from, end);
    } else {
      assert events[0].now <= end;
      var v := Exec(o, isFailure, w, events[0]);
      BudgetCovers(o, isFailure, w, events[0], from, end);
      StartedWithinBudget(o, isFailure, v, events[1..], events[0].now, end);
    }
  }

  lemma BudgetNonNegative(o: Options, b: Breaker, from: int, end: int)
    requires o.resetTimeoutMs >= 1 && o.halfOpenMaxAttempts >= 1 && from <= end && Plausible(o, b, from)
    ensures Budget(o, b, from, end) >= 0
  {
    var k, r := o.halfOpenMaxAttempts, o.resetTimeoutMs;
    DivMonotone(end - from, end - from, r);
    MulMonotone(k, 0, (end - from) / r);
    if b.openedAt.Some? {
      DivMonotone(end - b.openedAt.value, end - b.openedAt.value, r);
      MulMonotone(k, 0, (end - b.openedAt.value) / r);
    }
  }

  /**
   * Probe-rate bound: however begins and late settlements interleave, while the circuit does not close at most
   * `halfOpenMaxAttempts * floor(T / resetTimeoutMs)` operations begin in the T milliseconds after it opened.
   */
  lemma ProbeRateBound<E>(o: Options, isFailure: E -> bool, w: World, events: seq<Event<E>>, since: int, elapsed: nat)
    requires o.resetTimeoutMs >= 1 && o.halfOpenMaxAttempts >= 1
    requires w.breaker.state == OPEN && w.breaker.openedAt == Some(since) && w.breaker.halfOpenAttempts == 0
    requires Unclosed(o, isFailure, w, events, since) && EndsBy(events, since + elapsed)
    ensures StartedCalls(o, isFailure, w, events) <= o.halfOpenMaxAttempts * (elapsed / o.resetTimeoutMs)
  {
    StartedWithinBudget(o, isFailure, w, events, since, since + elapsed);
  }

  /** The retry hint of an OPEN circuit is exact: a call is admitted again from that instant on, and not before. */
  lemma RetryAfterIsExact(o: Options, b: Breaker, now: int, t: int)
    requires Sensible(o) && b.state == OPEN && b.openedAt.Some?
    requires Begin(o, b, now).1.FailFast?
    ensures Begin(o, b, t).1.Started? <==> t >= now + Begin(o, b, now).1.retryAfterMs
  {
  }

  /** In every reachable state that refuses a call, the hint is what is left of the timeout, and never negative. */
  lemma HintIsTimeLeft(o: Options, w: World, now: int, ms: nat)
    requires Sensible(o) && Inv(o, w) && Begin(o, w.breaker, now).1.FailFast?
    ensures var hint := Begin(o, w.breaker, now).1.retryAfterMs;
      hint >= 0 && (hint <= ms <==> w.breaker.openedAt.value + o.resetTimeoutMs <= now + ms)
  {
  }

  /** A call settles at most once: what is no longer in flight stays so, and no later event settles it. */
  lemma {:induction false} SettledForGood<E>(o: Options, isFailure: E -> bool, w: World, events: seq<Event<E>>, id: nat)
    requires Sensible(o) && Inv(o, w) && Runs(o, isFailure, w, events) && id < w.next && id !in w.inFlight
    ensures id !in Final(o, isFailure, w, events).inFlight
    ensures forall i :: 0 <= i < |events| && !events[i].Call? ==> events[i].id != id
    decreases |events|
  {
    if events == [] {
    } else {
      StepKeepsInv(o, isFailure, w, events[0]);
      SettledForGood(o, isFailure, Exec(o, isFailure, w, events[0]), events[1..], id);
    }
  }

  /** And a call that settles is no longer in flight, then or ever after. */
  lemma SettlesOnce<E>(o: Options, isFailure: E -> bool, w: World, e: Event<E>, events: seq<Event<E>>)
    requires Sensible(o) && Inv(o, w) && !e.Call? && Runs(o, isFailure, w, [e] + events)
    ensures forall i :: 0 <= i < |events| && !events[i].Call? ==> events[i].id != e.id
  {
    assert ([e] + events)[1..] == events;
    StepKeepsInv(o, isFailure, w, e);
    SettledForGood(o, isFailure, Exec(o, isFailure, w, e), events, e.id);
  }

  // ----- the class -----

  class CircuitBreaker<E> {
    const options: Options
    const isFailure: E -> bool
    var state: CircuitState
    var failureCount: nat
    var openedAt: Option<int>
    var halfOpenAttempts: nat

    ghost function View(): Breaker
      reads this
    {
      Breaker(state, failureCount, openedAt, halfOpenAttempts)
    }

    constructor (options: Options, isFailure: E -> bool)
      ensures View() == INITIAL.breaker && this.options == options && this.isFailure == isFailure
    {
      this.options, this.isFailure := options, isFailure;
      state, failureCount, openedAt, halfOpenAttempts := CLOSED, 0, None, 0;
    }

    /** `execute` up to the `await`. */
    method BeginCall(now: int) returns (d: Decision)
      modifies this
      ensures (View(), d) == Begin(options, old(View()), now)
    {
      if state == OPEN {
        var elapsed := if openedAt.Some? then now - openedAt.value else options.resetTimeoutMs;
        if elapsed < options.resetTimeoutMs {
          d := HandleFailFast(now);
          return;
        }
        TransitionTo(HALF_OPEN, now);
      }
      if state == HALF_OPEN {
        if halfOpenAttempts >= options.halfOpenMaxAttempts {
          d := HandleFailFast(now);
          return;
        }
        halfOpenAttempts := halfOpenAttempts + 1;
      }
      return Started;
    }

    method HandleFailFast(now: int) returns (d: Decision)
      ensures d == FailFast(RetryAfter(options, View(), now))
    {
      var retryAfterMs := options.resetTimeoutMs;
      if openedAt.Some? {
        var left := options.resetTimeoutMs - (now - openedAt.value);
        retryAfterMs := if left > 0 then left else 0;
      }
      return FailFast(retryAfterMs);
    }

    /** `execute` after the operation resolved. */
    method SettleSuccess(now: int)
      modifies this
      ensures View() == OnSuccess(old(View()), now)
    {
      if state == HALF_OPEN {
        TransitionTo(CLOSED, now);
        return;
      }
      failureCount := 0;
    }

    /** `execute` after the operation rejected. */
    method SettleFailure(error: E, now: int)
      modifies this
      ensures View() == if isFailure(error) then OnCounted(options, old(View()), now) else old(View())
    {
      if !isFailure(error) {
        return;
      }
      failureCount := failureCount + 1;
      if state == HALF_OPEN {
        TransitionTo(OPEN, now);
        return;
      }
      if state == CLOSED && failureCount >= options.failureThreshold {
        TransitionTo(OPEN, now);
      }
    }

    method TransitionTo(target: CircuitState, now: int)
      modifies this
      ensures View() == Transition(old(View()), target, now)
    {
      state := target;
      if target == OPEN {
        openedAt := Some(now);
        halfOpenAttempts := 0;
        return;
      }
      if target == HALF_OPEN {
        halfOpenAttempts := 0;
        return;
      }
      failureCount := 0;
      openedAt := None;
      halfOpenAttempts := 0;
    }
  }
}
