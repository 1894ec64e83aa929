/**
 * The public rate-limit guard: requests are counted in the shared Redis log, and in a replica's own in-memory
 * log whenever Redis is not ready or fails. Replicas may flip between the two at any request.
 */
module FailoverGuard {
  import opened SlidingWindow

  /** What a replica finds when it turns to Redis; a failed call may still have been executed. */
  datatype Route = Healthy | NotReady | Broken(executed: bool)

  datatype Arrival = Arrival(replica: nat, route: Route, request: Request)

  /** The shared keys and one in-memory store per replica. */
  datatype World = World(redis: RedisKeys, memories: seq<Memory>)

  function RedisAfter(redis: RedisKeys, route: Route, r: Request, window: int): RedisKeys {
    if route.Healthy? || (route.Broken? && route.executed) then RedisHit(redis, r, window).0 else redis
  }

  function MemoryAfter(m: Memory, route: Route, r: Request, window: int): Memory {
    if route.Healthy? then m else MemoryHit(m, r, window).0
  }

  function Reply(redis: RedisKeys, m: Memory, route: Route, r: Request, window: int): Hit {
    if route.Healthy? then RedisHit(redis, r, window).1 else MemoryHit(m, r, window).1
  }

  function Step(w: World, a: Arrival, window: int): World
    requires a.replica < |w.memories|
  {
    World(RedisAfter(w.redis, a.route, a.request, window),
          w.memories[a.replica := MemoryAfter(w.memories[a.replica], a.route, a.request, window)])
  }

  /** A run in time order over existing replicas, with unique request ids and limits of at most `most`. */
  predicate Runs(w: World, arrivals: seq<Arrival>, window: int, from: int, most: nat)
    decreases |arrivals|
  {
    arrivals == [] ||
    (var a := arrivals[0];
     && a.replica < |w.memories| && from <= a.request.now && a.request.limit <= most
     && Fresh(KeyAt(w.redis, a.request.key), a.request.member)
     && Runs(Step(w, a, window), arrivals[1..], window, a.request.now, most))
  }

  /** When the requests of a client were let through. */
  function Admitted(w: World, arrivals: seq<Arrival>, window: int, key: string, from: int, most: nat): seq<int>
    requires Runs(w, arrivals, window, from, most)
    decreases |arrivals|
  {
    if arrivals == [] then []
    else
      var a := arrivals[0];
      var hit := Reply(w.redis, w.memories[a.replica], a.route, a.request, window);
      (if a.request.key == key && hit.allowed then [a.request.now] else [])
      + Admitted(Step(w, a, window), arrivals[1..], window, key, a.request.now, most)
  }

  // ----- the histories behind the stores -----

  datatype Past = Past(redis: Histories, memories: seq<Histories>)

  function PastStep(p: Past, a: Arrival, window: int): Past
    requires a.replica < |p.memories|
  {
    Past(if a.route.Healthy? || (a.route.Broken? && a.route.executed) then SpecStep(p.redis, a.request, window) else p.redis,
         if a.route.Healthy? then p.memories
         else p.memories[a.replica := SpecStep(p.memories[a.replica], a.request, window)])
  }

  /** The answer that the history of the store serving the request calls for. */
  function Answer(p: Past, a: Arrival, window: int): Hit
    requires a.replica < |p.memories|
  {
    SpecHit(LogOf(if a.route.Healthy? then p.redis else p.memories[a.replica], a.request.key),
            a.request.limit, window, a.request.now)
  }

  ghost predicate Coupled(w: World, p: Past, window: int, now: int, most: nat) {
    && |w.memories| == |p.memories|
    && RedisAgrees(w.redis, p.redis, window, now) && AllBounded(p.redis, window, most, now)
    && (forall i :: 0 <= i < |w.memories| ==> MemoryAgrees(w.memories[i], p.memories[i], window, now))
    && (forall i :: 0 <= i < |w.memories| ==> AllBounded(p.memories[i], window, most, now))
  }

  lemma LaterRedis(keys: RedisKeys, hs: Histories, window: int, was: int, now: int, most: nat)
    requires RedisAgrees(keys, hs, window, was) && AllBounded(hs, window, most, was) && was <= now
    ensures RedisAgrees(keys, hs, window, now) && AllBounded(hs, window, most, now)
  {
    forall k ensures KeyAgrees(KeyAt(keys, k), LogOf(hs, k), window, now) {
      LaterKeyAgrees(KeyAt(keys, k), LogOf(hs, k), window, was, now);
    }
    LaterBounded(hs, window, was, now, most);
  }

  lemma LaterMemory(m: Memory, hs: Histories, window: int, was: int, now: int, most: nat)
    requires MemoryAgrees(m, hs, window, was) && AllBounded(hs, window, most, was) && was <= now
    ensures MemoryAgrees(m, hs, window, now) && AllBounded(hs, window, most, now)
  {
    forall k ensures LogAgrees(LogOf(m.log, k), LogOf(hs, k), window, now) {
      LaterAgrees(LogOf(m.log, k), LogOf(hs, k), window, was, now);
    }
    LaterBounded(hs, window, was, now, most);
  }

  lemma LaterBounded(hs: Histories, window: int, was: int, now: int, most: nat)
    requires AllBounded(hs, window, most, was) && was <= now
    ensures AllBounded(hs, window, most, now)
  {
    forall k ensures var h := LogOf(hs, k); Sorted(h) && UpTo(h, now) && Bounded(h, window, most) {
      var h := LogOf(hs, k);
      assert Sorted(h) && UpTo(h, was) && Bounded(h, window, most);
    }
  }

  lemma StepKeepsCoupling(w: World, p: Past, a: Arrival, window: int, was: int, most: nat)
    requires Coupled(w, p, window, was, most) && a.replica < |w.memories|
    requires was <= a.request.now && a.request.limit <= most && Fresh(KeyAt(w.redis, a.request.key), a.request.member)
    ensures Coupled(Step(w, a, window), PastStep(p, a, window), window, a.request.now, most)
    ensures a.route.Healthy? ==>
      RedisHit(w.redis, a.request, window).1 == SpecHit(LogOf(p.redis, a.request.key), a.request.limit, window, a.request.now)
    ensures MemoryHit(w.memories[a.replica], a.request, window).1 ==
      SpecHit(LogOf(p.memories[a.replica], a.request.key), a.request.limit, window, a.request.now)
    ensures Reply(w.redis, w.memories[a.replica], a.route, a.request, window) == Answer(p, a, window)
  {
    var r, now := a.request, a.request.now;
    var w', p' := Step(w, a, window), PastStep(p, a, window);
    LaterRedis(w.redis, p.redis, window, was, now, most);
    RedisRefines(w.redis, p.redis, r, window, was);
    StepKeepsBounds(p.redis, r, window, most, was);
    MemoryRefines(w.memories[a.replica], p.memories[a.replica], r, window, was);
    StepKeepsBounds(p.memories[a.replica], r, window, most, was);
    forall i | 0 <= i < |w'.memories|
      ensures MemoryAgrees(w'.memories[i], p'.memories[i], window, now) && AllBounded(p'.memories[i], window, most, now)
    {
      LaterMemory(w.memories[i], p.memories[i], window, was, now, most);
    }
  }

  function Replies(w: World, arrivals: seq<Arrival>, window: int, from: int, most: nat): seq<Hit>
    requires Runs(w, arrivals, window, from, most)
    decreases |arrivals|
  {
    if arrivals == [] then []
    else
      var a := arrivals[0];
      [Reply(w.redis, w.memories[a.replica], a.route, a.request, window)]
      + Replies(Step(w, a, window), arrivals[1..], window, a.request.now, most)
  }

  function Answers(p: Past, arrivals: seq<Arrival>, window: int): seq<Hit>
    requires forall a :: a in arrivals ==> a.replica < |p.memories|
    decreases |arrivals|
  {
    if arrivals == [] then []
    else [Answer(p, arrivals[0], window)] + Answers(PastStep(p, arrivals[0], window), arrivals[1..], window)
  }

  lemma {:induction false} RunsOnReplicas(w: World, arrivals: seq<Arrival>, window: int, from: int, most: nat)
    requires Runs(w, arrivals, window, from, most)
    ensures forall a :: a in arrivals ==> a.replica < |w.memories|
    decreases |arrivals|
  {
    if arrivals == [] {
    } else {
      RunsOnReplicas(Step(w, arrivals[0], window), arrivals[1..], window, arrivals[0].request.now, most);
    }
  }

  lemma {:induction false} RepliesAreAnswers(w: World, p: Past, arrivals: seq<Arrival>, window: int, from: int, most: nat)
    requires Coupled(w, p, window, from, most) && Runs(w, arrivals, window, from, most)
    requires forall a :: a in arrivals ==> a.replica < |p.memories|
    ensures Replies(w, arrivals, window, from, most) == Answers(p, arrivals, window)
    decreases |arrivals|
  {
    if arrivals == [] {
    } else {
      var a := arrivals[0];
      StepKeepsCoupling(w, p, a, window, from, most);
      RepliesAreAnswers(Step(w, a, window), PastStep(p, a, window), arrivals[1..], window, a.request.now, most);
    }
  }

  /** Replicas and stores before the first request, and the histories they stand for. */
  predicate Start(w: World) {
    w.redis == map[] && forall i :: 0 <= i < |w.memories| ==> w.memories[i].log == map[]
  }

  function NoPast(w: World): Past {
    Past(map[], seq(|w.memories|, _ => map[]))
  }

  lemma StartIsCoupled(w: World, window: int, from: int, most: nat)
    requires Start(w)
    ensures Coupled(w, NoPast(w), window, from, most)
  {
    var p := NoPast(w);
    forall i | 0 <= i < |w.memories|
      ensures MemoryAgrees(w.memories[i], p.memories[i], window, from) && AllBounded(p.memories[i], window, most, from)
    {
      EmptyAgrees(w.memories[i].lastSweep, window, from);
      assert w.memories[i] == Memory(map[], w.memories[i].lastSweep);
    }
    EmptyAgrees(0, window, from);
  }

  /**
   * Over every run and every pattern of failures, each request is answered exactly as the history of the store
   * that serves it calls for: the shared one while Redis answers, the replica's own otherwise.
   */
  lemma EveryReplyIsAnswered(w: World, arrivals: seq<Arrival>, window: int, from: int, most: nat)
    requires Start(w) && Runs(w, arrivals, window, from, most)
    ensures forall a :: a in arrivals ==> a.replica < |NoPast(w).memories|
    ensures Replies(w, arrivals, window, from, most) == Answers(NoPast(w), arrivals, window)
  {
    RunsOnReplicas(w, arrivals, window, from, most);
    StartIsCoupled(w, window, from, most);
    RepliesAreAnswers(w, NoPast(w), arrivals, window, from, most);
  }

  // ----- counting -----

  function Counted(hs: Histories, key: string, start: int, window: int): nat {
    |InWindow(LogOf(hs, key), start, window)|
  }

  function SumOf(ms: seq<Histories>, key: string, start: int, window: int): nat {
    if ms == [] then 0 else Counted(ms[0], key, start, window) + SumOf(ms[1..], key, start, window)
  }

  function Total(p: Past, key: string, start: int, window: int): nat {
    Counted(p.redis, key, start, window) + SumOf(p.memories, key, start, window)
  }

  lemma {:induction false} SumUpdate(ms: seq<Histories>, i: nat, hs: Histories, key: string, start: int, window: int)
    requires i < |ms|
    ensures SumOf(ms[i := hs], key, start, window) ==
      SumOf(ms, key, start, window) - Counted(ms[i], key, start, window) + Counted(hs, key, start, window)
  {
    if i == 0 {
      assert ms[0 := hs][1..] == ms[1..];
    } else {
      assert ms[i := hs][1..] == ms[1..][i - 1 := hs];
      SumUpdate(ms[1..], i - 1, hs, key, start, window);
    }
  }

  lemma {:induction false} SumBounded(ms: seq<Histories>, key: string, start: int, window: int, most: nat)
    requires forall i :: 0 <= i < |ms| ==> Counted(ms[i], key, start, window) <= most
    ensures SumOf(ms, key, start, window) <= |ms| * most
  {
    if ms == [] {
    } else {
      SumBounded(ms[1..], key, start, window, most);
      assert |ms| * most == |ms[1..]| * most + most;
    }
  }

  /** A store's count grows exactly by the request it admits in the window. */
  lemma CountedStep(hs: Histories, r: Request, window: int, key: string, start: int)
    ensures Counted(SpecStep(hs, r, window), key, start, window) ==
      Counted(hs, key, start, window) +
      (if r.key == key && SpecHit(LogOf(hs, key), r.limit, window, r.now).allowed
       then |InWindow([r.now], start, window)| else 0)
  {
    if r.key == key {
      InWindowConcat(LogOf(hs, key), [r.now], start, window);
    }
  }

  /** What is let through adds up to no more than what the stores record. */
  lemma {:induction false} AdmittedIsRecorded(
    w: World, p: Past, arrivals: seq<Arrival>, window: int, key: string, start: int, from: int, most: nat)
    returns (last: Past)
    requires Coupled(w, p, window, from, most) && Runs(w, arrivals, window, from, most)
    ensures |last.memories| == |w.memories|
    ensures Counted(last.redis, key, start, window) <= most
    ensures forall i :: 0 <= i < |last.memories| ==> Counted(last.memories[i], key, start, window) <= most
    ensures |InWindow(Admitted(w, arrivals, window, key, from, most), start, window)| + Total(p, key, start, window)
         <= Total(last, key, start, window)
    decreases |arrivals|
  {
    if arrivals == [] {
      last := p;
      CoupledIsBounded(w, p, window, from, most, key, start);
    } else {
      var a := arrivals[0];
      var w', p' := Step(w, a, window), PastStep(p, a, window);
      StepKeepsCoupling(w, p, a, window, from, most);
      last := AdmittedIsRecorded(w', p', arrivals[1..], window, key, start, a.request.now, most);
      StepIsRecorded(w, p, a, window, key, start, from, most);
      var hit := Reply(w.redis, w.memories[a.replica], a.route, a.request, window);
      InWindowConcat(if a.request.key == key && hit.allowed then [a.request.now] else [],
        Admitted(w', arrivals[1..], window, key, a.request.now, most), start, window);
    }
  }

  lemma CoupledIsBounded(w: World, p: Past, window: int, now: int, most: nat, key: string, start: int)
    requires Coupled(w, p, window, now, most)
    ensures Counted(p.redis, key, start, window) <= most
    ensures forall i :: 0 <= i < |p.memories| ==> Counted(p.memories[i], key, start, window) <= most
  {
    var h := LogOf(p.redis, key);
    assert Sorted(h) && UpTo(h, now) && Bounded(h, window, most);
    forall i | 0 <= i < |p.memories| ensures Counted(p.memories[i], key, start, window) <= most {
      var g := LogOf(p.memories[i], key);
      assert AllBounded(p.memories[i], window, most, now);
      assert Sorted(g) && UpTo(g, now) && Bounded(g, window, most);
    }
  }

  lemma StepIsRecorded(w: World, p: Past, a: Arrival, window: int, key: string, start: int, was: int, most: nat)
    requires Coupled(w, p, window, was, most) && a.replica < |w.memories|
    requires was <= a.request.now && a.request.limit <= most && Fresh(KeyAt(w.redis, a.request.key), a.request.member)
    ensures var hit := Reply(w.redis, w.memories[a.replica], a.route, a.request, window);
      Total(PastStep(p, a, window), key, start, window) >= Total(p, key, start, window) +
        |InWindow(if a.request.key == key && hit.allowed then [a.request.now] else [], start, window)|
  {
    StepKeepsCoupling(w, p, a, window, was, most);
    CountedStep(p.redis, a.request, window, key, start);
    CountedStep(p.memories[a.replica], a.request, window, key, start);
    SumUpdate(p.memories, a.replica, SpecStep(p.memories[a.replica], a.request, window), key, start, window);
  }

  /**
   * Failover bound: with N replicas, each free to flip between Redis and its own memory at any request, at most
   * (N + 1) * limit requests of one client are let through in any window.
   */
  lemma FailoverBound(w: World, arrivals: seq<Arrival>, window: int, key: string, start: int, from: int, limit: nat)
    requires Start(w) && Runs(w, arrivals, window, from, limit)
    ensures |InWindow(Admitted(w, arrivals, window, key, from, limit), start, window)| <= (|w.memories| + 1) * limit
  {
    StartIsCoupled(w, window, from, limit);
    var last := AdmittedIsRecorded(w, NoPast(w), arrivals, window, key, start, from, limit);
    SumBounded(last.memories, key, start, window, limit);
    assert (|w.memories| + 1) * limit == |w.memories| * limit + limit;
  }

  // ----- the guard object -----

  class PublicRateLimitGuard {
    const redisStore: RedisSlidingWindowStore
    const fallbackStore: MemorySlidingWindowStore
    var usingFallback: bool

    constructor (redisStore: RedisSlidingWindowStore)
      ensures this.redisStore == redisStore && fresh(fallbackStore) && !usingFallback
      ensures fallbackStore.View() == Memory(map[], 0)
    {
      this.redisStore := redisStore;
      this.fallbackStore := new MemorySlidingWindowStore();
      usingFallback := false;
    }

    /** `record`. */
    method Record(route: Route, r: Request, window: int) returns (hit: Hit)
      modifies this, redisStore, fallbackStore
      ensures redisStore.keys == RedisAfter(old(redisStore.keys), route, r, window)
      ensures fallbackStore.View() == MemoryAfter(old(fallbackStore.View()), route, r, window)
      ensures hit == Reply(old(redisStore.keys), old(fallbackStore.View()), route, r, window)
      ensures usingFallback <==> !route.Healthy?
    {
      if !route.NotReady? {
        if route.Healthy? {
          hit := redisStore.Record(r, window);
          if usingFallback {
            usingFallback := false;
          }
          return;
        }
        if route.executed {
          var lost := redisStore.Record(r, window);
        }
        EnterFallback();
      } else {
        EnterFallback();
      }
      hit := fallbackStore.Record(r, window);
    }

    method EnterFallback()
      modifies this
      ensures usingFallback
    {
      if !usingFallback {
        usingFallback := true;
      }
    }
  }
}
