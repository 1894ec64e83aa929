/**
 * The sliding-window log: one specification over the history of admitted requests, the Redis script with key
 * expiry, and the in-memory store with its sweep. Both stores answer exactly like the specification.
 */
module SlidingWindow {

  datatype Hit = Hit(allowed: bool, count: nat, resetAt: int)

  datatype Request = Request(key: string, limit: int, now: int, member: string)

  // ----- specification: the history of admitted requests of one key -----

  /** The timestamps after `threshold`, in order. */
  function Live(h: seq<int>, threshold: int): seq<int> {
    if h == [] then []
    else if h[0] > threshold then [h[0]] + Live(h[1..], threshold)
    else Live(h[1..], threshold)
  }

  /** The timestamps in the window once this request is decided. */
  function Kept(live: seq<int>, limit: int, now: int): seq<int> {
    if |live| < limit then live + [now] else live
  }

  function SpecHit(h: seq<int>, limit: int, window: int, now: int): Hit {
    var live := Live(h, now - window);
    var kept := Kept(live, limit, now);
    Hit(|live| < limit, |kept|, (if kept == [] then now else kept[0]) + window)
  }

  function Admit(h: seq<int>, limit: int, window: int, now: int): seq<int> {
    if SpecHit(h, limit, window, now).allowed then h + [now] else h
  }

  predicate Sorted(h: seq<int>) {
    forall i, j :: 0 <= i < j < |h| ==> h[i] <= h[j]
  }

  predicate UpTo(h: seq<int>, now: int) {
    forall i :: 0 <= i < |h| ==> h[i] <= now
  }

  lemma {:induction false} LiveLive(h: seq<int>, a: int, b: int)
    requires a <= b
    ensures Live(Live(h, a), b) == Live(h, b)
  {
    if h == [] {
    } else {
      LiveLive(h[1..], a, b);
    }
  }

  lemma {:induction false} LiveConcat(g: seq<int>, h: seq<int>, a: int)
    ensures Live(g + h, a) == Live(g, a) + Live(h, a)
  {
    if g == [] {
      assert g + h == h;
    } else {
      assert (g + h)[1..] == g[1..] + h;
      LiveConcat(g[1..], h, a);
    }
  }

  lemma {:induction false} LiveNone(h: seq<int>, a: int)
    requires UpTo(h, a)
    ensures Live(h, a) == []
  {
    if h == [] {
    } else {
      LiveNone(h[1..], a);
    }
  }

  lemma {:induction false} LiveAll(h: seq<int>, a: int)
    requires forall i :: 0 <= i < |h| ==> h[i] > a
    ensures Live(h, a) == h
  {
    if h == [] {
    } else {
      LiveAll(h[1..], a);
    }
  }

  lemma {:induction false} LiveAbove(h: seq<int>, a: int)
    ensures |Live(h, a)| <= |h| && forall i :: 0 <= i < |Live(h, a)| ==> Live(h, a)[i] > a
  {
    if h == [] {
    } else {
      LiveAbove(h[1..], a);
    }
  }

  lemma {:induction false} LiveUpTo(h: seq<int>, a: int, t: int)
    requires UpTo(h, t)
    ensures UpTo(Live(h, a), t)
  {
    if h == [] {
    } else {
      LiveUpTo(h[1..], a, t);
    }
  }

  lemma {:induction false} LiveSorted(h: seq<int>, a: int)
    requires Sorted(h)
    ensures Sorted(Live(h, a))
  {
    if h == [] {
    } else {
      LiveSorted(h[1..], a);
      LiveAfter(h[1..], a, h[0]);
    }
  }

  lemma {:induction false} LiveAfter(h: seq<int>, a: int, low: int)
    requires forall i :: 0 <= i < |h| ==> low <= h[i]
    ensures forall i :: 0 <= i < |Live(h, a)| ==> low <= Live(h, a)[i]
  {
    if h == [] {
    } else {
      LiveAfter(h[1..], a, low);
    }
  }

  // ----- the bound: no window holds more than the limit -----

  /** The timestamps in the half-open window of length `window` that starts at `from`. */
  function InWindow(h: seq<int>, from: int, window: int): seq<int> {
    if h == [] then []
    else if from <= h[0] < from + window then [h[0]] + InWindow(h[1..], from, window)
    else InWindow(h[1..], from, window)
  }

  lemma {:induction false} InWindowConcat(g: seq<int>, h: seq<int>, from: int, window: int)
    ensures InWindow(g + h, from, window) == InWindow(g, from, window) + InWindow(h, from, window)
  {
    if g == [] {
      assert g + h == h;
    } else {
      assert (g + h)[1..] == g[1..] + h;
      InWindowConcat(g[1..], h, from, window);
    }
  }

  lemma {:induction false} InWindowLive(h: seq<int>, from: int, window: int, threshold: int)
    requires threshold < from
    ensures |InWindow(h, from, window)| <= |Live(h, threshold)|
  {
    if h == [] {
    } else {
      InWindowLive(h[1..], from, window, threshold);
    }
  }

  lemma {:induction false} LiveInWindow(h: seq<int>, now: int, window: int)
    requires UpTo(h, now)
    ensures InWindow(h, now - window + 1, window) == Live(h, now - window)
  {
    if h == [] {
    } else {
      LiveInWindow(h[1..], now, window);
    }
  }

  ghost predicate Bounded(h: seq<int>, window: int, most: nat) {
    forall from :: |InWindow(h, from, window)| <= most
  }

  /** Admitting never puts more than the limit into any window. */
  lemma AdmitKeepsBound(h: seq<int>, limit: int, window: int, now: int, most: nat)
    requires Sorted(h) && UpTo(h, now) && Bounded(h, window, most) && limit <= most
    ensures var g := Admit(h, limit, window, now); Sorted(g) && UpTo(g, now) && Bounded(g, window, most)
  {
    var g := Admit(h, limit, window, now);
    if g != h {
      forall from ensures |InWindow(g, from, window)| <= most {
        InWindowConcat(h, [now], from, window);
        assert |InWindow([now], from, window)| == if from <= now < from + window then 1 else 0;
        if from <= now < from + window {
          InWindowLive(h, from, window, now - window);
        }
      }
    }
  }

  // ----- resetAt is exact -----

  /** While nothing is admitted, a request on the key succeeds exactly from the announced instant on. */
  lemma ResetAtIsExact(h: seq<int>, limit: int, window: int, rejectedAt: int, t: int)
    requires Sorted(h) && UpTo(h, rejectedAt) && 1 <= limit && Bounded(h, window, limit)
    requires !SpecHit(h, limit, window, rejectedAt).allowed && rejectedAt <= t
    ensures SpecHit(h, limit, window, t).allowed <==> t >= SpecHit(h, limit, window, rejectedAt).resetAt
  {
    LiveInWindow(h, rejectedAt, window);
    LiveSorted(h, rejectedAt - window);
    LiveLive(h, rejectedAt - window, t - window);
    OldestDecides(Live(h, rejectedAt - window), t - window);
  }

  /** A full window stays full exactly until its oldest timestamp leaves. */
  lemma OldestDecides(live: seq<int>, threshold: int)
    requires Sorted(live) && live != []
    ensures |Live(live, threshold)| < |live| <==> live[0] <= threshold
  {
    if threshold < live[0] {
      LiveAll(live, threshold);
    } else {
      LiveAbove(live[1..], threshold);
    }
  }

  /** The times at which the requests that follow come in, each at or after the one before. */
  predicate Forward(times: seq<int>, from: int) {
    times == [] || (from <= times[0] && Forward(times[1..], times[0]))
  }

  function AdmitAll(h: seq<int>, limit: int, window: int, times: seq<int>): seq<int>
    decreases |times|
  {
    if times == [] then h else AdmitAll(Admit(h, limit, window, times[0]), limit, window, times[1..])
  }

  /**
   * After a rejection, however many requests follow, none before `resetAt` is admitted and the first one at or
   * after it is: if everything before `times[i]` was early, `times[i]` is admitted exactly when it is not.
   */
  lemma {:induction false} FirstAdmissionAtReset(h: seq<int>, limit: int, window: int, rejectedAt: int, times: seq<int>, i: nat)
    requires Sorted(h) && UpTo(h, rejectedAt) && 1 <= limit && Bounded(h, window, limit)
    requires !SpecHit(h, limit, window, rejectedAt).allowed
    requires Forward(times, rejectedAt) && i < |times|
    requires forall j :: 0 <= j < i ==> times[j] < SpecHit(h, limit, window, rejectedAt).resetAt
    ensures AdmitAll(h, limit, window, times[..i]) == h
    ensures rejectedAt <= times[i]
    ensures SpecHit(AdmitAll(h, limit, window, times[..i]), limit, window, times[i]).allowed
       <==> times[i] >= SpecHit(h, limit, window, rejectedAt).resetAt
    decreases i
  {
    if i == 0 {
      ResetAtIsExact(h, limit, window, rejectedAt, times[0]);
    } else {
      var t, r := times[0], SpecHit(h, limit, window, rejectedAt).resetAt;
      ResetAtIsExact(h, limit, window, rejectedAt, t);
      SameReset(h, limit, window, rejectedAt, t);
      assert times[..i][1..] == times[1..][..i - 1];
      FirstAdmissionAtReset(h, limit, window, t, times[1..], i - 1);
    }
  }

  /** A second rejection announces the same instant. */
  lemma SameReset(h: seq<int>, limit: int, window: int, s: int, t: int)
    requires Sorted(h) && UpTo(h, s) && 1 <= limit && s <= t
    requires !SpecHit(h, limit, window, s).allowed && t < SpecHit(h, limit, window, s).resetAt
    ensures SpecHit(h, limit, window, t).resetAt == SpecHit(h, limit, window, s).resetAt
    ensures !SpecHit(h, limit, window, t).allowed
  {
    var live := Live(h, s - window);
    LiveSorted(h, s - window);
    LiveLive(h, s - window, t - window);
    LiveAll(live, t - window);
  }

  // ----- the Redis script -----

  /** A member of a sorted set; the list is ordered by score. */
  datatype Scored = Scored(score: int, member: string)

  /** A Redis key holding a sorted set, with the instant it expires. */
  datatype Key = Missing | Present(zset: seq<Scored>, expireAt: int)

  function Scores(z: seq<Scored>): (r: seq<int>)
    ensures |r| == |z|
  {
    if z == [] then [] else [z[0].score] + Scores(z[1..])
  }

  function ScoresOf(k: Key): seq<int> {
    if k.Missing? then [] else Scores(k.zset)
  }

  /** A key past its expiry is gone: Redis drops it on the first access after that instant. */
  function Load(k: Key, now: int): seq<Scored> {
    if k.Missing? || now > k.expireAt then [] else k.zset
  }

  /** ZREMRANGEBYSCORE -inf max. */
  function ZRemRangeByScore(z: seq<Scored>, max: int): seq<Scored> {
    if z == [] then []
    else if z[0].score > max then [z[0]] + ZRemRangeByScore(z[1..], max)
    else ZRemRangeByScore(z[1..], max)
  }

  function ZRem(z: seq<Scored>, member: string): seq<Scored> {
    if z == [] then []
    else if z[0].member == member then ZRem(z[1..], member)
    else [z[0]] + ZRem(z[1..], member)
  }

  function ZInsert(z: seq<Scored>, x: Scored): seq<Scored> {
    if z == [] || z[0].score > x.score then [x] + z else [z[0]] + ZInsert(z[1..], x)
  }

  /** ZADD: an existing member is moved to its new score. */
  function ZAdd(z: seq<Scored>, x: Scored): seq<Scored> {
    ZInsert(ZRem(z, x.member), x)
  }

  /** PEXPIRE: an empty set has no key, and a lifetime that is not positive deletes the key. */
  function PExpire(z: seq<Scored>, now: int, window: int): Key {
    if z == [] || window <= 0 then Missing else Present(z, now + window)
  }

  function Script(k: Key, limit: int, window: int, now: int, member: string): (Key, Hit) {
    var z := ZRemRangeByScore(Load(k, now), now - window);
    var allowed := |z| < limit;
    var z' := if allowed then ZAdd(z, Scored(now, member)) else z;
    var count := if allowed then |z| + 1 else |z|;
    var resetAt := if z' == [] then now + window else z'[0].score + window;
    (PExpire(z', now, window), Hit(allowed, count, resetAt))
  }

  predicate NotIn(z: seq<Scored>, member: string) {
    forall i :: 0 <= i < |z| ==> z[i].member != member
  }

  predicate Fresh(k: Key, member: string) {
    k.Present? ==> NotIn(k.zset, member)
  }

  /** What a key's log says about the window at `now` is what the history says. */
  ghost predicate KeyAgrees(k: Key, h: seq<int>, window: int, now: int) {
    && Sorted(h) && UpTo(h, now)
    && Sorted(ScoresOf(k)) && UpTo(ScoresOf(k), now)
    && (k.Present? ==> UpTo(Scores(k.zset), k.expireAt - window))
    && Live(ScoresOf(k), now - window) == Live(h, now - window)
  }

  lemma {:induction false} PrunedScores(z: seq<Scored>, max: int)
    ensures Scores(ZRemRangeByScore(z, max)) == Live(Scores(z), max)
  {
    if z == [] {
    } else {
      PrunedScores(z[1..], max);
    }
  }

  lemma {:induction false} PrunedNotIn(z: seq<Scored>, max: int, member: string)
    requires NotIn(z, member)
    ensures NotIn(ZRemRangeByScore(z, max), member)
  {
    if z == [] {
    } else {
      PrunedNotIn(z[1..], max, member);
    }
  }

  lemma {:induction false} AddedScores(z: seq<Scored>, x: Scored)
    requires UpTo(Scores(z), x.score) && NotIn(z, x.member)
    ensures Scores(ZAdd(z, x)) == Scores(z) + [x.score]
  {
    if z == [] {
      assert ZInsert([], x) == [x] && [x][1..] == [];
    } else {
      assert Scores(z)[0] == z[0].score;
      assert Scores(z)[1..] == Scores(z[1..]);
      AddedScores(z[1..], x);
      assert ZAdd(z, x) == [z[0]] + ZAdd(z[1..], x);
    }
  }

  /** A log that expired held nothing that could still count. */
  lemma LoadAgrees(k: Key, h: seq<int>, window: int, was: int, now: int)
    requires KeyAgrees(k, h, window, was) && was <= now
    ensures Live(Scores(Load(k, now)), now - window) == Live(h, now - window)
    ensures Sorted(Scores(Load(k, now))) && UpTo(Scores(Load(k, now)), now)
  {
    LiveLive(h, was - window, now - window);
    LiveLive(ScoresOf(k), was - window, now - window);
    if k.Present? && now > k.expireAt {
      LiveNone(Scores(k.zset), now - window);
    }
  }

  /** One run of the script answers like the specification and keeps the agreement. */
  lemma ScriptRefines(k: Key, h: seq<int>, limit: int, window: int, was: int, now: int, member: string)
    requires KeyAgrees(k, h, window, was) && was <= now && Fresh(k, member)
    ensures Script(k, limit, window, now, member).1 == SpecHit(h, limit, window, now)
    ensures KeyAgrees(Script(k, limit, window, now, member).0, Admit(h, limit, window, now), window, now)
  {
    var live := Live(h, now - window);
    ScriptScores(k, h, limit, window, was, now, member);
    KeptAgrees(h, limit, window, now);
    if window <= 0 || Kept(live, limit, now) == [] {
      EmptyWindow(h, limit, window, now);
    }
  }

  lemma ScriptScores(k: Key, h: seq<int>, limit: int, window: int, was: int, now: int, member: string)
    requires KeyAgrees(k, h, window, was) && was <= now && Fresh(k, member)
    ensures var z := ZRemRangeByScore(Load(k, now), now - window);
      var z' := if |z| < limit then ZAdd(z, Scored(now, member)) else z;
      && Scores(z) == Live(h, now - window)
      && Scores(z') == Kept(Live(h, now - window), limit, now)
      && (z' != [] ==> z'[0].score == Kept(Live(h, now - window), limit, now)[0])
  {
    LoadAgrees(k, h, window, was, now);
    PrunedThenAdded(Load(k, now), limit, window, now, member);
  }

  lemma PrunedThenAdded(z0: seq<Scored>, limit: int, window: int, now: int, member: string)
    requires UpTo(Scores(z0), now) && NotIn(z0, member)
    ensures var z, live := ZRemRangeByScore(z0, now - window), Live(Scores(z0), now - window);
      var z' := if |z| < limit then ZAdd(z, Scored(now, member)) else z;
      && Scores(z) == live && Scores(z') == Kept(live, limit, now)
      && (z' != [] ==> z'[0].score == Kept(live, limit, now)[0])
  {
    var z := ZRemRangeByScore(z0, now - window);
    PrunedScores(z0, now - window);
    LiveUpTo(Scores(z0), now - window, now);
    PrunedNotIn(z0, now - window, member);
    AddedScores(z, Scored(now, member));
    FirstScore(z);
    FirstScore(ZAdd(z, Scored(now, member)));
  }

  lemma FirstScore(z: seq<Scored>)
    ensures z != [] ==> Scores(z)[0] == z[0].score
  {
  }

  /** The kept timestamps are what the new history shows in the window. */
  lemma KeptAgrees(h: seq<int>, limit: int, window: int, now: int)
    requires Sorted(h) && UpTo(h, now)
    ensures var kept := Kept(Live(h, now - window), limit, now);
      && Sorted(kept) && UpTo(kept, now)
      && Live(kept, now - window) == Live(Admit(h, limit, window, now), now - window)
    ensures Sorted(Admit(h, limit, window, now)) && UpTo(Admit(h, limit, window, now), now)
  {
    LiveSorted(h, now - window);
    LiveUpTo(h, now - window, now);
    AppendSorted(h, now);
    AppendSorted(Live(h, now - window), now);
    KeptLive(h, limit, window, now);
  }

  lemma AppendSorted(h: seq<int>, now: int)
    requires Sorted(h) && UpTo(h, now)
    ensures Sorted(h + [now]) && UpTo(h + [now], now)
  {
  }

  lemma KeptLive(h: seq<int>, limit: int, window: int, now: int)
    ensures Live(Kept(Live(h, now - window), limit, now), now - window) == Live(Admit(h, limit, window, now), now - window)
  {
    LiveLive(h, now - window, now - window);
    LiveConcat(Live(h, now - window), [now], now - window);
    LiveConcat(h, [now], now - window);
  }

  lemma EmptyWindow(h: seq<int>, limit: int, window: int, now: int)
    requires UpTo(h, now) && (window <= 0 || Kept(Live(h, now - window), limit, now) == [])
    ensures Live(Admit(h, limit, window, now), now - window) == []
  {
    if window <= 0 {
      LiveNone(Admit(h, limit, window, now), now - window);
    }
  }

  /** What a hit reports: how many requests the window that ends now has admitted, and when the oldest of them leaves it. */
  lemma HitReports(h: seq<int>, limit: int, window: int, now: int)
    requires window >= 1 && Sorted(h) && UpTo(h, now)
    ensures var hit, live := SpecHit(h, limit, window, now), Live(Admit(h, limit, window, now), now - window);
      && hit.count == |live| && hit.resetAt == window + (if live == [] then now else live[0])
      && Admit(h, limit, window, now) == (if hit.allowed then h + [now] else h)
      && (hit.allowed <==> |Live(h, now - window)| < limit)
  {
    KeptAgrees(h, limit, window, now);
    LiveAbove(h, now - window);
    LiveAll(Kept(Live(h, now - window), limit, now), now - window);
  }

  // ----- the in-memory store -----

  datatype Memory = Memory(log: map<string, seq<int>>, lastSweep: int)

  function LogOf(log: map<string, seq<int>>, key: string): seq<int> {
    if key in log then log[key] else []
  }

  predicate Stale(timestamps: seq<int>, threshold: int) {
    timestamps != [] && timestamps[|timestamps| - 1] <= threshold
  }

  function Sweep(m: Memory, window: int, now: int): Memory {
    if now - m.lastSweep < window then m
    else Memory(map k | k in m.log && !Stale(m.log[k], now - window) :: m.log[k], now)
  }

  function MemoryHit(m: Memory, r: Request, window: int): (Memory, Hit) {
    var swept := Sweep(m, window, r.now);
    var timestamps := Live(LogOf(swept.log, r.key), r.now - window);
    var kept := Kept(timestamps, r.limit, r.now);
    (Memory(if kept == [] then swept.log - {r.key} else swept.log[r.key := kept], swept.lastSweep),
     Hit(|timestamps| < r.limit, |kept|, (if kept == [] then r.now else kept[0]) + window))
  }

  /** The histories of all keys. */
  type Histories = map<string, seq<int>>

  function SpecStep(hs: Histories, r: Request, window: int): Histories {
    hs[r.key := Admit(LogOf(hs, r.key), r.limit, window, r.now)]
  }

  ghost predicate LogAgrees(log: seq<int>, h: seq<int>, window: int, now: int) {
    && Sorted(h) && UpTo(h, now) && Sorted(log) && UpTo(log, now)
    && Live(log, now - window) == Live(h, now - window)
  }

  ghost predicate MemoryAgrees(m: Memory, hs: Histories, window: int, now: int) {
    forall k :: LogAgrees(LogOf(m.log, k), LogOf(hs, k), window, now)
  }

  lemma LaterAgrees(log: seq<int>, h: seq<int>, window: int, was: int, now: int)
    requires LogAgrees(log, h, window, was) && was <= now
    ensures LogAgrees(log, h, window, now)
  {
    LiveLive(h, was - window, now - window);
    LiveLive(log, was - window, now - window);
  }

  /** The sweep drops only keys with nothing left in the window. */
  lemma SweepAgrees(m: Memory, hs: Histories, window: int, was: int, now: int)
    requires MemoryAgrees(m, hs, window, was) && was <= now
    ensures MemoryAgrees(Sweep(m, window, now), hs, window, now)
  {
    var s := Sweep(m, window, now);
    forall k ensures LogAgrees(LogOf(s.log, k), LogOf(hs, k), window, now) {
      var log := LogOf(m.log, k);
      LaterAgrees(log, LogOf(hs, k), window, was, now);
      if LogOf(s.log, k) != log {
        LiveNone(log, now - window);
      }
    }
  }

  /** One hit on the memory store answers like the specification and keeps the agreement for every key. */
  lemma MemoryRefines(m: Memory, hs: Histories, r: Request, window: int, was: int)
    requires MemoryAgrees(m, hs, window, was) && was <= r.now
    ensures MemoryHit(m, r, window).1 == SpecHit(LogOf(hs, r.key), r.limit, window, r.now)
    ensures MemoryAgrees(MemoryHit(m, r, window).0, SpecStep(hs, r, window), window, r.now)
  {
    SweepAgrees(m, hs, window, was, r.now);
    SweptRefines(m, Sweep(m, window, r.now), hs, r, window);
  }

  lemma SweptRefines(m: Memory, s: Memory, hs: Histories, r: Request, window: int)
    requires s == Sweep(m, window, r.now) && MemoryAgrees(s, hs, window, r.now)
    ensures MemoryHit(m, r, window).1 == SpecHit(LogOf(hs, r.key), r.limit, window, r.now)
    ensures MemoryAgrees(MemoryHit(m, r, window).0, SpecStep(hs, r, window), window, r.now)
  {
    var h := LogOf(hs, r.key);
    assert LogAgrees(LogOf(s.log, r.key), h, window, r.now);
    KeptAgrees(h, r.limit, window, r.now);
    HitAgrees(m, s, h, r, window);
    KeptIsStored(m, r, window);
    UpdateAgrees(s.log, MemoryHit(m, r, window).0.log, hs, r.key, Admit(h, r.limit, window, r.now), window, r.now);
  }

  lemma HitAgrees(m: Memory, s: Memory, h: seq<int>, r: Request, window: int)
    requires s == Sweep(m, window, r.now) && Live(LogOf(s.log, r.key), r.now - window) == Live(h, r.now - window)
    ensures MemoryHit(m, r, window).1 == SpecHit(h, r.limit, window, r.now)
  {
  }

  /** What one hit leaves in the log of its own key and of the others. */
  lemma KeptIsStored(m: Memory, r: Request, window: int)
    ensures var s, log' := Sweep(m, window, r.now), MemoryHit(m, r, window).0.log;
      && LogOf(log', r.key) == Kept(Live(LogOf(s.log, r.key), r.now - window), r.limit, r.now)
      && forall k :: k != r.key ==> LogOf(log', k) == LogOf(s.log, k)
  {
  }

  /** Changing one key's log and history together keeps the agreement of all keys. */
  lemma UpdateAgrees(
    log: map<string, seq<int>>, log': map<string, seq<int>>, hs: Histories, key: string, h: seq<int>,
    window: int, now: int)
    requires forall k :: LogAgrees(LogOf(log, k), LogOf(hs, k), window, now)
    requires forall k :: k != key ==> LogOf(log', k) == LogOf(log, k)
    requires LogAgrees(LogOf(log', key), h, window, now)
    ensures forall k :: LogAgrees(LogOf(log', k), LogOf(hs[key := h], k), window, now)
  {
    forall k ensures LogAgrees(LogOf(log', k), LogOf(hs[key := h], k), window, now) {
      if k != key {
        assert LogAgrees(LogOf(log, k), LogOf(hs, k), window, now);
      }
    }
  }

  // ----- whole runs -----

  type RedisKeys = map<string, Key>

  function KeyAt(keys: RedisKeys, key: string): Key {
    if key in keys then keys[key] else Missing
  }

  function RedisHit(keys: RedisKeys, r: Request, window: int): (RedisKeys, Hit) {
    var (k, hit) := Script(KeyAt(keys, r.key), r.limit, window, r.now, r.member);
    (keys[r.key := k], hit)
  }

  ghost predicate RedisAgrees(keys: RedisKeys, hs: Histories, window: int, now: int) {
    forall k :: KeyAgrees(KeyAt(keys, k), LogOf(hs, k), window, now)
  }

  lemma LaterKeyAgrees(k: Key, h: seq<int>, window: int, was: int, now: int)
    requires KeyAgrees(k, h, window, was) && was <= now
    ensures KeyAgrees(k, h, window, now)
  {
    LiveLive(h, was - window, now - window);
    LiveLive(ScoresOf(k), was - window, now - window);
  }

  lemma RedisRefines(keys: RedisKeys, hs: Histories, r: Request, window: int, was: int)
    requires RedisAgrees(keys, hs, window, was) && was <= r.now && Fresh(KeyAt(keys, r.key), r.member)
    ensures RedisHit(keys, r, window).1 == SpecHit(LogOf(hs, r.key), r.limit, window, r.now)
    ensures RedisAgrees(RedisHit(keys, r, window).0, SpecStep(hs, r, window), window, r.now)
  {
    var k := KeyAt(keys, r.key);
    assert KeyAgrees(k, LogOf(hs, r.key), window, was);
    ScriptRefines(k, LogOf(hs, r.key), r.limit, window, was, r.now, r.member);
    var keys', hs' := RedisHit(keys, r, window).0, SpecStep(hs, r, window);
    forall other ensures KeyAgrees(KeyAt(keys', other), LogOf(hs', other), window, r.now) {
      if other != r.key {
        LaterKeyAgrees(KeyAt(keys, other), LogOf(hs, other), window, was, r.now);
      }
    }
  }

  predicate InOrder(rs: seq<Request>, from: int) {
    rs == [] || (from <= rs[0].now && InOrder(rs[1..], rs[0].now))
  }

  /** Member ids are unique: each request's id differs from every id already stored under its key. */
  predicate UniqueMembers(keys: RedisKeys, rs: seq<Request>, window: int)
    decreases |rs|
  {
    rs == [] ||
    (Fresh(KeyAt(keys, rs[0].key), rs[0].member) && UniqueMembers(RedisHit(keys, rs[0], window).0, rs[1..], window))
  }

  function SpecReplies(hs: Histories, rs: seq<Request>, window: int): (r: seq<Hit>)
    ensures |r| == |rs|
    decreases |rs|
  {
    if rs == [] then []
    else [SpecHit(LogOf(hs, rs[0].key), rs[0].limit, window, rs[0].now)]
         + SpecReplies(SpecStep(hs, rs[0], window), rs[1..], window)
  }

  function RedisReplies(keys: RedisKeys, rs: seq<Request>, window: int): (r: seq<Hit>)
    ensures |r| == |rs|
    decreases |rs|
  {
    if rs == [] then []
    else var (k, hit) := RedisHit(keys, rs[0], window); [hit] + RedisReplies(k, rs[1..], window)
  }

  function MemoryReplies(m: Memory, rs: seq<Request>, window: int): (r: seq<Hit>)
    ensures |r| == |rs|
    decreases |rs|
  {
    if rs == [] then []
    else var (n, hit) := MemoryHit(m, rs[0], window); [hit] + MemoryReplies(n, rs[1..], window)
  }

  lemma {:induction false} RunsAgree(keys: RedisKeys, m: Memory, hs: Histories, rs: seq<Request>, window: int, was: int)
    requires RedisAgrees(keys, hs, window, was) && MemoryAgrees(m, hs, window, was)
    requires InOrder(rs, was) && UniqueMembers(keys, rs, window)
    ensures RedisReplies(keys, rs, window) == SpecReplies(hs, rs, window)
    ensures MemoryReplies(m, rs, window) == SpecReplies(hs, rs, window)
    decreases |rs|
  {
    if rs == [] {
    } else {
      RedisRefines(keys, hs, rs[0], window, was);
      MemoryRefines(m, hs, rs[0], window, was);
      RunsAgree(RedisHit(keys, rs[0], window).0, MemoryHit(m, rs[0], window).0, SpecStep(hs, rs[0], window),
                rs[1..], window, rs[0].now);
    }
  }

  /**
   * From empty stores, on every trace in time order, the Redis script with key expiry and the in-memory store
   * with its sweep give the same `allowed`, `count` and `resetAt`, and those of the specification.
   */
  lemma StoresAgree(rs: seq<Request>, window: int, lastSweep: int, from: int)
    requires InOrder(rs, from) && UniqueMembers(map[], rs, window)
    ensures RedisReplies(map[], rs, window) == SpecReplies(map[], rs, window)
    ensures MemoryReplies(Memory(map[], lastSweep), rs, window) == SpecReplies(map[], rs, window)
  {
    EmptyAgrees(lastSweep, window, from);
    RunsAgree(map[], Memory(map[], lastSweep), map[], rs, window, from);
  }

  lemma EmptyAgrees(lastSweep: int, window: int, now: int)
    ensures RedisAgrees(map[], map[], window, now) && MemoryAgrees(Memory(map[], lastSweep), map[], window, now)
  {
  }

  // ----- the sweep keeps the in-memory store small -----

  /** Every key tracked has a request within one window before the last sweep, or since. */
  predicate Compact(m: Memory, window: int) {
    forall k :: k in m.log ==> m.log[k] != [] && m.log[k][|m.log[k]| - 1] > m.lastSweep - window
  }

  function MemoryRun(m: Memory, rs: seq<Request>, window: int): Memory
    decreases |rs|
  {
    if rs == [] then m else MemoryRun(MemoryHit(m, rs[0], window).0, rs[1..], window)
  }

  lemma HitKeepsCompact(m: Memory, r: Request, window: int)
    requires window >= 1 && Compact(m, window) && m.lastSweep <= r.now
    ensures var v := MemoryHit(m, r, window).0;
      Compact(v, window) && v.lastSweep <= r.now < v.lastSweep + window
  {
    var swept := Sweep(m, window, r.now);
    assert Compact(swept, window);
    LiveAbove(LogOf(swept.log, r.key), r.now - window);
  }

  lemma {:induction false} RunKeepsCompact(m: Memory, rs: seq<Request>, window: int, from: int)
    requires window >= 1 && Compact(m, window) && m.lastSweep <= from && InOrder(rs, from)
    ensures var v := MemoryRun(m, rs, window); Compact(v, window) && v.lastSweep <= LastTime(rs, from)
    ensures rs != [] ==> LastTime(rs, from) < MemoryRun(m, rs, window).lastSweep + window
    decreases |rs|
  {
    if rs == [] {
    } else {
      var v := MemoryHit(m, rs[0], window).0;
      HitKeepsCompact(m, rs[0], window);
      RunKeepsCompact(v, rs[1..], window, rs[0].now);
    }
  }

  lemma RecentIn(m: Memory, window: int, now: int, key: string)
    requires Compact(m, window) && now < m.lastSweep + window && key in m.log
    ensures var ts := m.log[key]; ts != [] && ts[|ts| - 1] > now - 2 * window
  {
  }

  /**
   * The in-memory store does not fill up: after every request of every trace, each key it tracks had a request
   * admitted less than two windows ago.
   */
  lemma TrackedKeysAreRecent(rs: seq<Request>, window: int, from: int, key: string)
    requires window >= 1 && from >= 0 && InOrder(rs, from) && rs != []
    requires key in MemoryRun(Memory(map[], 0), rs, window).log
    ensures var ts := MemoryRun(Memory(map[], 0), rs, window).log[key];
      ts != [] && ts[|ts| - 1] > LastTime(rs, from) - 2 * window
  {
    RunKeepsCompact(Memory(map[], 0), rs, window, from);
    RecentIn(MemoryRun(Memory(map[], 0), rs, window), window, LastTime(rs, from), key);
  }

  function RedisRun(keys: RedisKeys, rs: seq<Request>, window: int): RedisKeys
    decreases |rs|
  {
    if rs == [] then keys else RedisRun(RedisHit(keys, rs[0], window).0, rs[1..], window)
  }

  lemma {:induction false} OthersLeaveKey(keys: RedisKeys, rs: seq<Request>, window: int, key: string)
    requires forall i :: 0 <= i < |rs| ==> rs[i].key != key
    ensures KeyAt(RedisRun(keys, rs, window), key) == KeyAt(keys, key)
    decreases |rs|
  {
    if rs == [] {
    } else {
      OthersLeaveKey(RedisHit(keys, rs[0], window).0, rs[1..], window, key);
    }
  }

  /**
   * Nor does Redis: whatever other clients do, a key is gone once more than a window has passed since its last request,
   * and is served in full until then.
   */
  lemma IdleKeyIsGone(keys: RedisKeys, r: Request, rest: seq<Request>, window: int, t: int)
    requires window >= 1 && forall i :: 0 <= i < |rest| ==> rest[i].key != r.key
    ensures var k := KeyAt(RedisRun(keys, [r] + rest, window), r.key);
      && (t > r.now + window ==> Load(k, t) == [])
      && (t <= r.now + window ==> Load(k, t) == Load(k, r.now))
  {
    assert ([r] + rest)[1..] == rest;
    OthersLeaveKey(RedisHit(keys, r, window).0, rest, window, r.key);
  }

  function SpecRun(hs: Histories, rs: seq<Request>, window: int): Histories
    decreases |rs|
  {
    if rs == [] then hs else SpecRun(SpecStep(hs, rs[0], window), rs[1..], window)
  }

  ghost predicate AllBounded(hs: Histories, window: int, most: nat, now: int) {
    forall k :: var h := LogOf(hs, k); Sorted(h) && UpTo(h, now) && Bounded(h, window, most)
  }

  lemma StepKeepsBounds(hs: Histories, r: Request, window: int, most: nat, was: int)
    requires AllBounded(hs, window, most, was) && was <= r.now && r.limit <= most
    ensures AllBounded(SpecStep(hs, r, window), window, most, r.now)
  {
    var hs' := SpecStep(hs, r, window);
    forall k ensures var h := LogOf(hs', k); Sorted(h) && UpTo(h, r.now) && Bounded(h, window, most) {
      var h := LogOf(hs, k);
      assert Sorted(h) && UpTo(h, was) && Bounded(h, window, most);
      if k == r.key {
        AdmitKeepsBound(h, r.limit, window, r.now, most);
      }
    }
  }

  /** No window ever holds more admitted requests of a key than the largest limit in use. */
  lemma {:induction false} RunIsBounded(hs: Histories, rs: seq<Request>, window: int, most: nat, was: int)
    requires AllBounded(hs, window, most, was) && InOrder(rs, was)
    requires forall i :: 0 <= i < |rs| ==> rs[i].limit <= most
    ensures forall k :: Bounded(LogOf(SpecRun(hs, rs, window), k), window, most)
    decreases |rs|
  {
    if rs == [] {
      forall k ensures Bounded(LogOf(hs, k), window, most) {
        var h := LogOf(hs, k);
        assert Sorted(h) && UpTo(h, was) && Bounded(h, window, most);
      }
    } else {
      StepKeepsBounds(hs, rs[0], window, most, was);
      RunIsBounded(SpecStep(hs, rs[0], window), rs[1..], window, most, rs[0].now);
    }
  }

  /** When the requests of a key were admitted, according to the replies. */
  function AdmittedTimes(rs: seq<Request>, replies: seq<Hit>, key: string): seq<int>
    requires |rs| == |replies|
  {
    if rs == [] then []
    else (if rs[0].key == key && replies[0].allowed then [rs[0].now] else [])
         + AdmittedTimes(rs[1..], replies[1..], key)
  }

  lemma Regroup(a: seq<int>, b: seq<int>, c: seq<int>)
    ensures (a + b) + c == a + (b + c)
  {
  }

  lemma StepAppends(hs: Histories, r: Request, window: int, key: string)
    ensures LogOf(SpecStep(hs, r, window), key) ==
      LogOf(hs, key) + if r.key == key && SpecHit(LogOf(hs, r.key), r.limit, window, r.now).allowed then [r.now] else []
  {
  }

  lemma {:induction false} HistoryIsAdmitted(hs: Histories, rs: seq<Request>, window: int, key: string)
    ensures LogOf(SpecRun(hs, rs, window), key) ==
      LogOf(hs, key) + AdmittedTimes(rs, SpecReplies(hs, rs, window), key)
    decreases |rs|
  {
    if rs == [] {
    } else {
      var hs', replies := SpecStep(hs, rs[0], window), SpecReplies(hs, rs, window);
      HistoryIsAdmitted(hs', rs[1..], window, key);
      assert replies[1..] == SpecReplies(hs', rs[1..], window);
      StepAppends(hs, rs[0], window, key);
      Regroup(LogOf(hs, key), if rs[0].key == key && replies[0].allowed then [rs[0].now] else [],
              AdmittedTimes(rs[1..], replies[1..], key));
    }
  }

  /** What either store admits of a key in any window is at most the largest limit in use. */
  lemma StoresAreBounded(rs: seq<Request>, window: int, lastSweep: int, from: int, most: nat, key: string, start: int)
    requires InOrder(rs, from) && UniqueMembers(map[], rs, window)
    requires forall i :: 0 <= i < |rs| ==> rs[i].limit <= most
    ensures var redis, memory := RedisReplies(map[], rs, window), MemoryReplies(Memory(map[], lastSweep), rs, window);
      && |redis| == |memory| == |rs|
      && |InWindow(AdmittedTimes(rs, redis, key), start, window)| <= most
      && |InWindow(AdmittedTimes(rs, memory, key), start, window)| <= most
  {
    StoresAgree(rs, window, lastSweep, from);
    HistoryIsAdmitted(map[], rs, window, key);
    assert AllBounded(map[], window, most, from);
    RunIsBounded(map[], rs, window, most, from);
    var h := LogOf(SpecRun(map[], rs, window), key);
    assert Bounded(h, window, most);
    assert h == AdmittedTimes(rs, SpecReplies(map[], rs, window), key);
  }

  // ----- resetAt on whole traces -----

  function LastTime(rs: seq<Request>, from: int): int {
    if rs == [] then from else rs[|rs| - 1].now
  }

  lemma {:induction false} OrderedPrefix(rs: seq<Request>, from: int, i: nat)
    requires InOrder(rs, from) && i < |rs|
    ensures InOrder(rs[..i], from) && LastTime(rs[..i], from) <= rs[i].now
    decreases i
  {
    if i == 0 {
    } else {
      OrderedPrefix(rs[1..], rs[0].now, i - 1);
      assert rs[..i][1..] == rs[1..][..i - 1];
    }
  }

  lemma {:induction false} InTimeOrder(rs: seq<Request>, from: int, i: nat, j: nat)
    requires InOrder(rs, from) && i <= j < |rs|
    ensures from <= rs[i].now <= rs[j].now
    decreases j
  {
    if j == 0 {
    } else if i == 0 {
      InTimeOrder(rs[1..], rs[0].now, 0, j - 1);
    } else {
      InTimeOrder(rs[1..], rs[0].now, i - 1, j - 1);
    }
  }

  lemma {:induction false} RunSnoc(hs: Histories, rs: seq<Request>, window: int, i: nat)
    requires i < |rs|
    ensures SpecRun(hs, rs[..i + 1], window) == SpecStep(SpecRun(hs, rs[..i], window), rs[i], window)
    decreases i
  {
    assert rs[..i + 1][1..] == rs[1..][..i];
    if i == 0 {
      assert rs[..0] == [] && rs[1..][..0] == [];
    } else {
      assert rs[..i][1..] == rs[1..][..i - 1];
      RunSnoc(SpecStep(hs, rs[0], window), rs[1..], window, i - 1);
    }
  }

  /** What the specification answers to the i-th request of a trace. */
  lemma {:induction false} ReplyAt(hs: Histories, rs: seq<Request>, window: int, i: nat)
    requires i < |rs|
    ensures SpecReplies(hs, rs, window)[i] ==
      SpecHit(LogOf(SpecRun(hs, rs[..i], window), rs[i].key), rs[i].limit, window, rs[i].now)
    decreases i
  {
    if i == 0 {
    } else {
      assert rs[..i][1..] == rs[1..][..i - 1];
      ReplyAt(SpecStep(hs, rs[0], window), rs[1..], window, i - 1);
    }
  }

  ghost predicate Regular(h: seq<int>, window: int, limit: nat, now: int) {
    Sorted(h) && UpTo(h, now) && Bounded(h, window, limit)
  }

  predicate AtMost(rs: seq<Request>, key: string, limit: nat) {
    forall i :: 0 <= i < |rs| && rs[i].key == key ==> rs[i].limit <= limit
  }

  lemma StepKeepsRegular(hs: Histories, r: Request, window: int, key: string, limit: nat, was: int)
    requires Regular(LogOf(hs, key), window, limit, was) && was <= r.now && (r.key == key ==> r.limit <= limit)
    ensures Regular(LogOf(SpecStep(hs, r, window), key), window, limit, r.now)
  {
    if r.key == key {
      AdmitKeepsBound(LogOf(hs, key), r.limit, window, r.now, limit);
    }
  }

  /** The history of one key whose requests carry at most `limit`, whatever the other keys do. */
  lemma {:induction false} KeyHistory(hs: Histories, rs: seq<Request>, window: int, key: string, limit: nat, was: int)
    requires Regular(LogOf(hs, key), window, limit, was) && InOrder(rs, was) && AtMost(rs, key, limit)
    ensures Regular(LogOf(SpecRun(hs, rs, window), key), window, limit, LastTime(rs, was))
    decreases |rs|
  {
    if rs == [] {
    } else {
      StepKeepsRegular(hs, rs[0], window, key, limit, was);
      KeyHistory(SpecStep(hs, rs[0], window), rs[1..], window, key, limit, rs[0].now);
    }
  }

  /** A request at `t` on the history `h` is rejected, and the answer announces `reset`. */
  ghost predicate Rejected(h: seq<int>, limit: nat, window: int, t: int, reset: int) {
    && Sorted(h) && UpTo(h, t) && limit >= 1 && Bounded(h, window, limit)
    && !SpecHit(h, limit, window, t).allowed && SpecHit(h, limit, window, t).resetAt == reset
  }

  lemma QuietStep(hs: Histories, key: string, r: Request, window: int, h: seq<int>, limit: nat, t: int, reset: int)
    requires Rejected(h, limit, window, t, reset) && LogOf(hs, key) == h
    requires r.key == key ==> r.limit == limit && t <= r.now && (r.now == t || r.now < reset)
    ensures LogOf(SpecStep(hs, r, window), key) == h
  {
    StepAppends(hs, r, window, key);
    if r.key == key && r.now != t {
      ResetAtIsExact(h, limit, window, t, r.now);
    }
  }

  /** The history of a key after the first `n` requests. */
  function HistoryAt(rs: seq<Request>, window: int, key: string, n: nat): seq<int> {
    LogOf(SpecRun(map[], if n <= |rs| then rs[..n] else rs, window), key)
  }

  ghost predicate StaysAt(f: nat -> seq<int>, h: seq<int>, k: nat) {
    f(k) == h ==> f(k + 1) == h
  }

  lemma {:induction false} StaysUpTo(f: nat -> seq<int>, h: seq<int>, i: nat, j: nat)
    requires i <= j && f(i) == h && forall k :: i <= k < j ==> StaysAt(f, h, k)
    ensures f(j) == h
    decreases j
  {
    if i == j {
    } else {
      StaysUpTo(f, h, i, j - 1);
      assert StaysAt(f, h, j - 1);
    }
  }

  lemma QuietAt(rs: seq<Request>, window: int, from: int, i: nat, k: nat, limit: nat, h: seq<int>, reset: int)
    requires InOrder(rs, from) && i <= k < |rs| && (rs[k].key == rs[i].key ==> rs[k].limit == limit)
    requires h == HistoryAt(rs, window, rs[i].key, k) && Rejected(h, limit, window, rs[i].now, reset)
    requires i < k && rs[k].key == rs[i].key ==> rs[k].now < reset
    ensures HistoryAt(rs, window, rs[i].key, k + 1) == h
  {
    RunSnoc(map[], rs, window, k);
    InTimeOrder(rs, from, i, k);
    QuietStep(SpecRun(map[], rs[..k], window), rs[i].key, rs[k], window, h, limit, rs[i].now, reset);
  }

  /** While every further request of the key comes before `reset`, its history does not change. */
  lemma QuietUntilReset(
    rs: seq<Request>, window: int, from: int, i: nat, j: nat, limit: nat, h: seq<int>, reset: int)
    requires InOrder(rs, from) && i < j <= |rs|
    requires forall k :: i <= k < j && rs[k].key == rs[i].key ==> rs[k].limit == limit
    requires h == HistoryAt(rs, window, rs[i].key, i) && Rejected(h, limit, window, rs[i].now, reset)
    requires forall k :: i < k < j && rs[k].key == rs[i].key ==> rs[k].now < reset
    ensures HistoryAt(rs, window, rs[i].key, j) == h
  {
    var f := (n: nat) => HistoryAt(rs, window, rs[i].key, n);
    forall k | i <= k < j ensures StaysAt(f, h, k) {
      if f(k) == h {
        QuietAt(rs, window, from, i, k, limit, h, reset);
      }
    }
    StaysUpTo(f, h, i, j);
  }

  /**
   * On a trace of many keys: after a rejected request of a key, as long as its further requests come before the
   * announced `resetAt` none is admitted, and the first at or after it is. So answer both stores.
   */
  lemma FirstAdmissionOnStores(rs: seq<Request>, window: int, lastSweep: int, from: int, i: nat, j: nat, limit: nat)
    requires InOrder(rs, from) && UniqueMembers(map[], rs, window) && i < j < |rs| && limit >= 1
    requires rs[j].key == rs[i].key && forall k :: 0 <= k <= j && rs[k].key == rs[i].key ==> rs[k].limit == limit
    requires var reply := RedisReplies(map[], rs, window)[i];
      !reply.allowed && forall k :: i < k < j && rs[k].key == rs[i].key ==> rs[k].now < reply.resetAt
    ensures var redis, memory := RedisReplies(map[], rs, window), MemoryReplies(Memory(map[], lastSweep), rs, window);
      && redis[i] == memory[i]
      && (redis[j].allowed <==> rs[j].now >= redis[i].resetAt)
      && (memory[j].allowed <==> rs[j].now >= memory[i].resetAt)
  {
    StoresAgree(rs, window, lastSweep, from);
    ReplyAt(map[], rs, window, i);
    ReplyAt(map[], rs, window, j);
    OrderedPrefix(rs, from, i);
    KeyHistory(map[], rs[..i], window, rs[i].key, limit, from);
    var h := LogOf(SpecRun(map[], rs[..i], window), rs[i].key);
    QuietUntilReset(rs, window, from, i, j, limit, h, SpecHit(h, limit, window, rs[i].now).resetAt);
    InTimeOrder(rs, from, i, j);
    ResetAtIsExact(h, limit, window, rs[i].now, rs[j].now);
  }

  // ----- the stores as objects -----

  class RedisSlidingWindowStore {
    var keys: RedisKeys

    constructor ()
      ensures keys == map[]
    {
      keys := map[];
    }

    /** `hit`: the script, command by command. */
    method Record(r: Request, window: int) returns (hit: Hit)
      modifies this
      ensures (keys, hit) == RedisHit(old(keys), r, window)
    {
      var zset := Load(KeyAt(keys, r.key), r.now);
      zset := ZRemRangeByScore(zset, r.now - window);
      var count := |zset|;
      var allowed := false;
      if count < r.limit {
        zset := ZAdd(zset, Scored(r.now, r.member));
        count := count + 1;
        allowed := true;
      }
      var resetAt := r.now + window;
      if zset != [] {
        resetAt := zset[0].score + window;
      }
      keys := keys[r.key := PExpire(zset, r.now, window)];
      return Hit(allowed, count, resetAt);
    }
  }

  class MemorySlidingWindowStore {
    var log: map<string, seq<int>>
    var lastSweep: int

    ghost function View(): Memory
      reads this
    {
      Memory(log, lastSweep)
    }

    constructor ()
      ensures View() == Memory(map[], 0)
    {
      log, lastSweep := map[], 0;
    }

    /** `hit`. */
    method Record(r: Request, window: int) returns (hit: Hit)
      modifies this
      ensures (View(), hit) == MemoryHit(old(View()), r, window)
    {
      SweepOnce(window, r.now);
      var threshold := r.now - window;
      var timestamps := Filter(LogOf(log, r.key), threshold);
      var allowed := false;
      if |timestamps| < r.limit {
        timestamps := timestamps + [r.now];
        allowed := true;
      }
      if |timestamps| > 0 {
        log := log[r.key := timestamps];
      } else {
        log := log - {r.key};
      }
      return Hit(allowed, |timestamps|, (if |timestamps| > 0 then timestamps[0] else r.now) + window);
    }

    method Filter(ts: seq<int>, threshold: int) returns (kept: seq<int>)
      ensures kept == Live(ts, threshold)
    {
      kept := [];
      for i := 0 to |ts|
        invariant kept == Live(ts[..i], threshold)
      {
        assert ts[..i + 1] == ts[..i] + [ts[i]];
        LiveConcat(ts[..i], [ts[i]], threshold);
        if ts[i] > threshold {
          kept := kept + [ts[i]];
        }
      }
      assert ts[..|ts|] == ts;
    }

    /** `sweep`: at most once per window, drops the keys whose newest entry has aged out. */
    method SweepOnce(window: int, now: int)
      modifies this
      ensures View() == Sweep(old(View()), window, now)
    {
      if now - lastSweep < window {
        return;
      }
      lastSweep := now;
      var threshold := now - window;
      var todo := log.Keys;
      while todo != {}
        invariant todo <= old(log).Keys && lastSweep == now
        invariant forall k :: k in log <==> k in old(log) && (k in todo || !Stale(old(log)[k], threshold))
        invariant forall k :: k in log ==> log[k] == old(log)[k]
        decreases todo
      {
        var key :| key in todo;
        if Stale(log[key], threshold) {
          log := log - {key};
        }
        todo := todo - {key};
      }
    }
  }
}
