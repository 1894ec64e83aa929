/**
 * The distributed lock: `SET key token PX ttl NX` to acquire, compare-and-delete to release. Handlers of any
 * number of processes interleave; entries expire, and a crashed handler never releases.
 */
module RedisLock {
  datatype Entry = Entry(token: nat, expireAt: int)

  /** A granted lock and the handler that runs under it. */
  datatype Holder = Holder(key: string, acquiredAt: int, ttl: nat, running: bool)

  datatype World = World(now: int, store: map<string, Entry>, holders: map<nat, Holder>)

  datatype Step =
    | Tick(to: int)
    | Acquire(key: string, token: nat, ttl: nat)
    | Stop(token: nat)
    | Release(token: nat)

  // ----- commands -----

  /** Redis serves a key up to and including the millisecond it expires in. */
  predicate Taken(store: map<string, Entry>, key: string, now: int) {
    key in store && now <= store[key].expireAt
  }

  /** SET key token PX ttl NX. */
  function SetNx(store: map<string, Entry>, key: string, token: nat, ttl: nat, now: int): (map<string, Entry>, bool) {
    if Taken(store, key, now) then (store, false) else (store[key := Entry(token, now + ttl)], true)
  }

  /** RELEASE_SCRIPT: delete the key if it still holds this token. */
  function CompareAndDelete(store: map<string, Entry>, key: string, token: nat, now: int): map<string, Entry> {
    if Taken(store, key, now) && store[key].token == token then store - {key} else store
  }

  /**
   * One step of some process. A step that cannot happen changes nothing: time does not run back, a token is
   * granted once, and a lock is released after its handler stopped, by finishing, failing or crashing.
   */
  function Exec(w: World, s: Step): World {
    match s
    case Tick(to) => if to < w.now then w else w.(now := to)
    case Acquire(key, token, ttl) =>
      var (store, ok) := SetNx(w.store, key, token, ttl, w.now);
      if token in w.holders || !ok then w
      else w.(store := store, holders := w.holders[token := Holder(key, w.now, ttl, true)])
    case Stop(token) =>
      if token in w.holders then w.(holders := w.holders[token := w.holders[token].(running := false)]) else w
    case Release(token) =>
      if token in w.holders && !w.holders[token].running
      then w.(store := CompareAndDelete(w.store, w.holders[token].key, token, w.now)) else w
  }

  function Run(w: World, steps: seq<Step>): World
    decreases |steps|
  {
    if steps == [] then w else Run(Exec(w, steps[0]), steps[1..])
  }

  // ----- the invariant -----

  function Deadline(h: Holder): int {
    h.acquiredAt + h.ttl
  }

  predicate Running(w: World, token: nat) {
    token in w.holders && w.holders[token].running
  }

  predicate WithinTtl(w: World, token: nat) {
    Running(w, token) && w.now <= Deadline(w.holders[token])
  }

  /** Every entry belongs to a granted lock, and a handler within its ttl still owns its entry. */
  ghost predicate Inv(w: World) {
    && (forall k :: k in w.store ==>
          var e := w.store[k];
          e.token in w.holders && w.holders[e.token].key == k && e.expireAt == Deadline(w.holders[e.token]))
    && (forall t :: t in w.holders ==> w.holders[t].acquiredAt <= w.now)
    && (forall t :: WithinTtl(w, t) ==> w.holders[t].key in w.store && w.store[w.holders[t].key].token == t)
  }

  lemma StepKeepsInv(w: World, s: Step)
    requires Inv(w)
    ensures Inv(Exec(w, s)) && w.now <= Exec(w, s).now
  {
    var v := Exec(w, s);
    forall t | WithinTtl(v, t) ensures v.holders[t].key in v.store && v.store[v.holders[t].key].token == t {
      if s.Acquire? && v != w && t == s.token {
      } else {
        assert WithinTtl(w, t);
      }
    }
  }

  lemma {:induction false} RunKeepsInv(w: World, steps: seq<Step>)
    requires Inv(w)
    ensures Inv(Run(w, steps))
    decreases |steps|
  {
    if steps == [] {
    } else {
      StepKeepsInv(w, steps[0]);
      RunKeepsInv(Exec(w, steps[0]), steps[1..]);
    }
  }

  // ----- safety -----

  const INITIAL := World(0, map[], map[])

  /** At most one handler per key is within its ttl, in every reachable state. */
  lemma AtMostOneWithinTtl(steps: seq<Step>, s: nat, t: nat)
    requires var w := Run(INITIAL, steps); WithinTtl(w, s) && WithinTtl(w, t) && w.holders[s].key == w.holders[t].key
    ensures s == t
  {
    RunKeepsInv(INITIAL, steps);
  }

  /**
   * Handlers on one key overlap only when one of them has outlived its ttl. In particular they never overlap
   * while every running handler is within its ttl.
   */
  lemma OverlapMeansOutlived(steps: seq<Step>, s: nat, t: nat)
    requires var w := Run(INITIAL, steps);
      s != t && Running(w, s) && Running(w, t) && w.holders[s].key == w.holders[t].key
    ensures var w := Run(INITIAL, steps);
      Deadline(w.holders[s]) < w.now || Deadline(w.holders[t]) < w.now
  {
    RunKeepsInv(INITIAL, steps);
  }

  /** A handler that outlives its ttl is exposed: unless the key is taken again already, the next acquire overlaps it. */
  lemma OutlivedCanBeOverlapped(w: World, t: nat, token: nat, ttl: nat)
    requires Inv(w) && Running(w, t) && Deadline(w.holders[t]) < w.now && token !in w.holders
    ensures var key := w.holders[t].key; var v := Exec(w, Acquire(key, token, ttl));
      if Taken(w.store, key, w.now) then v == w && w.store[key].token != t
      else Running(v, t) && Running(v, token) && v.holders[token].key == key
  {
  }

  /** A release removes its own live entry and nothing else. */
  lemma ReleaseIsOwn(w: World, token: nat, key: string)
    requires Inv(w) && key in w.store
    ensures var v := Exec(w, Release(token));
      if Taken(w.store, key, w.now) && w.store[key].token == token && !w.holders[token].running then key !in v.store
      else key in v.store && v.store[key] == w.store[key]
  {
  }

  /** A key is free again at the latest when the ttl of its last holder has passed, crashed or not. */
  lemma NoDeadlock(w: World, key: string, token: nat, ttl: nat)
    requires Inv(w) && token !in w.holders
    requires key in w.store ==> Deadline(w.holders[w.store[key].token]) < w.now
    ensures Running(Exec(w, Acquire(key, token, ttl)), token)
  {
  }

  // ----- acquire and withLock among other processes -----

  /** Other processes never use this process's token. */
  predicate Foreign(s: Step, token: nat) {
    match s
    case Tick(_) => true
    case Acquire(_, t, _) => t != token
    case Stop(t) => t != token
    case Release(t) => t != token
  }

  predicate AllForeign(steps: seq<Step>, token: nat) {
    forall i :: 0 <= i < |steps| ==> Foreign(steps[i], token)
  }

  /** What others do leaves this process's grant alone; they may only replace its entry once it has expired. */
  lemma {:induction false} OthersLeaveGrant(w: World, steps: seq<Step>, token: nat)
    requires Inv(w) && AllForeign(steps, token)
    ensures var v := Run(w, steps);
      && Inv(v) && w.now <= v.now
      && (token in v.holders <==> token in w.holders)
      && (token in w.holders ==> v.holders[token] == w.holders[token])
    decreases |steps|
  {
    if steps == [] {
    } else {
      assert Foreign(steps[0], token);
      StepKeepsInv(w, steps[0]);
      assert AllForeign(steps[1..], token);
      OthersLeaveGrant(Exec(w, steps[0]), steps[1..], token);
    }
  }

  /** The world in which try number `n` is made, when none before it was granted. */
  function WorldAt(w: World, key: string, token: nat, ttl: nat, delay: int -> seq<Step>, n: nat): World
    requires n >= 1
  {
    if n == 1 then w
    else Run(Exec(WorldAt(w, key, token, ttl, delay, n - 1), Acquire(key, token, ttl)), delay(n - 1))
  }

  predicate FreeAt(w: World, key: string, token: nat, ttl: nat, delay: int -> seq<Step>, n: nat)
    requires n >= 1
  {
    var v := WorldAt(w, key, token, ttl, delay, n);
    !Taken(v.store, key, v.now)
  }

  lemma TryOnce(v: World, key: string, token: nat, ttl: nat)
    requires Inv(v) && token !in v.holders
    ensures var u := Exec(v, Acquire(key, token, ttl));
      && Inv(u) && u.now == v.now
      && if Taken(v.store, key, v.now) then u == v
         else && u.holders == v.holders[token := Holder(key, v.now, ttl, true)]
              && u.store == v.store[key := Entry(token, v.now + ttl)]
  {
    StepKeepsInv(v, Acquire(key, token, ttl));
  }

  /** Before each try the grant is still to come. */
  lemma {:induction false} TriesKeepInv(w: World, key: string, token: nat, ttl: nat, delay: int -> seq<Step>, n: nat)
    requires Inv(w) && token !in w.holders && n >= 1 && forall i :: AllForeign(delay(i), token)
    requires forall k :: 1 <= k < n ==> !FreeAt(w, key, token, ttl, delay, k)
    ensures var v := WorldAt(w, key, token, ttl, delay, n); Inv(v) && token !in v.holders && w.now <= v.now
  {
    if n == 1 {
    } else {
      TriesKeepInv(w, key, token, ttl, delay, n - 1);
      var v := WorldAt(w, key, token, ttl, delay, n - 1);
      assert !FreeAt(w, key, token, ttl, delay, n - 1);
      TryOnce(v, key, token, ttl);
      OthersLeaveGrant(v, delay(n - 1), token);
    }
  }

  /** What try number `n` leaves behind, when none before it found the key free. */
  lemma LastTry(w: World, key: string, token: nat, ttl: nat, delay: int -> seq<Step>, n: nat)
    requires Inv(w) && token !in w.holders && n >= 1 && forall i :: AllForeign(delay(i), token)
    requires forall k :: 1 <= k < n ==> !FreeAt(w, key, token, ttl, delay, k)
    ensures var v := Exec(WorldAt(w, key, token, ttl, delay, n), Acquire(key, token, ttl));
      && Inv(v) && w.now <= v.now
      && if FreeAt(w, key, token, ttl, delay, n)
         then token in v.holders && v.holders[token] == Holder(key, v.now, ttl, true)
              && key in v.store && v.store[key] == Entry(token, v.now + ttl)
         else token !in v.holders && Taken(v.store, key, v.now)
  {
    TriesKeepInv(w, key, token, ttl, delay, n);
    TryOnce(WorldAt(w, key, token, ttl, delay, n), key, token, ttl);
  }

  /**
   * `acquire`: up to `attempts` tries with one token; between two tries other processes take the steps
   * `delay(attempt)`. The lock is granted at the first try that finds the key free.
   */
  method AcquireLock(w: World, key: string, token: nat, ttl: nat, attempts: int, delay: int -> seq<Step>)
    returns (v: World, granted: bool, tries: nat)
    requires Inv(w) && token !in w.holders
    requires forall i :: AllForeign(delay(i), token)
    ensures Inv(v) && w.now <= v.now
    ensures attempts < 1 ==> v == w && !granted && tries == 0
    ensures attempts >= 1 ==>
      && 1 <= tries <= attempts && v == Exec(WorldAt(w, key, token, ttl, delay, tries), Acquire(key, token, ttl))
      && (forall n :: 1 <= n < tries ==> !FreeAt(w, key, token, ttl, delay, n))
      && (granted <==> FreeAt(w, key, token, ttl, delay, tries)) && (!granted ==> tries == attempts)
    ensures granted ==> v.holders.Keys >= {token} && v.holders[token] == Holder(key, v.now, ttl, true)
    ensures granted ==> key in v.store && v.store[key] == Entry(token, v.now + ttl)
    ensures !granted ==> token !in v.holders
    ensures !granted && attempts >= 1 ==> Taken(v.store, key, v.now)
  {
    v, granted, tries := w, false, 0;
    var attempt := 1;
    while attempt <= attempts
      invariant 1 <= attempt && !granted && tries == attempt - 1
      invariant attempt <= if attempts >= 1 then attempts + 1 else 1
      invariant forall n :: 1 <= n < attempt ==> !FreeAt(w, key, token, ttl, delay, n)
      invariant attempts < 1 ==> v == w
      invariant attempt <= attempts ==> v == WorldAt(w, key, token, ttl, delay, attempt)
      invariant attempt > attempts >= 1 ==>
        v == Exec(WorldAt(w, key, token, ttl, delay, attempts), Acquire(key, token, ttl))
    {
      var (_, ok) := SetNx(v.store, key, token, ttl, v.now);
      v := Exec(v, Acquire(key, token, ttl));
      tries := tries + 1;
      if ok {
        granted := true;
        LastTry(w, key, token, ttl, delay, attempt);
        return;
      }
      if attempt < attempts {
        v := Run(v, delay(attempt));
      }
      attempt := attempt + 1;
    }
    if attempts >= 1 {
      LastTry(w, key, token, ttl, delay, attempts);
    }
  }

  /**
   * `withLock`: acquire, run the handler while other processes take the steps `during`, and release in the
   * `finally` block. Afterwards the handler is stopped and no live entry carries its token.
   */
  method WithLock(w: World, key: string, token: nat, ttl: nat, attempts: int, delay: int -> seq<Step>, during: seq<Step>)
    returns (v: World, ran: bool, tries: nat)
    requires Inv(w) && token !in w.holders
    requires (forall i :: AllForeign(delay(i), token)) && AllForeign(during, token)
    ensures Inv(v)
    ensures ran <==> token in v.holders
    ensures ran <==> exists n :: 1 <= n <= attempts && FreeAt(w, key, token, ttl, delay, n)
    ensures ran ==>
      && tries >= 1 && FreeAt(w, key, token, ttl, delay, tries)
      && var held := Exec(WorldAt(w, key, token, ttl, delay, tries), Acquire(key, token, ttl));
         v == Exec(Exec(Run(held, during), Stop(token)), Release(token))
    ensures ran ==> !v.holders[token].running && v.holders[token].key == key
    ensures forall k :: Taken(v.store, k, v.now) ==> v.store[k].token != token
  {
    v, ran, tries := AcquireLock(w, key, token, ttl, attempts, delay);
    if !ran {
      return;
    }
    OthersLeaveGrant(v, during, token);
    v := Run(v, during);
    StepKeepsInv(v, Stop(token));
    v := Exec(v, Stop(token));
    StepKeepsInv(v, Release(token));
    v := Exec(v, Release(token));
  }
}
