/**
 * The Redis storage of the request throttler: a fixed window with a block, kept in one hash per key. Which runs
 * and exactly which configurations bound the admitted requests, and by how much.
 */
module FixedWindow {

  /** The hash of a throttle key and the instant it expires. */
  datatype Key = Missing | Present(hits: nat, blockUntil: int, expireAt: int)

  /** One throttler: window length, hits per window, block duration. */
  datatype Config = Config(ttlMs: int, limit: nat, blockMs: nat)

  datatype Record = Record(totalHits: nat, timeToExpire: int, isBlocked: bool, timeToBlockExpire: int)

  /**
   * A request at `now`. Redis serves a key up to and including the millisecond it expires in, unless it has
   * already dropped it; `dropped` says which, and matters in that one millisecond only.
   */
  datatype Call = Call(now: int, dropped: bool)

  function Load(k: Key, call: Call): Key {
    if k.Present? && (call.now > k.expireAt || (call.now == k.expireAt && call.dropped)) then Missing else k
  }

  function ToSeconds(ms: int): int {
    if ms <= 0 then 0 else (ms + 999) / 1000
  }

  function Ttl(k: Key, now: int): int {
    if k.Missing? then -2 else k.expireAt - now
  }

  /** INCREMENT_SCRIPT on the key as Redis serves it. */
  function Script(c: Config, k: Key, now: int): (Key, Record) {
    var stored := if k.Present? then k.hits else 0;
    var block := if k.Present? then k.blockUntil else 0;
    var windowTtl := Ttl(k, now);
    if block > now then (k, Record(stored, ToSeconds(windowTtl), true, ToSeconds(block - now)))
    else
      var hits := (if block > 0 then 0 else stored) + 1;
      var timeToExpire := if windowTtl <= 0 then c.ttlMs else windowTtl;
      var blocked := hits > c.limit;
      var until := if blocked then now + c.blockMs else block;
      var keyTtl := if until > now && until - now > timeToExpire then until - now else timeToExpire;
      (Present(hits, until, now + keyTtl),
       Record(hits, ToSeconds(timeToExpire), blocked, ToSeconds(if blocked then c.blockMs else 0)))
  }

  function Next(c: Config, k: Key, call: Call): Key {
    Script(c, Load(k, call), call.now).0
  }

  predicate Allowed(c: Config, k: Key, call: Call) {
    !Script(c, Load(k, call), call.now).1.isBlocked
  }

  // ----- runs -----

  /** Time is positive and does not run back; with `sharp` expiry a key is gone in its last millisecond. */
  predicate Timed(calls: seq<Call>, from: int, sharp: bool) {
    calls == [] ||
    (0 < calls[0].now && from <= calls[0].now && (sharp ==> calls[0].dropped) && Timed(calls[1..], calls[0].now, sharp))
  }

  /** Requests admitted at times in `[start, end)`. */
  function Admitted(c: Config, k: Key, calls: seq<Call>, start: int, end: int): nat
    decreases |calls|
  {
    if calls == [] then 0
    else
      (if Allowed(c, k, calls[0]) && start <= calls[0].now < end then 1 else 0)
      + Admitted(c, Next(c, k, calls[0]), calls[1..], start, end)
  }

  function Final(c: Config, k: Key, calls: seq<Call>): Key
    decreases |calls|
  {
    if calls == [] then k else Final(c, Next(c, k, calls[0]), calls[1..])
  }

  /** Requests of a whole run admitted in one window length from `start`. */
  function AdmittedFrom(c: Config, calls: seq<Call>, start: int): nat {
    Admitted(c, Missing, calls, start, start + c.ttlMs)
  }

  /** No stretch as long as the window ever admits more than twice the limit. */
  ghost predicate TwiceLimit(c: Config, sharp: bool) {
    forall calls, start :: Timed(calls, 1, sharp) ==> AdmittedFrom(c, calls, start) <= 2 * c.limit
  }

  // ----- the invariant of a live key -----

  /** The key served still carries a block that has passed: the script then forgets the hits and writes it back. */
  predicate Stale(k: Key, now: int) {
    k.Present? && 0 < k.blockUntil <= now
  }

  /** No request of the run is served a key with a passed block. */
  predicate NeverStale(c: Config, k: Key, calls: seq<Call>)
    decreases |calls|
  {
    calls == [] || (!Stale(Load(k, calls[0]), calls[0].now) && NeverStale(c, Next(c, k, calls[0]), calls[1..]))
  }

  /** A key without a block is within its limit and one window of the clock; a block never outlasts its key. */
  predicate InShape(c: Config, k: Key, now: int) {
    k.Present? ==>
      || (k.blockUntil == 0 && k.hits <= c.limit && k.expireAt <= now + c.ttlMs)
      || 0 < k.blockUntil <= k.expireAt
  }

  lemma StepKeepsShape(c: Config, k: Key, call: Call, was: int)
    requires c.ttlMs >= 1 && InShape(c, k, was) && was <= call.now && 0 < call.now
    requires !Stale(Load(k, call), call.now)
    ensures InShape(c, Next(c, k, call), call.now)
  {
  }

  /** A key that is not past its expiry: either no block is open, or the block lasts exactly as long as the key. */
  predicate Tidy(c: Config, k: Key, now: int) {
    k.Present? && now < k.expireAt ==>
      || (k.blockUntil == 0 && k.hits <= c.limit && k.expireAt <= now + c.ttlMs)
      || k.blockUntil == k.expireAt
  }

  lemma StepKeepsTidy(c: Config, k: Key, call: Call, was: int)
    requires c.ttlMs >= 1 && c.blockMs >= c.ttlMs && InShape(c, k, was) && Tidy(c, k, was)
    requires was <= call.now && 0 < call.now && !Stale(Load(k, call), call.now)
    ensures Tidy(c, Next(c, k, call), call.now)
  {
  }

  /**
   * With a block at least as long as the window, a live key's block is absent or ends with the key, as long as no
   * passed block has been served.
   */
  lemma {:induction false} KeyIsTidy(c: Config, k: Key, calls: seq<Call>, from: int)
    requires c.ttlMs >= 1 && c.blockMs >= c.ttlMs && InShape(c, k, from) && Tidy(c, k, from)
    requires Timed(calls, from, false) && NeverStale(c, k, calls)
    ensures Tidy(c, Final(c, k, calls), if calls == [] then from else calls[|calls| - 1].now)
    decreases |calls|
  {
    if calls == [] {
    } else {
      StepKeepsTidy(c, k, calls[0], from);
      StepKeepsShape(c, k, calls[0], from);
      KeyIsTidy(c, Next(c, k, calls[0]), calls[1..], calls[0].now);
    }
  }

  /** Nothing is admitted while a block is open, and the key does not change. */
  lemma {:induction false} NothingDuringBlock(c: Config, k: Key, calls: seq<Call>, from: int, sharp: bool)
    requires k.Present? && k.blockUntil <= k.expireAt && Timed(calls, from, sharp)
    requires forall i :: 0 <= i < |calls| ==> calls[i].now < k.blockUntil
    ensures forall start, end :: Admitted(c, k, calls, start, end) == 0
    ensures Final(c, k, calls) == k
    decreases |calls|
  {
    if calls == [] {
    } else {
      assert Next(c, k, calls[0]) == k && !Allowed(c, k, calls[0]);
      NothingDuringBlock(c, k, calls[1..], calls[0].now, sharp);
    }
  }

  // ----- the bound -----

  /** Requests that may still be admitted in `[start, start + ttl)`, seen from time `from`. */
  function Budget(c: Config, k: Key, from: int, start: int): int {
    var end := start + c.ttlMs;
    if from >= end then 0
    else if k.Missing? || k.expireAt <= from then (if from >= start then c.limit else 2 * c.limit)
    else
      var rest := if k.blockUntil > 0 then 0 else c.limit - k.hits;
      if k.expireAt >= end then rest
      else if k.expireAt >= start then rest + c.limit
      else 2 * c.limit
  }

  lemma BudgetCovers(c: Config, k: Key, call: Call, from: int, start: int)
    requires c.ttlMs >= 1 && InShape(c, k, from) && from <= call.now && 0 < call.now
    requires !Stale(Load(k, call), call.now)
    ensures var k' := Next(c, k, call);
      (if Allowed(c, k, call) && start <= call.now < start + c.ttlMs then 1 else 0) + Budget(c, k', call.now, start)
        <= Budget(c, k, from, start)
  {
  }

  lemma {:induction false} AdmittedWithinBudget(c: Config, k: Key, calls: seq<Call>, from: int, start: int)
    requires c.ttlMs >= 1 && InShape(c, k, from) && Timed(calls, from, false) && NeverStale(c, k, calls)
    ensures Admitted(c, k, calls, start, start + c.ttlMs) <= Budget(c, k, from, start)
    decreases |calls|
  {
    if calls == [] {
    } else {
      BudgetCovers(c, k, calls[0], from, start);
      StepKeepsShape(c, k, calls[0], from);
      AdmittedWithinBudget(c, Next(c, k, calls[0]), calls[1..], calls[0].now, start);
    }
  }

  /**
   * The bound, for every window and block length, on every run in which no request is served a passed block: any
   * stretch of one window length admits at most twice the limit.
   */
  lemma NeverStaleGivesBound(c: Config, calls: seq<Call>, start: int)
    requires c.ttlMs >= 1 && Timed(calls, 1, false) && NeverStale(c, Missing, calls)
    ensures AdmittedFrom(c, calls, start) <= 2 * c.limit
  {
    AdmittedWithinBudget(c, Missing, calls, 1, start);
  }

  /** A window that opens with a request on a missing key admits at most the limit. */
  lemma WindowAdmitsLimit(c: Config, k: Key, calls: seq<Call>)
    requires c.ttlMs >= 1 && calls != [] && Timed(calls, calls[0].now, false)
    requires k.Missing? || k.expireAt <= calls[0].now
    requires InShape(c, k, calls[0].now) && NeverStale(c, k, calls)
    ensures Admitted(c, k, calls, calls[0].now, calls[0].now + c.ttlMs) <= c.limit
  {
    AdmittedWithinBudget(c, k, calls, calls[0].now, calls[0].now);
  }

  /** With a long block and keys that are gone in their last millisecond, no passed block is ever served. */
  lemma {:induction false} SharpIsNeverStale(c: Config, k: Key, calls: seq<Call>, from: int)
    requires c.ttlMs >= 1 && c.blockMs >= c.ttlMs && InShape(c, k, from) && Tidy(c, k, from) && Timed(calls, from, true)
    ensures NeverStale(c, k, calls) && Timed(calls, from, false)
    decreases |calls|
  {
    if calls == [] {
    } else {
      StepKeepsTidy(c, k, calls[0], from);
      StepKeepsShape(c, k, calls[0], from);
      SharpIsNeverStale(c, Next(c, k, calls[0]), calls[1..], calls[0].now);
    }
  }

  // ----- what a client is told -----

  /** Whole seconds, rounded up: the fewest that cover the milliseconds. */
  lemma SecondsCover(ms: int, s: nat)
    ensures ToSeconds(ms) <= s <==> ms <= 1000 * s
  {
  }

  /** What the script answers to each request of a run. */
  function Replies(c: Config, k: Key, calls: seq<Call>): (r: seq<Record>)
    ensures |r| == |calls|
    decreases |calls|
  {
    if calls == [] then []
    else [Script(c, Load(k, calls[0]), calls[0].now).1] + Replies(c, Next(c, k, calls[0]), calls[1..])
  }

  /** A window opened at `since` that has counted `hits` requests, all within the limit. */
  predicate Opened(c: Config, k: Key, since: int, hits: nat) {
    hits <= c.limit && if hits == 0 then k.Missing? else k == Present(hits, 0, since + c.ttlMs)
  }

  /** The answer to the request numbered `n` of a window, made at `now`. */
  function Told(c: Config, since: int, n: nat, now: int): Record {
    Record(n, ToSeconds(since + c.ttlMs - now), n > c.limit, if n > c.limit then ToSeconds(c.blockMs) else 0)
  }

  lemma OpenedStep(c: Config, k: Key, call: Call, since: int, hits: nat)
    requires c.ttlMs >= 1 && 0 < since <= call.now < since + c.ttlMs && Opened(c, k, since, hits)
    requires hits == 0 ==> since == call.now
    ensures Script(c, Load(k, call), call.now).1 == Told(c, since, hits + 1, call.now)
    ensures hits < c.limit ==> Opened(c, Next(c, k, call), since, hits + 1)
  {
  }

  /**
   * The first window of a key: its requests are numbered from one, all are told when the window ends, and exactly the
   * one past the limit is refused, with the length of the block.
   */
  lemma {:induction false} FirstWindow(c: Config, k: Key, calls: seq<Call>, since: int, hits: nat, i: nat)
    requires c.ttlMs >= 1 && Opened(c, k, since, hits) && 0 < since && hits + |calls| <= c.limit + 1 && i < |calls|
    requires Timed(calls, since, false) && (hits == 0 ==> calls[0].now == since)
    requires forall j :: 0 <= j < |calls| ==> calls[j].now < since + c.ttlMs
    ensures Replies(c, k, calls)[i] == Told(c, since, hits + i + 1, calls[i].now)
    decreases i
  {
    OpenedStep(c, k, calls[0], since, hits);
    if i == 0 {
    } else {
      TimedLater(calls[1..], calls[0].now, since);
      FirstWindow(c, Next(c, k, calls[0]), calls[1..], since, hits + 1, i - 1);
    }
  }

  lemma TimedLater(calls: seq<Call>, from: int, was: int)
    requires Timed(calls, from, false) && was <= from
    ensures Timed(calls, was, false)
  {
  }

  /** No key outlives its block, whatever was served before. */
  predicate BlockWithin(k: Key) {
    k.Present? ==> k.blockUntil <= k.expireAt
  }

  lemma {:induction false} BlockStaysWithin(c: Config, k: Key, calls: seq<Call>, from: int)
    requires c.ttlMs >= 1 && BlockWithin(k) && Timed(calls, from, false)
    ensures BlockWithin(Final(c, k, calls))
    decreases |calls|
  {
    if calls == [] {
    } else {
      assert BlockWithin(Next(c, k, calls[0]));
      BlockStaysWithin(c, Next(c, k, calls[0]), calls[1..], calls[0].now);
    }
  }

  /** A refusal leaves a key with a block, and tells how long it lasts. */
  lemma RefusalHint(c: Config, k: Key, call: Call)
    requires c.ttlMs >= 1 && BlockWithin(k) && 0 < call.now && !Allowed(c, k, call)
    ensures var k' := Next(c, k, call);
      && k'.Present? && BlockWithin(k') && call.now <= k'.blockUntil
      && Script(c, Load(k, call), call.now).1.timeToBlockExpire == ToSeconds(k'.blockUntil - call.now)
  {
  }

  /**
   * The hint given with a refusal is exact: whatever the client sends in between, a request is let through once the
   * seconds have passed and refused while a whole second of them is left.
   */
  lemma HintIsExact(c: Config, before: seq<Call>, call: Call, between: seq<Call>, last: Call)
    requires c.ttlMs >= 1 && c.limit >= 1 && Timed(before, 1, false) && Timed(between, call.now, false) && 0 < call.now
    requires !Allowed(c, Final(c, Missing, before), call)
    requires var k' := Next(c, Final(c, Missing, before), call);
      forall i :: 0 <= i < |between| ==> between[i].now < k'.blockUntil
    requires call.now <= last.now
    ensures var k := Final(c, Missing, before);
      var hint := Script(c, Load(k, call), call.now).1.timeToBlockExpire;
      var k' := Final(c, Next(c, k, call), between);
      && (last.now >= call.now + 1000 * hint ==> Allowed(c, k', last))
      && (last.now <= call.now + 1000 * (hint - 1) ==> !Allowed(c, k', last))
  {
    var k := Final(c, Missing, before);
    BlockStaysWithin(c, Missing, before, 1);
    RefusalHint(c, k, call);
    var k' := Next(c, k, call);
    var hint := ToSeconds(k'.blockUntil - call.now);
    NothingDuringBlock(c, k', between, call.now, false);
    SecondsCover(k'.blockUntil - call.now, hint);
    if hint > 0 {
      SecondsCover(k'.blockUntil - call.now, hint - 1);
    }
  }

  // ----- the configurations that do not bound anything -----

  function Repeat(call: Call, n: nat): seq<Call> {
    if n == 0 then [] else [call] + Repeat(call, n - 1)
  }

  lemma {:induction false} RepeatTimed(call: Call, n: nat, from: int, sharp: bool, rest: seq<Call>)
    requires 0 < call.now && from <= call.now && (sharp ==> call.dropped) && Timed(rest, call.now, sharp)
    requires n == 0 ==> from == call.now
    ensures Timed(Repeat(call, n) + rest, from, sharp)
  {
    if n == 0 {
      assert Repeat(call, n) + rest == rest;
    } else {
      assert (Repeat(call, n) + rest)[1..] == Repeat(call, n - 1) + rest;
      RepeatTimed(call, n - 1, call.now, sharp, rest);
    }
  }

  lemma {:induction false} AdmittedConcat(c: Config, k: Key, a: seq<Call>, b: seq<Call>, start: int, end: int)
    ensures Admitted(c, k, a + b, start, end) == Admitted(c, k, a, start, end) + Admitted(c, Final(c, k, a), b, start, end)
    decreases |a|
  {
    if a == [] {
      assert a + b == b;
    } else {
      assert (a + b)[1..] == a[1..] + b;
      AdmittedConcat(c, Next(c, k, a[0]), a[1..], b, start, end);
    }
  }

  /** `n` requests in one millisecond on a key within its limit count up. */
  lemma {:induction false} CountUp(c: Config, k: Key, t: int, n: nat)
    requires c.ttlMs >= 1 && 0 < t
    requires k.Missing? || (k.blockUntil == 0 && k.expireAt == t + c.ttlMs)
    requires n >= 1 && (if k.Present? then k.hits else 0) + n <= c.limit
    ensures Final(c, k, Repeat(Call(t, true), n)) == Present((if k.Present? then k.hits else 0) + n, 0, t + c.ttlMs)
    decreases n
  {
    var call := Call(t, true);
    assert Repeat(call, n)[1..] == Repeat(call, n - 1) && Repeat(call, n)[0] == call;
    if n > 1 {
      CountUp(c, Next(c, k, call), t, n - 1);
    } else {
      assert Repeat(call, 0) == [];
    }
  }

  /** A key served with a passed block forgets its hits on every request: any number in one instant is admitted. */
  lemma {:induction false} StaleAdmitsAll(c: Config, k: Key, call: Call, n: nat, start: int, end: int)
    requires c.ttlMs >= 1 && c.limit >= 1 && 0 < call.now && start <= call.now < end
    requires Stale(Load(k, call), call.now)
    ensures Admitted(c, k, Repeat(call, n), start, end) == n
    decreases n
  {
    if n == 0 {
    } else {
      assert Repeat(call, n)[1..] == Repeat(call, n - 1) && Repeat(call, n)[0] == call;
      StaleAdmitsAll(c, Next(c, k, call), call, n - 1, start, end);
    }
  }

  /** One request too many in the first millisecond opens a block. */
  lemma OpenBlock(c: Config) returns (calls: seq<Call>)
    requires c.ttlMs >= 1 && c.limit >= 1
    ensures calls == Repeat(Call(1, true), c.limit) + [Call(1, true)]
    ensures Final(c, Missing, calls) ==
      Present(c.limit + 1, 1 + c.blockMs, 1 + if c.blockMs > c.ttlMs then c.blockMs else c.ttlMs)
  {
    var call := Call(1, true);
    calls := Repeat(call, c.limit) + [call];
    CountUp(c, Missing, 1, c.limit);
    FinalConcat(c, Missing, Repeat(call, c.limit), [call]);
    assert [call][1..] == [];
  }

  lemma {:induction false} FinalConcat(c: Config, k: Key, a: seq<Call>, b: seq<Call>)
    ensures Final(c, k, a + b) == Final(c, Final(c, k, a), b)
    decreases |a|
  {
    if a == [] {
      assert a + b == b;
    } else {
      assert (a + b)[1..] == a[1..] + b;
      FinalConcat(c, Next(c, k, a[0]), a[1..], b);
    }
  }

  /** Any number of requests can be admitted within one window once a passed block is still stored. */
  lemma Unlimited(c: Config, sharp: bool, n: nat) returns (calls: seq<Call>, start: int)
    requires c.ttlMs >= 1 && c.limit >= 1 && (c.blockMs < c.ttlMs || !sharp)
    ensures Timed(calls, 1, sharp)
    ensures AdmittedFrom(c, calls, start) >= n
  {
    var first := OpenBlock(c);
    var k := Final(c, Missing, first);
    var t := 1 + c.blockMs;
    var burst := Repeat(Call(t, sharp), n);
    calls, start := first + burst, t;
    StaleAdmitsAll(c, k, Call(t, sharp), n, start, start + c.ttlMs);
    AdmittedConcat(c, Missing, first, burst, start, start + c.ttlMs);
    assert burst + [] == burst;
    BurstTimed(t, sharp, n);
    var tail := [Call(1, true)] + burst;
    assert tail[1..] == burst;
    RepeatTimed(Call(1, true), c.limit, 1, sharp, tail);
    assert first + burst == Repeat(Call(1, true), c.limit) + tail;
  }

  lemma {:induction false} BurstTimed(t: int, sharp: bool, n: nat)
    requires t >= 1
    ensures Timed(Repeat(Call(t, sharp), n), 1, sharp) && Timed(Repeat(Call(t, sharp), n), t, sharp)
  {
    if n == 0 {
    } else {
      assert Repeat(Call(t, sharp), n)[1..] == Repeat(Call(t, sharp), n - 1);
      BurstTimed(t, sharp, n - 1);
    }
  }

  lemma {:induction false} RepeatNeverStale(c: Config, k: Key, call: Call, n: nat)
    requires c.ttlMs >= 1 && c.blockMs >= 1 && 0 < call.now && !Stale(Load(k, call), call.now)
    requires k.Present? ==> k.blockUntil >= 0
    ensures NeverStale(c, k, Repeat(call, n))
    decreases n
  {
    if n == 0 {
    } else {
      assert Repeat(call, n)[1..] == Repeat(call, n - 1) && Repeat(call, n)[0] == call;
      RepeatNeverStale(c, Next(c, k, call), call, n - 1);
    }
  }

  lemma {:induction false} NeverStaleConcat(c: Config, k: Key, a: seq<Call>, b: seq<Call>)
    requires NeverStale(c, k, a) && NeverStale(c, Final(c, k, a), b)
    ensures NeverStale(c, k, a + b)
    decreases |a|
  {
    if a == [] {
      assert a + b == b;
    } else {
      assert (a + b)[1..] == a[1..] + b;
      NeverStaleConcat(c, Next(c, k, a[0]), a[1..], b);
    }
  }

  lemma {:induction false} ShapeAfter(c: Config, k: Key, calls: seq<Call>, from: int)
    requires c.ttlMs >= 1 && InShape(c, k, from) && Timed(calls, from, false) && NeverStale(c, k, calls)
    ensures InShape(c, Final(c, k, calls), if calls == [] then from else calls[|calls| - 1].now)
    decreases |calls|
  {
    if calls == [] {
    } else {
      StepKeepsShape(c, k, calls[0], from);
      ShapeAfter(c, Next(c, k, calls[0]), calls[1..], calls[0].now);
    }
  }

  lemma {:induction false} RepeatLast(calls: seq<Call>, call: Call, n: nat, from: int)
    requires Timed(calls + [call], from, false)
    ensures Timed(calls + Repeat(call, n), from, false)
    decreases |calls|
  {
    if calls == [] {
      assert calls + [call] == [call] && calls + Repeat(call, n) == Repeat(call, n);
      assert Repeat(call, n) + [] == Repeat(call, n);
      if n > 0 { RepeatTimed(call, n, from, false, []); }
    } else {
      assert (calls + [call])[1..] == calls[1..] + [call];
      assert (calls + Repeat(call, n))[1..] == calls[1..] + Repeat(call, n);
      RepeatLast(calls[1..], call, n, calls[0].now);
    }
  }

  /**
   * The guard that decides, run by run: however often its last request is repeated, a run stays within twice the
   * limit if and only if that request is not served a passed block.
   */
  lemma BoundedBurstIff(c: Config, calls: seq<Call>, call: Call)
    requires c.ttlMs >= 1 && c.limit >= 1 && c.blockMs >= 1
    requires Timed(calls + [call], 1, false) && NeverStale(c, Missing, calls)
    ensures (forall n: nat, start :: AdmittedFrom(c, calls + Repeat(call, n), start) <= 2 * c.limit)
       <==> !Stale(Load(Final(c, Missing, calls), call), call.now)
  {
    var k := Final(c, Missing, calls);
    assert 0 < call.now && Timed(calls, 1, false) by { TimedParts(calls, call, 1); }
    ShapeAfter(c, Missing, calls, 1);
    if Stale(Load(k, call), call.now) {
      var n := 2 * c.limit + 1;
      StaleAdmitsAll(c, k, call, n, call.now, call.now + c.ttlMs);
      AdmittedConcat(c, Missing, calls, Repeat(call, n), call.now, call.now + c.ttlMs);
      assert AdmittedFrom(c, calls + Repeat(call, n), call.now) > 2 * c.limit;
    } else {
      forall n: nat, start ensures AdmittedFrom(c, calls + Repeat(call, n), start) <= 2 * c.limit {
        RepeatNeverStale(c, k, call, n);
        NeverStaleConcat(c, Missing, calls, Repeat(call, n));
        RepeatLast(calls, call, n, 1);
        NeverStaleGivesBound(c, calls + Repeat(call, n), start);
      }
    }
  }

  lemma {:induction false} TimedParts(calls: seq<Call>, call: Call, from: int)
    requires Timed(calls + [call], from, false)
    ensures Timed(calls, from, false) && 0 < call.now
    decreases |calls|
  {
    if calls == [] {
      assert (calls + [call])[0] == call;
    } else {
      assert (calls + [call])[1..] == calls[1..] + [call];
      TimedParts(calls[1..], call, calls[0].now);
    }
  }

  lemma {:induction false} ZeroLimitAdmitsNothing(c: Config, k: Key, calls: seq<Call>, start: int, end: int)
    requires c.limit == 0
    ensures Admitted(c, k, calls, start, end) == 0
    decreases |calls|
  {
    if calls == [] {
    } else {
      ZeroLimitAdmitsNothing(c, Next(c, k, calls[0]), calls[1..], start, end);
    }
  }

  /**
   * Exactly when the throttler bounds its traffic: any stretch of one window length admits at most twice the
   * limit if and only if nothing is admitted at all, or the block lasts at least as long as the window and a
   * key is never served in the millisecond it expires in.
   */
  lemma BoundedIff(c: Config, sharp: bool)
    requires c.ttlMs >= 1
    ensures TwiceLimit(c, sharp) <==> c.limit == 0 || (c.blockMs >= c.ttlMs && sharp)
  {
    if c.limit == 0 {
      forall calls, start | Timed(calls, 1, sharp)
        ensures AdmittedFrom(c, calls, start) <= 2 * c.limit
      {
        ZeroLimitAdmitsNothing(c, Missing, calls, start, start + c.ttlMs);
      }
    } else if c.blockMs >= c.ttlMs && sharp {
      forall calls, start | Timed(calls, 1, true) ensures AdmittedFrom(c, calls, start) <= 2 * c.limit {
        SharpIsNeverStale(c, Missing, calls, 1);
        NeverStaleGivesBound(c, calls, start);
      }
    } else {
      var calls, start := Unlimited(c, sharp, 2 * c.limit + 1);
    }
  }

  // ----- the storage object -----

  class RedisThrottlerStorage {
    var keys: map<string, Key>

    constructor ()
      ensures keys == map[]
    {
      keys := map[];
    }

    /** `increment`: the script, or an answer that lets the request pass when Redis cannot be reached. */
    method Increment(key: string, c: Config, call: Call, reachable: bool) returns (r: Record)
      modifies this
      ensures reachable ==>
        var k := Load(if key in old(keys) then old(keys)[key] else Missing, call);
        keys == old(keys)[key := Script(c, k, call.now).0] && r == Script(c, k, call.now).1
      ensures !reachable ==> keys == old(keys) && r == Record(1, (c.ttlMs + 999) / 1000, false, 0)
    {
      if !reachable {
        return Record(1, (c.ttlMs + 999) / 1000, false, 0);
      }
      var now := call.now;
      var k := Load(if key in keys then keys[key] else Missing, call);
      var hits := if k.Present? then k.hits else 0;
      var blockUntil := if k.Present? then k.blockUntil else 0;
      var windowTtl := Ttl(k, now);
      if blockUntil > now {
        keys := keys[key := k];
        return Record(hits, ToSeconds(windowTtl), true, ToSeconds(blockUntil - now));
      }
      if blockUntil > 0 {
        hits := 0;
      }
      hits := hits + 1;
      var timeToExpire := windowTtl;
      if timeToExpire <= 0 {
        timeToExpire := c.ttlMs;
      }
      var isBlocked := false;
      var timeToBlockExpire := 0;
      if hits > c.limit {
        isBlocked := true;
        blockUntil := now + c.blockMs;
        timeToBlockExpire := c.blockMs;
      }
      var keyTtl := timeToExpire;
      if blockUntil > now && blockUntil - now > keyTtl {
        keyTtl := blockUntil - now;
      }
      keys := keys[key := Present(hits, blockUntil, now + keyTtl)];
      return Record(hits, ToSeconds(timeToExpire), isBlocked, ToSeconds(timeToBlockExpire));
    }
  }
}
