/**
 * The bounded in-memory cache with per-entry deadlines. A JavaScript `Map` keeps its keys in insertion order,
 * and the cache uses that order as recency: it is modelled as the list of entries, oldest first.
 */
module TtlCache {
  import opened Wrappers

  datatype Entry<V> = Entry(value: V, expiresAt: int)

  datatype Item<V> = Item(key: string, entry: Entry<V>)

  // ----- Map operations -----

  function Lookup<V>(m: seq<Item<V>>, key: string): Option<Entry<V>> {
    if m == [] then None
    else if m[0].key == key then Some(m[0].entry)
    else Lookup(m[1..], key)
  }

  function Without<V>(m: seq<Item<V>>, key: string): seq<Item<V>> {
    if m == [] then []
    else if m[0].key == key then Without(m[1..], key)
    else [m[0]] + Without(m[1..], key)
  }

  ghost function KeysOf<V>(m: seq<Item<V>>): set<string> {
    set x | x in m :: x.key
  }

  predicate DistinctKeys<V>(m: seq<Item<V>>) {
    forall i, j :: 0 <= i < j < |m| ==> m[i].key != m[j].key
  }

  // ----- the cache as a function of its trace -----

  datatype Cache<V> = Cache(items: seq<Item<V>>, hits: nat, misses: nat)

  datatype Op<V> =
    | Get(key: string, now: int)
    | Set(key: string, value: V, ttlMs: int, now: int)
    | Delete(key: string)
    | Clear

  datatype Reply<V> = Hit(value: V) | Miss | Done

  function Empty<V>(): Cache<V> {
    Cache([], 0, 0)
  }

  /** Keeps the newest `max` entries. */
  function Newest<V>(m: seq<Item<V>>, max: nat): seq<Item<V>> {
    if |m| > max then m[|m| - max..] else m
  }

  /** `get`: an expired entry is dropped, a fresh one becomes the newest. */
  function GetItems<V>(m: seq<Item<V>>, key: string, now: int): seq<Item<V>> {
    match Lookup(m, key)
    case None => m
    case Some(e) => if e.expiresAt <= now then Without(m, key) else Without(m, key) + [Item(key, e)]
  }

  function GetReply<V>(m: seq<Item<V>>, key: string, now: int): Reply<V> {
    match Lookup(m, key)
    case None => Miss
    case Some(e) => if e.expiresAt <= now then Miss else Hit(e.value)
  }

  function SetItems<V>(m: seq<Item<V>>, max: nat, key: string, value: V, ttlMs: int, now: int): seq<Item<V>> {
    Newest(Without(m, key) + [Item(key, Entry(value, now + ttlMs))], max)
  }

  function Apply<V>(max: nat, c: Cache<V>, op: Op<V>): Cache<V> {
    match op
    case Get(key, now) =>
      var hit := GetReply(c.items, key, now).Hit?;
      Cache(GetItems(c.items, key, now), c.hits + (if hit then 1 else 0), c.misses + (if hit then 0 else 1))
    case Set(key, value, ttlMs, now) => c.(items := SetItems(c.items, max, key, value, ttlMs, now))
    case Delete(key) => c.(items := Without(c.items, key))
    case Clear => Empty()
  }

  function ReplyOf<V>(c: Cache<V>, op: Op<V>): Reply<V> {
    if op.Get? then GetReply(c.items, op.key, op.now) else Done
  }

  function Run<V>(max: nat, ops: seq<Op<V>>): Cache<V> {
    if ops == [] then Empty() else Apply(max, Run(max, ops[..|ops| - 1]), ops[|ops| - 1])
  }

  /** What the i-th operation of the trace answers. */
  function ReplyAt<V>(max: nat, ops: seq<Op<V>>, i: nat): Reply<V>
    requires i < |ops|
  {
    ReplyOf(Run(max, ops[..i]), ops[i])
  }

  // ----- the counters -----

  /** The lookups since the last `clear` that were hits, or that were misses. */
  ghost function Lookups<V>(max: nat, ops: seq<Op<V>>, hit: bool): set<nat> {
    set i: nat | i < |ops| && CountsAs(max, ops, i, hit)
  }

  ghost predicate CountsAs<V>(max: nat, ops: seq<Op<V>>, i: nat, hit: bool)
    requires i < |ops|
  {
    && ops[i].Get? && ReplyAt(max, ops, i).Hit? == hit
    && forall j :: i < j < |ops| ==> !ops[j].Clear?
  }

  lemma CountsAsMore<V>(max: nat, ops: seq<Op<V>>, i: nat, hit: bool)
    requires i < |ops| - 1
    ensures CountsAs(max, ops, i, hit) <==> !ops[|ops| - 1].Clear? && CountsAs(max, ops[..|ops| - 1], i, hit)
  {
    assert ops[..|ops| - 1][..i] == ops[..i];
    var front := ops[..|ops| - 1];
    assert forall j :: i < j < |front| ==> front[j] == ops[j];
  }

  lemma LookupsMore<V>(max: nat, ops: seq<Op<V>>, hit: bool)
    requires ops != []
    ensures var last := |ops| - 1;
      |Lookups(max, ops, hit)| ==
        if ops[last].Clear? then 0
        else |Lookups(max, ops[..last], hit)| + if CountsAs(max, ops, last, hit) then 1 else 0
  {
    var last := |ops| - 1;
    forall i: nat | i < |ops| - 1
      ensures CountsAs(max, ops, i, hit) <==> !ops[|ops| - 1].Clear? && CountsAs(max, ops[..|ops| - 1], i, hit)
    {
      CountsAsMore(max, ops, i, hit);
    }
    OneMore(Lookups(max, ops[..last], hit), Lookups(max, ops, hit), last, ops[last].Clear?, CountsAs(max, ops, last, hit));
  }

  lemma OneMore(a: set<nat>, b: set<nat>, last: nat, cleared: bool, counts: bool)
    requires forall i :: i in a ==> i < last
    requires forall i :: i in b <==> (i < last && !cleared && i in a) || (i == last && counts)
    requires cleared ==> !counts
    ensures |b| == if cleared then 0 else |a| + if counts then 1 else 0
  {
    if cleared {
      assert b == {};
    } else if counts {
      assert b == a + {last};
    } else {
      assert b == a;
    }
  }

  /** The counters are the numbers of hits and of misses answered since the last `clear`. */
  lemma {:induction false} CountersAreLookups<V>(max: nat, ops: seq<Op<V>>)
    ensures Run(max, ops).hits == |Lookups(max, ops, true)| && Run(max, ops).misses == |Lookups(max, ops, false)|
  {
    if ops == [] {
    } else {
      CountersAreLookups(max, ops[..|ops| - 1]);
      LookupsMore(max, ops, true);
      LookupsMore(max, ops, false);
    }
  }

  // ----- lemmas about Map operations -----

  lemma {:induction false} WithoutMembers<V>(m: seq<Item<V>>, key: string)
    ensures forall x :: x in Without(m, key) <==> x in m && x.key != key
  {
    if m == [] {
    } else {
      WithoutMembers(m[1..], key);
      assert m == [m[0]] + m[1..];
    }
  }

  lemma WithoutKeys<V>(m: seq<Item<V>>, key: string)
    ensures KeysOf(Without(m, key)) == KeysOf(m) - {key}
  {
    WithoutMembers(m, key);
    forall k | k in KeysOf(m) - {key} ensures k in KeysOf(Without(m, key)) {
      var x :| x in m && x.key == k;
      assert x in Without(m, key);
    }
    forall k | k in KeysOf(Without(m, key)) ensures k in KeysOf(m) - {key} {
      var x :| x in Without(m, key) && x.key == k;
      assert x in m;
    }
  }

  lemma {:induction false} WithoutProps<V>(m: seq<Item<V>>, key: string)
    requires DistinctKeys(m)
    ensures DistinctKeys(Without(m, key)) && KeysOf(Without(m, key)) == KeysOf(m) - {key}
    ensures |Without(m, key)| == if key in KeysOf(m) then |m| - 1 else |m|
    ensures key !in KeysOf(m) ==> Without(m, key) == m
    ensures key in KeysOf(m) <==> Lookup(m, key).Some?
  {
    WithoutKeys(m, key);
    if m == [] {
    } else {
      WithoutProps(m[1..], key);
      assert m == [m[0]] + m[1..];
      assert KeysOf(m) == {m[0].key} + KeysOf(m[1..]);
      assert m[0].key !in KeysOf(m[1..]);
      var rest := Without(m[1..], key);
      forall k | 0 <= k < |rest| ensures rest[k].key != m[0].key {
        assert rest[k].key in KeysOf(rest);
      }
    }
  }

  lemma {:induction false} LookupItem<V>(m: seq<Item<V>>, i: nat)
    requires DistinctKeys(m) && i < |m|
    ensures Lookup(m, m[i].key) == Some(m[i].entry)
  {
    if i == 0 {
    } else {
      LookupItem(m[1..], i - 1);
    }
  }

  lemma {:induction false} LookupFound<V>(m: seq<Item<V>>, key: string)
    requires Lookup(m, key).Some?
    ensures Item(key, Lookup(m, key).value) in m
  {
    if m[0].key == key {
    } else {
      LookupFound(m[1..], key);
    }
  }

  // ----- inclusion -----

  /** What remains of `m` when the keys outside `keys` are struck out. */
  function Keep<V>(m: seq<Item<V>>, keys: set<string>): seq<Item<V>> {
    if m == [] then []
    else if m[0].key in keys then [m[0]] + Keep(m[1..], keys)
    else Keep(m[1..], keys)
  }

  /** `small` is a subsequence of `large` with identical entries. */
  ghost predicate SubsequenceOf<V>(small: seq<Item<V>>, large: seq<Item<V>>) {
    small == Keep(large, KeysOf(small))
  }

  ghost predicate Included<V>(small: seq<Item<V>>, large: seq<Item<V>>, n: nat, m: nat) {
    && DistinctKeys(small) && DistinctKeys(large)
    && SubsequenceOf(small, large)
    && |small| <= n && |large| <= m
    && |large| - |small| <= m - n
  }

  lemma {:induction false} KeepWithout<V>(m: seq<Item<V>>, keys: set<string>, key: string)
    ensures Keep(Without(m, key), keys) == Without(Keep(m, keys), key)
    ensures Keep(m, keys - {key}) == Without(Keep(m, keys), key)
  {
    if m == [] {
    } else {
      KeepWithout(m[1..], keys, key);
    }
  }

  lemma {:induction false} KeepAppend<V>(m: seq<Item<V>>, x: Item<V>, keys: set<string>)
    ensures Keep(m + [x], keys) == Keep(m, keys) + if x.key in keys then [x] else []
  {
    if m == [] {
      assert m + [x] == [x] && [x][1..] == [];
    } else {
      assert (m + [x])[1..] == m[1..] + [x];
      KeepAppend(m[1..], x, keys);
    }
  }

  lemma {:induction false} KeepIgnores<V>(m: seq<Item<V>>, keys: set<string>, key: string)
    requires key !in KeysOf(m)
    ensures Keep(m, keys + {key}) == Keep(m, keys)
  {
    if m == [] {
    } else {
      assert m[0] in m;
      assert KeysOf(m[1..]) <= KeysOf(m);
      KeepIgnores(m[1..], keys, key);
    }
  }

  lemma {:induction false} LookupKept<V>(m: seq<Item<V>>, keys: set<string>, key: string)
    ensures key in keys ==> Lookup(Keep(m, keys), key) == Lookup(m, key)
    ensures key !in keys ==> Lookup(Keep(m, keys), key).None?
  {
    if m == [] {
    } else {
      LookupKept(m[1..], keys, key);
    }
  }

  lemma WithoutKeepsInclusion<V>(s: seq<Item<V>>, l: seq<Item<V>>, n: nat, m: nat, key: string)
    requires n <= m && Included(s, l, n, m)
    ensures Included(Without(s, key), Without(l, key), n, m)
    ensures key !in KeysOf(Without(s, key)) && key !in KeysOf(Without(l, key))
  {
    WithoutProps(s, key);
    WithoutProps(l, key);
    KeepWithout(l, KeysOf(s), key);
    KeepWithout(Without(l, key), KeysOf(s), key);
    WithoutProps(Without(s, key), key);
    assert Keep(Without(l, key), KeysOf(s) - {key}) == Without(Keep(Without(l, key), KeysOf(s)), key);
    LookupInBoth(s, l, key);
  }

  lemma LookupInBoth<V>(s: seq<Item<V>>, l: seq<Item<V>>, key: string)
    requires DistinctKeys(s) && DistinctKeys(l) && SubsequenceOf(s, l)
    ensures Lookup(s, key).Some? ==> Lookup(l, key) == Lookup(s, key)
    ensures key in KeysOf(s) ==> key in KeysOf(l)
  {
    LookupKept(l, KeysOf(s), key);
    WithoutProps(s, key);
    WithoutProps(l, key);
  }

  /** Appending the same new entry to both. */
  lemma AppendKeepsInclusion<V>(s: seq<Item<V>>, l: seq<Item<V>>, x: Item<V>)
    requires DistinctKeys(s) && DistinctKeys(l) && SubsequenceOf(s, l)
    requires x.key !in KeysOf(s) && x.key !in KeysOf(l)
    ensures DistinctKeys(s + [x]) && DistinctKeys(l + [x]) && SubsequenceOf(s + [x], l + [x])
  {
    assert forall i :: 0 <= i < |s| ==> s[i].key in KeysOf(s);
    assert forall i :: 0 <= i < |l| ==> l[i].key in KeysOf(l);
    assert KeysOf(s + [x]) == KeysOf(s) + {x.key};
    KeepAppend(l, x, KeysOf(s + [x]));
    KeepIgnores(l, KeysOf(s), x.key);
  }

  /** Dropping the oldest entry of the smaller list only. */
  lemma DropSmall<V>(s: seq<Item<V>>, l: seq<Item<V>>)
    requires DistinctKeys(s) && DistinctKeys(l) && SubsequenceOf(s, l) && s != []
    ensures DistinctKeys(s[1..]) && SubsequenceOf(s[1..], l)
  {
    var k := s[0].key;
    WithoutProps(s, k);
    WithoutProps(s[1..], k);
    assert s == [s[0]] + s[1..];
    assert Without(s, k) == s[1..];
    KeepWithout(l, KeysOf(s), k);
  }

  /** Dropping the oldest entry of both: if the larger one loses an entry both had, it was the oldest of both. */
  lemma DropBoth<V>(s: seq<Item<V>>, l: seq<Item<V>>)
    requires DistinctKeys(s) && DistinctKeys(l) && SubsequenceOf(s, l) && s != [] && l != []
    ensures DistinctKeys(s[1..]) && DistinctKeys(l[1..]) && SubsequenceOf(s[1..], l[1..])
  {
    DropSmall(s, l);
    var k := l[0].key;
    assert k !in KeysOf(s[1..]) by {
      if k in KeysOf(s) {
        assert s[0] == l[0];
      }
      assert s == [s[0]] + s[1..];
    }
  }

  lemma SetKeepsInclusion<V>(s: seq<Item<V>>, l: seq<Item<V>>, n: nat, m: nat, key: string, value: V, ttlMs: int, now: int)
    requires n <= m && Included(s, l, n, m)
    ensures Included(SetItems(s, n, key, value, ttlMs, now), SetItems(l, m, key, value, ttlMs, now), n, m)
  {
    var x := Item(key, Entry(value, now + ttlMs));
    WithoutKeepsInclusion(s, l, n, m, key);
    var s', l' := Without(s, key) + [x], Without(l, key) + [x];
    AppendKeepsInclusion(Without(s, key), Without(l, key), x);
    if |l'| > m {
      DropBoth(s', l');
    } else if |s'| > n {
      DropSmall(s', l');
    }
  }

  lemma GetKeepsInclusion<V>(s: seq<Item<V>>, l: seq<Item<V>>, n: nat, m: nat, key: string, now: int)
    requires n <= m && Included(s, l, n, m)
    ensures Included(GetItems(s, key, now), GetItems(l, key, now), n, m)
    ensures GetReply(s, key, now).Hit? ==> GetReply(l, key, now) == GetReply(s, key, now)
  {
    LookupInBoth(s, l, key);
    WithoutProps(s, key);
    WithoutProps(l, key);
    WithoutKeepsInclusion(s, l, n, m, key);
    if Lookup(l, key).Some? {
      var e := Lookup(l, key).value;
      var x := Item(key, e);
      if e.expiresAt > now {
        AppendKeepsInclusion(Without(s, key), Without(l, key), x);
        if Lookup(s, key).None? {
          KeepAppend(Without(l, key), x, KeysOf(s));
          assert forall i :: 0 <= i < |Without(l, key)| ==> Without(l, key)[i].key in KeysOf(Without(l, key));
        }
      }
    }
  }

  lemma ApplyKeepsInclusion<V>(n: nat, m: nat, s: Cache<V>, l: Cache<V>, op: Op<V>)
    requires n <= m && Included(s.items, l.items, n, m) && s.hits <= l.hits
    ensures var s', l' := Apply(n, s, op), Apply(m, l, op);
      Included(s'.items, l'.items, n, m) && s'.hits <= l'.hits
    ensures ReplyOf(s, op).Hit? ==> ReplyOf(l, op) == ReplyOf(s, op)
  {
    match op {
      case Get(key, now) => GetKeepsInclusion(s.items, l.items, n, m, key, now);
      case Set(key, value, ttlMs, now) => SetKeepsInclusion(s.items, l.items, n, m, key, value, ttlMs, now);
      case Delete(key) => WithoutKeepsInclusion(s.items, l.items, n, m, key);
      case Clear =>
    }
  }

  /**
   * A larger cache never does worse. Fed the same timed trace, the smaller cache is a subsequence of the larger
   * one with a bounded size gap, and its hit count is never higher.
   */
  lemma {:induction false} SmallerIsIncluded<V>(n: nat, m: nat, ops: seq<Op<V>>)
    requires n <= m
    ensures Included(Run(n, ops).items, Run(m, ops).items, n, m)
    ensures Run(n, ops).hits <= Run(m, ops).hits
    decreases |ops|
  {
    if ops == [] {
    } else {
      var last := |ops| - 1;
      SmallerIsIncluded(n, m, ops[..last]);
      ApplyKeepsInclusion(n, m, Run(n, ops[..last]), Run(m, ops[..last]), ops[last]);
    }
  }

  /** Every hit in the smaller cache is the same hit in the larger one. */
  lemma HitsAreShared<V>(n: nat, m: nat, ops: seq<Op<V>>, i: nat)
    requires n <= m && i < |ops| && ReplyAt(n, ops, i).Hit?
    ensures ReplyAt(m, ops, i) == ReplyAt(n, ops, i)
  {
    SmallerIsIncluded(n, m, ops[..i]);
    ApplyKeepsInclusion(n, m, Run(n, ops[..i]), Run(m, ops[..i]), ops[i]);
  }

  // ----- what a hit returns -----

  /** The entry last stored under the key and not deleted since: the cache without capacity or expiry. */
  function Latest<V>(ops: seq<Op<V>>, key: string): Option<Entry<V>> {
    if ops == [] then None
    else
      var op, before := ops[|ops| - 1], Latest(ops[..|ops| - 1], key);
      match op
      case Get(_, _) => before
      case Set(k, value, ttlMs, now) => if k == key then Some(Entry(value, now + ttlMs)) else before
      case Delete(k) => if k == key then None else before
      case Clear => None
  }

  ghost predicate AgreesWithLatest<V>(m: seq<Item<V>>, ops: seq<Op<V>>) {
    forall i :: 0 <= i < |m| ==> Latest(ops, m[i].key) == Some(m[i].entry)
  }

  /** Where the entries after an operation come from. */
  lemma ApplyMembers<V>(max: nat, c: Cache<V>, op: Op<V>, x: Item<V>)
    requires x in Apply(max, c, op).items
    ensures !op.Clear?
    ensures (x in c.items && (op.Get? || x.key != op.key)) ||
            (op.Set? && x == Item(op.key, Entry(op.value, op.now + op.ttlMs)))
  {
    if !op.Clear? {
      WithoutMembers(c.items, op.key);
      if Lookup(c.items, op.key).Some? { LookupFound(c.items, op.key); }
    }
  }

  lemma {:induction false} CacheAgrees<V>(max: nat, ops: seq<Op<V>>)
    ensures DistinctKeys(Run(max, ops).items) && |Run(max, ops).items| <= max
    ensures AgreesWithLatest(Run(max, ops).items, ops)
    decreases |ops|
  {
    SmallerIsIncluded(max, max, ops);
    if ops == [] {
    } else {
      var last := |ops| - 1;
      var before, op := ops[..last], ops[last];
      CacheAgrees(max, before);
      var m' := Run(max, ops).items;
      assert ops == before + [op];
      forall i | 0 <= i < |m'| ensures Latest(ops, m'[i].key) == Some(m'[i].entry) {
        ItemAgrees(max, Run(max, before), before, op, m'[i]);
      }
    }
  }

  lemma ItemAgrees<V>(max: nat, c: Cache<V>, before: seq<Op<V>>, op: Op<V>, x: Item<V>)
    requires AgreesWithLatest(c.items, before) && x in Apply(max, c, op).items
    ensures Latest(before + [op], x.key) == Some(x.entry)
  {
    assert (before + [op])[..|before|] == before;
    ApplyMembers(max, c, op, x);
    if x in c.items {
      var j :| 0 <= j < |c.items| && c.items[j] == x;
    }
  }

  /** A hit returns exactly the value last stored under that key, before its deadline, at every capacity. */
  lemma HitIsLatestAndFresh<V>(max: nat, ops: seq<Op<V>>, i: nat)
    requires i < |ops| && ReplyAt(max, ops, i).Hit?
    ensures ops[i].Get?
    ensures var e := Latest(ops[..i], ops[i].key);
      e.Some? && ReplyAt(max, ops, i) == Hit(e.value.value) && ops[i].now < e.value.expiresAt
  {
    var m := Run(max, ops[..i]).items;
    CacheAgrees(max, ops[..i]);
    LookupFound(m, ops[i].key);
    var j :| 0 <= j < |m| && m[j] == Item(ops[i].key, Lookup(m, ops[i].key).value);
  }

  // ----- eviction order -----

  /** The last operation that touched the key: a store, or a read that hit. */
  function LastTouch<V>(max: nat, ops: seq<Op<V>>, key: string): (r: int)
    ensures -1 <= r < |ops|
  {
    if ops == [] then -1
    else
      var last := |ops| - 1;
      var op := ops[last];
      if (op.Set? && op.key == key) || (op.Get? && op.key == key && ReplyAt(max, ops, last).Hit?) then last
      else LastTouch(max, ops[..last], key)
  }

  /** The list is ordered by last touch, so what is evicted from its front is the least recently used entry. */
  lemma {:induction false} OrderIsRecency<V>(max: nat, ops: seq<Op<V>>, i: nat, j: nat)
    requires i < j < |Run(max, ops).items|
    ensures LastTouch(max, ops, Run(max, ops).items[i].key) < LastTouch(max, ops, Run(max, ops).items[j].key)
    decreases |ops|
  {
    var last := |ops| - 1;
    var before, op := ops[..last], ops[last];
    var m, m' := Run(max, before).items, Run(max, ops).items;
    if m'[j].key == op.key && (op.Set? || (op.Get? && GetReply(m, op.key, op.now).Hit?)) {
      FrontIsOther(max, before, op, i, j);
    } else {
      var a, b := OldPositions(max, Run(max, before), op, i, j);
      OrderIsRecency(max, before, a, b);
    }
  }

  lemma FrontIsOther<V>(max: nat, before: seq<Op<V>>, op: Op<V>, i: nat, j: nat)
    requires !op.Clear? && i < j < |Apply(max, Run(max, before), op).items|
    requires Apply(max, Run(max, before), op).items[j].key == op.key
    ensures Apply(max, Run(max, before), op).items[i].key != op.key
  {
    assert (before + [op])[..|before|] == before;
    CacheAgrees(max, before + [op]);
  }

  /** Two entries that the last operation did not touch kept their order. */
  lemma OldPositions<V>(max: nat, c: Cache<V>, op: Op<V>, i: nat, j: nat) returns (a: nat, b: nat)
    requires i < j < |Apply(max, c, op).items| && !op.Clear?
    requires Apply(max, c, op).items[j].key == op.key ==>
      op.Delete? || (op.Get? && !GetReply(c.items, op.key, op.now).Hit?)
    ensures a < b < |c.items|
    ensures var m' := Apply(max, c, op).items;
      && c.items[a].key == m'[i].key && c.items[b].key == m'[j].key
      && (m'[i].key == op.key ==> op.Delete? || (op.Get? && !GetReply(c.items, op.key, op.now).Hit?))
  {
    match op {
      case Get(key, now) => a, b := GetPositions(c.items, key, now, i, j);
      case Set(key, value, ttlMs, now) =>
        a, b := SetPositions(c.items, max, key, value, ttlMs, now, i, j);
      case Delete(key) => a, b := WithoutPositions(c.items, key, i, j);
    }
  }

  lemma GetPositions<V>(m: seq<Item<V>>, key: string, now: int, i: nat, j: nat) returns (a: nat, b: nat)
    requires i < j < |GetItems(m, key, now)|
    requires GetReply(m, key, now).Hit? ==> GetItems(m, key, now)[j].key != key
    ensures a < b < |m|
    ensures m[a].key == GetItems(m, key, now)[i].key && m[b].key == GetItems(m, key, now)[j].key
    ensures GetReply(m, key, now).Hit? ==> GetItems(m, key, now)[i].key != key
  {
    if Lookup(m, key).None? {
      a, b := i, j;
    } else {
      a, b := WithoutPositions(m, key, i, j);
    }
  }

  lemma SetPositions<V>(m: seq<Item<V>>, max: nat, key: string, value: V, ttlMs: int, now: int, i: nat, j: nat)
    returns (a: nat, b: nat)
    requires i < j < |SetItems(m, max, key, value, ttlMs, now)|
    requires SetItems(m, max, key, value, ttlMs, now)[j].key != key
    ensures var m' := SetItems(m, max, key, value, ttlMs, now);
      a < b < |m| && m[a].key == m'[i].key && m[b].key == m'[j].key && m'[i].key != key
  {
    var shift := NewestPositions(Without(m, key), Item(key, Entry(value, now + ttlMs)), max, i, j);
    a, b := WithoutPositions(m, key, i + shift, j + shift);
  }

  /** Where two entries that survived an eviction were before the new entry came. */
  lemma NewestPositions<V>(w: seq<Item<V>>, x: Item<V>, max: nat, i: nat, j: nat) returns (shift: nat)
    requires i < j < |Newest(w + [x], max)| && Newest(w + [x], max)[j].key != x.key
    ensures j + shift < |w|
    ensures w[i + shift] == Newest(w + [x], max)[i] && w[j + shift] == Newest(w + [x], max)[j]
  {
    shift := |w + [x]| - |Newest(w + [x], max)|;
    assert Newest(w + [x], max)[j] == (w + [x])[j + shift];
  }

  lemma {:induction false} WithoutPositions<V>(m: seq<Item<V>>, key: string, i: nat, j: nat) returns (a: nat, b: nat)
    requires i < j < |Without(m, key)|
    ensures a < b < |m| && m[a] == Without(m, key)[i] && m[b] == Without(m, key)[j]
    ensures m[a].key != key && m[b].key != key
  {
    if m[0].key == key {
      a, b := WithoutPositions(m[1..], key, i, j);
      a, b := a + 1, b + 1;
    } else if i > 0 {
      a, b := WithoutPositions(m[1..], key, i - 1, j - 1);
      a, b := a + 1, b + 1;
    } else {
      a := 0;
      b := WithoutPosition(m[1..], key, j - 1);
      b := b + 1;
    }
  }

  lemma {:induction false} WithoutPosition<V>(m: seq<Item<V>>, key: string, j: nat) returns (b: nat)
    requires j < |Without(m, key)|
    ensures b < |m| && m[b] == Without(m, key)[j] && m[b].key != key
  {
    if m[0].key == key {
      b := WithoutPosition(m[1..], key, j);
      b := b + 1;
    } else if j > 0 {
      b := WithoutPosition(m[1..], key, j - 1);
      b := b + 1;
    } else {
      b := 0;
    }
  }

  // ----- when there is room, nothing fresh is missed -----

  predicate TimedBy<V>(op: Op<V>, now: int) {
    (op.Get? || op.Set?) ==> op.now <= now
  }

  predicate ClockForward<V>(ops: seq<Op<V>>) {
    forall i, j :: 0 <= i < j < |ops| && (ops[j].Get? || ops[j].Set?) ==> TimedBy(ops[i], ops[j].now)
  }

  /** The keys stored or hit by the operations after position `from`. */
  ghost function TouchedAfter<V>(max: nat, ops: seq<Op<V>>, from: int): set<string> {
    if ops == [] || |ops| - 1 <= from then {}
    else
      var last := |ops| - 1;
      var rest := TouchedAfter(max, ops[..last], from);
      if ops[last].Set? || (ops[last].Get? && ReplyAt(max, ops, last).Hit?) then rest + {ops[last].key} else rest
  }

  lemma {:induction false} LaterTouchIsIn<V>(max: nat, ops: seq<Op<V>>, from: int, key: string)
    requires LastTouch(max, ops, key) > from >= -1
    ensures key in TouchedAfter(max, ops, from)
    decreases |ops|
  {
    var last := |ops| - 1;
    assert last > from;
    if LastTouch(max, ops, key) == last {
      TouchedAtLast(max, ops, key);
    } else {
      LaterTouchIsIn(max, ops[..last], from, key);
    }
  }

  lemma TouchedAtLast<V>(max: nat, ops: seq<Op<V>>, key: string)
    requires ops != [] && LastTouch(max, ops, key) == |ops| - 1
    ensures var op := ops[|ops| - 1];
      op.key == key && (op.Set? || (op.Get? && ReplyAt(max, ops, |ops| - 1).Hit?))
  {
    assert LastTouch(max, ops[..|ops| - 1], key) < |ops| - 1;
  }

  lemma {:induction false} FewItems<V>(m: seq<Item<V>>, keys: set<string>)
    requires DistinctKeys(m) && forall i :: 0 <= i < |m| ==> m[i].key in keys
    ensures |m| <= |keys|
  {
    if m == [] {
    } else {
      var k := m[0].key;
      forall i | 0 <= i < |m[1..]| ensures m[1..][i].key in keys - {k} {
        assert m[1..][i] == m[i + 1];
      }
      FewItems(m[1..], keys - {k});
    }
  }

  /** What stands behind a key in the list was touched after it. */
  lemma BehindWasTouched<V>(max: nat, ops: seq<Op<V>>, p: nat, keys: set<string>)
    requires p < |Run(max, ops).items|
    requires keys == TouchedAfter(max, ops, LastTouch(max, ops, Run(max, ops).items[p].key))
    ensures forall q :: p < q < |Run(max, ops).items| ==> Run(max, ops).items[q].key in keys
  {
    var m := Run(max, ops).items;
    forall q | p < q < |m| ensures m[q].key in keys {
      OrderIsRecency(max, ops, p, q);
      LaterTouchIsIn(max, ops, LastTouch(max, ops, m[p].key), m[q].key);
    }
  }

  lemma {:induction false} WithoutConcat<V>(a: seq<Item<V>>, b: seq<Item<V>>, key: string)
    ensures Without(a + b, key) == Without(a, key) + Without(b, key)
  {
    if a == [] {
      assert a + b == b;
    } else {
      assert (a + b)[1..] == a[1..] + b;
      WithoutConcat(a[1..], b, key);
    }
  }

  /** Deleting another key, what stands behind an entry only gets less. */
  lemma PositionWithout<V>(m: seq<Item<V>>, key: string, p: nat) returns (i: nat)
    requires p < |m| && m[p].key != key
    ensures i < |Without(m, key)| && Without(m, key)[i] == m[p]
    ensures |Without(m, key)| - i == 1 + |Without(m[p + 1..], key)|
  {
    var front, rest := m[..p], m[p + 1..];
    assert m == front + ([m[p]] + rest);
    WithoutConcat(front, [m[p]] + rest, key);
    WithoutConcat([m[p]], rest, key);
    assert [m[p]][1..] == [];
    i := |Without(front, key)|;
  }

  lemma BehindIsFew<V>(m: seq<Item<V>>, key: string, p: nat, keys: set<string>)
    requires DistinctKeys(m) && p < |m| && key in keys
    requires forall q :: p < q < |m| ==> m[q].key in keys
    ensures |Without(m[p + 1..], key)| < |keys|
  {
    var rest := m[p + 1..];
    forall q | 0 <= q < |rest| ensures rest[q].key in keys {
      assert rest[q] == m[p + 1 + q];
    }
    RestIsFew(rest, key, keys);
  }

  lemma RestIsFew<V>(rest: seq<Item<V>>, key: string, keys: set<string>)
    requires DistinctKeys(rest) && key in keys && forall q :: 0 <= q < |rest| ==> rest[q].key in keys
    ensures |Without(rest, key)| < |keys|
  {
    var left := Without(rest, key);
    WithoutProps(rest, key);
    forall i | 0 <= i < |left| ensures left[i].key in keys - {key} {
      var q := WithoutPosition(rest, key, i);
    }
    FewItems(left, keys - {key});
  }

  lemma StaysInNewest<V>(w: seq<Item<V>>, x: Item<V>, i: nat, max: nat)
    requires i < |w| && |w| - i < max
    ensures w[i] in Newest(w + [x], max)
  {
    var full := w + [x];
    assert full[i] == w[i];
    var dropped := |full| - |Newest(full, max)|;
    assert Newest(full, max)[i - dropped] == full[i];
  }

  /** Storing another key evicts an entry only if as many keys as there is room for were touched after it. */
  lemma StoreKeeps<V>(m: seq<Item<V>>, max: nat, x: Item<V>, p: nat, keys: set<string>)
    requires DistinctKeys(m) && p < |m| && m[p].key != x.key && x.key in keys && |keys| < max
    requires forall q :: p < q < |m| ==> m[q].key in keys
    ensures m[p] in Newest(Without(m, x.key) + [x], max)
  {
    var i := PositionWithout(m, x.key, p);
    BehindIsFew(m, x.key, p, keys);
    StaysInNewest(Without(m, x.key), x, i, max);
  }

  lemma LookupMember<V>(m: seq<Item<V>>, x: Item<V>)
    requires DistinctKeys(m) && x in m
    ensures Lookup(m, x.key) == Some(x.entry)
  {
    var i :| 0 <= i < |m| && m[i] == x;
    LookupItem(m, i);
  }

  /**
   * A fresh entry is still there as long as fewer keys than the cache has room for were stored or hit since it was
   * itself last stored or hit.
   */
  lemma {:induction false} FreshEntryIsKept<V>(max: nat, ops: seq<Op<V>>, key: string, now: int)
    requires forall i :: 0 <= i < |ops| ==> TimedBy(ops[i], now)
    requires var e := Latest(ops, key); e.Some? && now < e.value.expiresAt
    requires |TouchedAfter(max, ops, LastTouch(max, ops, key))| < max
    ensures Lookup(Run(max, ops).items, key) == Latest(ops, key)
    decreases |ops|
  {
    var last := |ops| - 1;
    var before, op := ops[..last], ops[last];
    var m := Run(max, before).items;
    CacheAgrees(max, before);
    CacheAgrees(max, ops);
    assert ops == before + [op];
    if op.key == key && (op.Set? || (op.Get? && GetReply(m, key, op.now).Hit?)) {
      TouchedIsKept(max, before, op);
    } else {
      var l := LastTouch(max, before, key);
      assert l == LastTouch(max, ops, key);
      TouchedGrows(max, ops, l);
      FreshEntryIsKept(max, before, key, now);
      UntouchedIsKept(max, before, op, key, TouchedAfter(max, ops, l));
    }
  }

  lemma TouchedGrows<V>(max: nat, ops: seq<Op<V>>, from: int)
    requires ops != []
    ensures TouchedAfter(max, ops[..|ops| - 1], from) <= TouchedAfter(max, ops, from)
    ensures |TouchedAfter(max, ops[..|ops| - 1], from)| <= |TouchedAfter(max, ops, from)|
  {
    var a, b := TouchedAfter(max, ops[..|ops| - 1], from), TouchedAfter(max, ops, from);
    EarlyTouches(max, ops[..|ops| - 1], from);
    SubsetSize(a, b);
  }

  lemma EarlyTouches<V>(max: nat, ops: seq<Op<V>>, from: int)
    ensures |ops| <= from ==> TouchedAfter(max, ops, from) == {}
  {
  }

  lemma {:induction false} SubsetSize(a: set<string>, b: set<string>)
    requires a <= b
    ensures |a| <= |b|
  {
    if a == {} {
    } else {
      var x :| x in a;
      SubsetSize(a - {x}, b - {x});
    }
  }

  lemma TouchedIsKept<V>(max: nat, before: seq<Op<V>>, op: Op<V>)
    requires max >= 1 && AgreesWithLatest(Run(max, before).items, before)
    requires op.Set? || (op.Get? && GetReply(Run(max, before).items, op.key, op.now).Hit?)
    requires DistinctKeys(Apply(max, Run(max, before), op).items)
    ensures Lookup(Apply(max, Run(max, before), op).items, op.key) == Latest(before + [op], op.key)
  {
    var m, m' := Run(max, before).items, Apply(max, Run(max, before), op).items;
    assert (before + [op])[..|before|] == before;
    if op.Set? {
      StoredIsLast(m, max, op.key, op.value, op.ttlMs, op.now);
    } else {
      HitIsLast(m, op.key, op.now);
      FoundAgrees(m, before, op.key);
    }
    LookupItem(m', |m'| - 1);
  }

  lemma FoundAgrees<V>(m: seq<Item<V>>, ops: seq<Op<V>>, key: string)
    requires AgreesWithLatest(m, ops) && Lookup(m, key).Some?
    ensures Lookup(m, key) == Latest(ops, key)
  {
    LookupFound(m, key);
    var j :| 0 <= j < |m| && m[j] == Item(key, Lookup(m, key).value);
  }

  lemma StoredIsLast<V>(m: seq<Item<V>>, max: nat, key: string, value: V, ttlMs: int, now: int)
    requires max >= 1
    ensures var m' := SetItems(m, max, key, value, ttlMs, now);
      m' != [] && m'[|m'| - 1] == Item(key, Entry(value, now + ttlMs))
  {
  }

  lemma HitIsLast<V>(m: seq<Item<V>>, key: string, now: int)
    requires GetReply(m, key, now).Hit?
    ensures var m' := GetItems(m, key, now); m' != [] && m'[|m'| - 1] == Item(key, Lookup(m, key).value)
  {
  }

  lemma UntouchedIsKept<V>(max: nat, before: seq<Op<V>>, op: Op<V>, key: string, keys: set<string>)
    requires var m := Run(max, before).items; DistinctKeys(m) && Lookup(m, key).Some? && Lookup(m, key) == Latest(before, key)
    requires !op.Clear? && op.key != key
    requires TouchedAfter(max, before, LastTouch(max, before, key)) + (if op.Set? then {op.key} else {}) <= keys
    requires |keys| < max && DistinctKeys(Apply(max, Run(max, before), op).items)
    ensures Lookup(Apply(max, Run(max, before), op).items, key) == Latest(before + [op], key)
  {
    var m, m' := Run(max, before).items, Apply(max, Run(max, before), op).items;
    assert (before + [op])[..|before|] == before;
    LookupFound(m, key);
    var x := Item(key, Lookup(m, key).value);
    if op.Set? {
      StoreKeepsFresh(max, before, op.key, op.value, op.ttlMs, op.now, x, keys);
    } else {
      OtherIsKept(Run(max, before), max, op, x);
    }
    LookupMember(m', x);
  }

  lemma StoreKeepsFresh<V>(
    max: nat, before: seq<Op<V>>, key: string, value: V, ttlMs: int, now: int, x: Item<V>, keys: set<string>)
    requires var m := Run(max, before).items; DistinctKeys(m) && x in m && x.key != key
    requires TouchedAfter(max, before, LastTouch(max, before, x.key)) + {key} <= keys && |keys| < max
    ensures x in SetItems(Run(max, before).items, max, key, value, ttlMs, now)
  {
    var m := Run(max, before).items;
    var p :| 0 <= p < |m| && m[p] == x;
    BehindWasTouched(max, before, p, TouchedAfter(max, before, LastTouch(max, before, x.key)));
    StoreKeeps(m, max, Item(key, Entry(value, now + ttlMs)), p, keys);
  }

  lemma OtherIsKept<V>(c: Cache<V>, max: nat, op: Op<V>, x: Item<V>)
    requires (op.Get? || op.Delete?) && x in c.items && op.key != x.key
    ensures x in Apply(max, c, op).items
  {
    WithoutMembers(c.items, op.key);
  }

  /**
   * With a clock that never runs back, a get hits exactly on a fresh stored entry, as long as fewer keys than the
   * cache has room for were stored or hit since the key was.
   */
  lemma RoomyCacheIsExact<V>(max: nat, ops: seq<Op<V>>, i: nat)
    requires i < |ops| && ops[i].Get? && ClockForward(ops)
    requires Latest(ops[..i], ops[i].key).Some? ==>
      |TouchedAfter(max, ops[..i], LastTouch(max, ops[..i], ops[i].key))| < max
    ensures var e := Latest(ops[..i], ops[i].key);
      ReplyAt(max, ops, i) ==
        if e.Some? && ops[i].now < e.value.expiresAt then Hit(e.value.value) else Miss
  {
    var e := Latest(ops[..i], ops[i].key);
    if e.Some? && ops[i].now < e.value.expiresAt {
      FreshEntryIsKept(max, ops[..i], ops[i].key, ops[i].now);
    } else if ReplyAt(max, ops, i).Hit? {
      HitIsLatestAndFresh(max, ops, i);
    }
  }

  // ----- the class -----

  class TtlCache<V> {
    const ttlMs: int
    const maxEntries: nat
    var entries: seq<Item<V>>
    var hits: nat
    var misses: nat

    ghost predicate Valid()
      reads this
    {
      DistinctKeys(entries) && |entries| <= maxEntries
    }

    ghost function State(): Cache<V>
      reads this
    {
      Cache(entries, hits, misses)
    }

    constructor (ttlMs: int := 60_000, maxEntries: nat := 500)
      ensures Valid() && State() == Empty() && this.ttlMs == ttlMs && this.maxEntries == maxEntries
    {
      this.ttlMs, this.maxEntries := ttlMs, maxEntries;
      entries, hits, misses := [], 0, 0;
    }

    method Get(key: string, now: int) returns (value: Option<V>)
      requires Valid()
      modifies this
      ensures Valid() && State() == Apply(maxEntries, old(State()), Op.Get(key, now))
      ensures value == match ReplyOf(old(State()), Op.Get(key, now)) case Hit(v) => Some(v) case _ => None
    {
      var entry := Lookup(entries, key);
      WithoutProps(entries, key);
      if entry.None? {
        misses := misses + 1;
        return None;
      }
      if entry.value.expiresAt <= now {
        entries := Without(entries, key);
        misses := misses + 1;
        return None;
      }
      TouchKeepsDistinct(entries, Item(key, entry.value));
      entries := Without(entries, key);
      entries := entries + [Item(key, entry.value)];
      hits := hits + 1;
      return Some(entry.value.value);
    }

    method Set(key: string, value: V, now: int, ttlMs: int := this.ttlMs)
      requires Valid()
      modifies this
      ensures Valid() && State() == Apply(maxEntries, old(State()), Op.Set(key, value, ttlMs, now))
    {
      TouchKeepsDistinct(entries, Item(key, Entry(value, now + ttlMs)));
      entries := Without(entries, key);
      entries := entries + [Item(key, Entry(value, now + ttlMs))];
      EvictOldest();
    }

    /** The eviction loop of `set`: deletes the first key of the map until the cache fits. */
    method EvictOldest()
      requires DistinctKeys(entries)
      modifies this`entries
      ensures entries == Newest(old(entries), maxEntries) && DistinctKeys(entries)
    {
      ghost var full := entries;
      while |entries| > maxEntries
        invariant DistinctKeys(entries) && |entries| <= |full|
        invariant entries == full[|full| - |entries|..]
        invariant |entries| >= maxEntries || entries == full
      {
        DropOldest(entries);
        entries := Without(entries, entries[0].key);
      }
    }

    method Delete(key: string) returns (present: bool)
      requires Valid()
      modifies this
      ensures Valid() && State() == Apply(maxEntries, old(State()), Op.Delete(key))
      ensures present <==> Lookup(old(entries), key).Some?
    {
      WithoutProps(entries, key);
      present := Lookup(entries, key).Some?;
      entries := Without(entries, key);
    }

    method Clear()
      modifies this
      ensures Valid() && State() == Apply(maxEntries, old(State()), Op.Clear)
    {
      entries, hits, misses := [], 0, 0;
    }
  }

  /** Deleting a key and setting it again moves it to the end of the map. */
  lemma TouchKeepsDistinct<V>(m: seq<Item<V>>, x: Item<V>)
    requires DistinctKeys(m)
    ensures DistinctKeys(Without(m, x.key) + [x])
  {
    var w := Without(m, x.key);
    WithoutProps(m, x.key);
    forall i | 0 <= i < |w| ensures w[i].key != x.key {
      assert w[i].key in KeysOf(w);
    }
  }

  lemma DropOldest<V>(m: seq<Item<V>>)
    requires DistinctKeys(m) && m != []
    ensures Without(m, m[0].key) == m[1..]
  {
    assert m[0].key !in KeysOf(m[1..]);
    WithoutProps(m[1..], m[0].key);
  }
}
