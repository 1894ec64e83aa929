/**
 * Recording audit rows. A call reads the latest hash, is suspended, and stores its row later; any number of calls
 * of one organization may overlap. The hash covers the values and the instant of the call, while the integrity
 * check sees what the table gives back: its own timestamp, and JSON values in the table's own form.
 */
module AuditRecord {
  import opened AuditChain
  import opened Dates
  import opened Wrappers

  /** Digests, the redaction of values before they are hashed, and the text a stored value comes back as. */
  datatype Service = Service(digest: Digest, sanitize: string -> string, jsonb: string -> string)

  /** A call suspended between reading the latest hash, when there were `read` live rows, and storing its row. */
  datatype Call = Call(draft: Row, prev: Option<string>, hashedAt: Time, read: nat)

  /** The live rows of one organization, the source events stored under any organization, and the open calls. */
  datatype Log = Log(live: seq<Row>, events: set<string>, calls: map<nat, Call>)

  datatype Step =
    | Begin(call: nat, draft: Row, at: Time)
    | Store(call: nat, at: Time)

  function OnValues(f: string -> string, r: Row): Row {
    r.(oldValue := if r.oldValue.Some? then Some(f(r.oldValue.value)) else None,
       newValue := if r.newValue.Some? then Some(f(r.newValue.value)) else None)
  }

  /** The row of a call as the table gives it back. */
  function Stored(s: Service, c: Call, at: Time): Row {
    OnValues(s.jsonb, c.draft)
    .(previousHash := c.prev, hash := Some(EntryHash(s.digest, c.draft, c.hashedAt, c.prev)), createdAt := at)
  }

  predicate HasEvent(draft: Row) {
    draft.sourceEventId.Some? && draft.sourceEventId.value != ""
  }

  /** The draft reports an event that is already stored. */
  predicate AlreadyStored(draft: Row, events: set<string>) {
    HasEvent(draft) && draft.sourceEventId.value in events
  }

  function EventOf(draft: Row): set<string> {
    if HasEvent(draft) then {draft.sourceEventId.value} else {}
  }

  /** `record` up to the read of the latest hash, and `create`: an event that is stored is upserted without change. */
  function Exec(s: Service, g: Log, step: Step): Log {
    match step
    case Begin(call, draft, at) =>
      g.(calls := g.calls[call := Call(OnValues(s.sanitize, draft), GetLatestHash(g.live), at, |g.live|)])
    case Store(call, at) =>
      if call !in g.calls then g
      else
        var c := g.calls[call];
        var rest := g.(calls := g.calls - {call});
        if AlreadyStored(c.draft, g.events) then rest
        else rest.(live := g.live + [Stored(s, c, at)], events := g.events + EventOf(c.draft))
  }

  function Run(s: Service, g: Log, steps: seq<Step>): Log
    decreases |steps|
  {
    if steps == [] then g else Run(s, Exec(s, g, steps[0]), steps[1..])
  }

  /** The text that was hashed, and the text the check will hash. */
  function HashedText(s: Service, c: Call): string {
    Payload(s.digest, c.draft, c.hashedAt, c.prev)
  }

  function CheckedText(s: Service, c: Call, at: Time): string {
    Payload(s.digest, OnValues(s.jsonb, c.draft), at, c.prev)
  }

  predicate Stores(g: Log, step: Step) {
    step.Store? && step.call in g.calls && !AlreadyStored(g.calls[step.call].draft, g.events)
  }

  /** The call still points at the end of the log, and the table gives back the text that was hashed. */
  predicate Keeps(s: Service, g: Log, step: Step, anchor: Option<string>) {
    Stores(g, step) ==>
      var c := g.calls[step.call];
      c.prev == Boundary(g.live, anchor) && HashedText(s, c) == CheckedText(s, c, step.at)
  }

  predicate AllKeep(s: Service, g: Log, steps: seq<Step>, anchor: Option<string>)
    decreases |steps|
  {
    steps == [] || (Keeps(s, g, steps[0], anchor) && AllKeep(s, Exec(s, g, steps[0]), steps[1..], anchor))
  }

  /** The texts whose digests a run compares. */
  function Compared(s: Service, g: Log, steps: seq<Step>): set<string>
    decreases |steps|
  {
    if steps == [] then {}
    else ComparedBy(s, g, steps[0]) + Compared(s, Exec(s, g, steps[0]), steps[1..])
  }

  function ComparedBy(s: Service, g: Log, step: Step): set<string> {
    if Stores(g, step) then
      {HashedText(s, g.calls[step.call]), CheckedText(s, g.calls[step.call], step.at)}
    else {}
  }

  // ----- exactly when recording keeps the chain -----

  lemma StoredRowText(s: Service, c: Call, at: Time)
    ensures SchemeOf(s.digest).text(Stored(s, c, at)) == CheckedText(s, c, at)
    ensures Stored(s, c, at).hash == Some(s.digest.sha256(HashedText(s, c))) && Stored(s, c, at).previousHash == c.prev
  {
    assert PayloadFields(Stored(s, c, at)) == PayloadFields(OnValues(s.jsonb, c.draft));
  }

  lemma StepKeepsChainIff(s: Service, g: Log, step: Step, anchor: Option<string>)
    requires ChainFrom(SchemeOf(s.digest), g.live, anchor)
    requires CollisionFree(s.digest.sha256, ComparedBy(s, g, step))
    ensures ChainFrom(SchemeOf(s.digest), Exec(s, g, step).live, anchor) <==> Keeps(s, g, step, anchor)
  {
    if Stores(g, step) {
      var c := g.calls[step.call];
      StoredRowText(s, c, step.at);
      AppendKeepsChainIff(SchemeOf(s.digest), g.live, Stored(s, c, step.at), anchor);
    }
  }

  lemma {:induction false} LogOnlyGrows(s: Service, g: Log, steps: seq<Step>)
    ensures g.live <= Run(s, g, steps).live
    decreases |steps|
  {
    if steps == [] {
    } else {
      LogOnlyGrows(s, Exec(s, g, steps[0]), steps[1..]);
    }
  }

  lemma PrefixOfChain(sc: Scheme, a: seq<Row>, b: seq<Row>, anchor: Option<string>)
    requires a <= b && ChainFrom(sc, b, anchor)
    ensures ChainFrom(sc, a, anchor)
  {
    assert b == a + b[|a|..];
    ChainSplit(sc, a, b[|a|..], anchor);
  }

  /**
   * Over every interleaving of overlapping calls: a verified log stays verified if and only if every call that
   * stores a row still points at the end of the log by then and the table gives back the text that was hashed.
   */
  lemma {:induction false} RunKeepsChainIff(s: Service, g: Log, steps: seq<Step>, anchor: Option<string>)
    requires ChainFrom(SchemeOf(s.digest), g.live, anchor)
    requires CollisionFree(s.digest.sha256, Compared(s, g, steps))
    ensures ChainFrom(SchemeOf(s.digest), Run(s, g, steps).live, anchor) <==> AllKeep(s, g, steps, anchor)
    decreases |steps|
  {
    if steps == [] {
    } else {
      var v := Exec(s, g, steps[0]);
      StepKeepsChainIff(s, g, steps[0], anchor);
      if Keeps(s, g, steps[0], anchor) {
        RunKeepsChainIff(s, v, steps[1..], anchor);
      } else {
        LogOnlyGrows(s, v, steps[1..]);
        if ChainFrom(SchemeOf(s.digest), Run(s, g, steps).live, anchor) {
          PrefixOfChain(SchemeOf(s.digest), v.live, Run(s, g, steps).live, anchor);
        }
      }
    }
  }

  // ----- what is stored -----

  /** A value as the table shows it: redacted, and in the table's own form. */
  function Shown(s: Service, value: Option<string>): Option<string> {
    if value.None? then None else Some(s.jsonb(s.sanitize(value.value)))
  }

  /** The row of a call that began with `begin` and stored with `store`: its own draft, redacted, and its own hash. */
  predicate RowOf(s: Service, begin: Step, store: Step, row: Row)
    requires begin.Begin? && store.Store?
  {
    && begin.call == store.call
    && row == begin.draft.(
         oldValue := Shown(s, begin.draft.oldValue), newValue := Shown(s, begin.draft.newValue),
         createdAt := store.at, previousHash := row.previousHash,
         hash := Some(EntryHash(s.digest, OnValues(s.sanitize, begin.draft), begin.at, row.previousHash)))
  }

  ghost predicate Recorded(s: Service, steps: seq<Step>, row: Row) {
    exists j, k :: 0 <= j < k < |steps| && steps[j].Begin? && steps[k].Store? && RowOf(s, steps[j], steps[k], row)
  }

  predicate Begun(s: Service, steps: seq<Step>, call: nat, c: Call) {
    exists j :: 0 <= j < |steps| && steps[j].Begin? && BegunBy(s, steps[j], call, c)
  }

  predicate BegunBy(s: Service, begin: Step, call: nat, c: Call)
    requires begin.Begin?
  {
    begin.call == call && c.draft == OnValues(s.sanitize, begin.draft) && c.hashedAt == begin.at
  }

  /** The open calls and the rows from `base` on stem from the steps taken. */
  ghost predicate Accounted(s: Service, steps: seq<Step>, g: Log, base: nat) {
    && (forall k :: k in g.calls ==> Begun(s, steps, k, g.calls[k]))
    && (forall i :: base <= i < |g.live| ==> Recorded(s, steps, g.live[i]))
  }

  lemma RecordedLater(s: Service, steps: seq<Step>, step: Step, row: Row)
    requires Recorded(s, steps, row)
    ensures Recorded(s, steps + [step], row)
  {
    var j, k :| 0 <= j < k < |steps| && steps[j].Begin? && steps[k].Store? && RowOf(s, steps[j], steps[k], row);
    assert (steps + [step])[j] == steps[j] && (steps + [step])[k] == steps[k];
  }

  lemma BegunLater(s: Service, steps: seq<Step>, step: Step, call: nat, c: Call)
    requires Begun(s, steps, call, c)
    ensures Begun(s, steps + [step], call, c)
  {
    var j :| 0 <= j < |steps| && steps[j].Begin? && BegunBy(s, steps[j], call, c);
    assert (steps + [step])[j] == steps[j];
  }

  lemma StoredIsRecorded(s: Service, steps: seq<Step>, store: Step, c: Call)
    requires store.Store? && Begun(s, steps, store.call, c)
    ensures Recorded(s, steps + [store], Stored(s, c, store.at))
  {
    var j :| 0 <= j < |steps| && steps[j].Begin? && BegunBy(s, steps[j], store.call, c);
    var all := steps + [store];
    assert all[j] == steps[j] && all[|steps|] == store;
    assert RowOf(s, all[j], all[|steps|], Stored(s, c, store.at));
  }

  lemma StepKeepsAccount(s: Service, steps: seq<Step>, g: Log, step: Step, base: nat)
    requires Accounted(s, steps, g, base)
    ensures Accounted(s, steps + [step], Exec(s, g, step), base)
  {
    var v := Exec(s, g, step);
    forall k | k in v.calls ensures Begun(s, steps + [step], k, v.calls[k]) {
      if step.Begin? && k == step.call {
        assert (steps + [step])[|steps|] == step && BegunBy(s, step, k, v.calls[k]);
      } else {
        BegunLater(s, steps, step, k, v.calls[k]);
      }
    }
    forall i | base <= i < |v.live| ensures Recorded(s, steps + [step], v.live[i]) {
      if i < |g.live| {
        RecordedLater(s, steps, step, v.live[i]);
      } else {
        StoredIsRecorded(s, steps, step, g.calls[step.call]);
      }
    }
  }

  lemma {:induction false} RunKeepsAccount(s: Service, past: seq<Step>, g: Log, steps: seq<Step>, base: nat)
    requires Accounted(s, past, g, base)
    ensures Accounted(s, past + steps, Run(s, g, steps), base)
    decreases |steps|
  {
    if steps == [] {
      assert past + steps == past;
    } else {
      StepKeepsAccount(s, past, g, steps[0], base);
      RunKeepsAccount(s, past + [steps[0]], Exec(s, g, steps[0]), steps[1..], base);
      assert past + [steps[0]] + steps[1..] == past + steps;
    }
  }

  /**
   * Over every interleaving, each row stored is the one its own call announced, with both values redacted before
   * they were hashed and before they were stored.
   */
  lemma RowsAreTheirCalls(s: Service, g: Log, steps: seq<Step>, i: nat)
    requires g.calls == map[] && |g.live| <= i < |Run(s, g, steps).live|
    ensures Recorded(s, steps, Run(s, g, steps).live[i])
  {
    RunKeepsAccount(s, [], g, steps, |g.live|);
    assert [] + steps == steps;
  }

  /** Every event of a live row is known, and no two live rows report the same event. */
  predicate EventsOnce(g: Log) {
    && (forall i :: 0 <= i < |g.live| && g.live[i].sourceEventId.Some? && g.live[i].sourceEventId != Some("") ==>
          g.live[i].sourceEventId.value in g.events)
    && (forall i, j :: 0 <= i < j < |g.live| && g.live[i].sourceEventId == g.live[j].sourceEventId ==>
          g.live[i].sourceEventId.None? || g.live[i].sourceEventId == Some(""))
  }

  /** An event is stored at most once, however the calls that report it overlap. */
  lemma {:induction false} RunKeepsEventsOnce(s: Service, g: Log, steps: seq<Step>)
    requires EventsOnce(g)
    ensures EventsOnce(Run(s, g, steps))
    decreases |steps|
  {
    if steps == [] {
    } else {
      assert EventsOnce(Exec(s, g, steps[0]));
      RunKeepsEventsOnce(s, Exec(s, g, steps[0]), steps[1..]);
    }
  }

  /** A call adds its row, unless it reports an event that is known; null and the empty text report none. */
  lemma StoresUnlessKnown(s: Service, g: Log, call: nat, at: Time)
    requires call in g.calls
    ensures var event := g.calls[call].draft.sourceEventId;
      |Exec(s, g, Store(call, at)).live| ==
        |g.live| + if event.Some? && event.value != "" && event.value in g.events then 0 else 1
  {
  }

  /** And none is lost: once a call that reports an event has stored, the event is known. */
  lemma StoredEventIsKnown(s: Service, g: Log, steps: seq<Step>, call: nat, at: Time)
    requires call in g.calls && var event := g.calls[call].draft.sourceEventId; event.Some? && event.value != ""
    ensures g.calls[call].draft.sourceEventId.value in Run(s, Exec(s, g, Store(call, at)), steps).events
  {
    EventsGrow(s, Exec(s, g, Store(call, at)), steps);
  }

  lemma {:induction false} EventsGrow(s: Service, g: Log, steps: seq<Step>)
    ensures g.events <= Run(s, g, steps).events
    decreases |steps|
  {
    if steps == [] {
    } else {
      EventsGrow(s, Exec(s, g, steps[0]), steps[1..]);
    }
  }

  // ----- a call on its own -----

  /** The log after a call that nothing overlaps. */
  function Record(s: Service, g: Log, draft: Row, hashedAt: Time, storedAt: Time): Log {
    Exec(s, Exec(s, g, Begin(0, draft, hashedAt)), Store(0, storedAt))
  }

  /**
   * A call that nothing overlaps, with values the table gives back unchanged: the log stays verified if and only if
   * the event was already stored, or the stored timestamp prints like the hashed one and the organization still has
   * a hashed live row or no archive anchor at all.
   */
  lemma RecordKeepsChainIff(s: Service, g: Log, draft: Row, hashedAt: Time, storedAt: Time, anchor: Option<string>)
    requires ChainFrom(SchemeOf(s.digest), g.live, anchor)
    requires var safe := OnValues(s.sanitize, draft); OnValues(s.jsonb, safe) == safe
    requires var safe, prev := OnValues(s.sanitize, draft), GetLatestHash(g.live);
      CollisionFree(s.digest.sha256, {Payload(s.digest, safe, hashedAt, prev), Payload(s.digest, safe, storedAt, prev)})
    ensures ChainFrom(SchemeOf(s.digest), Record(s, g, draft, hashedAt, storedAt).live, anchor) <==>
      || AlreadyStored(draft, g.events)
      || (s.digest.iso(hashedAt) == s.digest.iso(storedAt) && (anchor.None? || !AllUnhashed(g.live)))
  {
    var u := Exec(s, g, Begin(0, draft, hashedAt));
    StepKeepsChainIff(s, u, Store(0, storedAt), anchor);
    TimeDecidesPayload(s.digest, OnValues(s.sanitize, draft), hashedAt, storedAt, GetLatestHash(g.live));
    LatestIsBoundaryIff(g.live, anchor);
  }

  // ----- values the table gives back in another form -----

  /** Of two rows that differ at most in the new value, the payloads are equal exactly when the values are. */
  lemma NewValueDecidesPayload(d: Digest, r: Row, x: string, y: string, at: Time, prev: Option<string>)
    ensures Payload(d, r.(newValue := Some(x)), at, prev) == Payload(d, r.(newValue := Some(y)), at, prev) <==> x == y
  {
    FieldDecidesPayload(d, r.(newValue := Some(x)), r.(newValue := Some(y)), NewValue, at, prev);
  }

  /**
   * A call that nothing overlaps and whose timestamps agree, whose new value the table gives back in another form,
   * as it does with the keys of an object: the log no longer verifies.
   */
  lemma ReorderedValueBreaksChain(s: Service, g: Log, draft: Row, at: Time, anchor: Option<string>)
    requires ChainFrom(SchemeOf(s.digest), g.live, anchor) && !AlreadyStored(draft, g.events)
    requires draft.oldValue.None? && draft.newValue.Some?
    requires var value := s.sanitize(draft.newValue.value); s.jsonb(value) != value
    requires var u := Exec(s, g, Begin(0, draft, at)); CollisionFree(s.digest.sha256, ComparedBy(s, u, Store(0, at)))
    ensures !ChainFrom(SchemeOf(s.digest), Record(s, g, draft, at, at).live, anchor)
  {
    var value := s.sanitize(draft.newValue.value);
    var u := Exec(s, g, Begin(0, draft, at));
    StepKeepsChainIff(s, u, Store(0, at), anchor);
    NewValueDecidesPayload(s.digest, OnValues(s.sanitize, draft), value, s.jsonb(value), at, GetLatestHash(g.live));
    var c := u.calls[0];
    assert c.draft == OnValues(s.sanitize, draft).(newValue := Some(value));
    assert OnValues(s.jsonb, c.draft) == OnValues(s.sanitize, draft).(newValue := Some(s.jsonb(value)));
  }

  // ----- calls that overlap -----

  /** What an open call holds was the latest hash when it read it, and every row stored since is hashed. */
  predicate ReadLatest(live: seq<Row>, c: Call) {
    && c.read <= |live| && c.prev == GetLatestHash(live[..c.read])
    && forall i :: c.read <= i < |live| ==> live[i].hash.Some?
  }

  predicate CallsReadLatest(g: Log) {
    forall k :: k in g.calls ==> ReadLatest(g.live, g.calls[k])
  }

  lemma StepKeepsCalls(s: Service, g: Log, step: Step)
    requires CallsReadLatest(g)
    ensures CallsReadLatest(Exec(s, g, step))
  {
    var v := Exec(s, g, step);
    assert g.live[..|g.live|] == g.live;
    forall k | k in v.calls ensures ReadLatest(v.live, v.calls[k]) {
      if k in g.calls {
        assert ReadLatest(g.live, g.calls[k]);
        assert g.calls[k].read <= |g.live| && v.live[..g.calls[k].read] == g.live[..g.calls[k].read];
      }
    }
  }

  lemma {:induction false} RunKeepsCalls(s: Service, g: Log, steps: seq<Step>)
    requires CallsReadLatest(g)
    ensures CallsReadLatest(Run(s, g, steps))
    decreases |steps|
  {
    if steps == [] {
    } else {
      StepKeepsCalls(s, g, steps[0]);
      RunKeepsCalls(s, Exec(s, g, steps[0]), steps[1..]);
    }
  }

  /** In a log that verifies from its first row, what was read is still the latest hash unless a row was stored since. */
  lemma StillLatestIff(sc: Scheme, live: seq<Row>, c: Call)
    requires HexDigest(sc.sha256) && PrevReadable(sc) && ChainFrom(sc, live, None)
    requires CollisionFree(sc.sha256, TextSet(sc, live)) && ReadLatest(live, c)
    ensures c.prev == Boundary(live, None) <==> c.read == |live|
  {
    assert live[..|live|] == live;
    LatestHashIsBoundary(live[..c.read]);
    if c.read < |live| {
      assert live[c.read..|live|][0] == live[c.read];
      LongerChainEndsElsewhere(sc, live, c.read, |live|);
    }
  }

  /**
   * After any run of overlapping calls that has kept a log verified from its first row, storing one more row keeps it
   * verified if and only if no row was stored since that call read the latest hash, and the table gives back the
   * text that was hashed.
   */
  lemma StoreKeepsChainIff(s: Service, g: Log, steps: seq<Step>, step: Step)
    requires HexDigest(s.digest.sha256) && g.calls == map[]
    requires var v := Run(s, g, steps);
      && ChainFrom(SchemeOf(s.digest), v.live, None)
      && CollisionFree(s.digest.sha256, TextSet(SchemeOf(s.digest), v.live))
      && Stores(v, step) && CollisionFree(s.digest.sha256, ComparedBy(s, v, step))
    ensures var v := Run(s, g, steps);
      var c := v.calls[step.call];
      ChainFrom(SchemeOf(s.digest), Exec(s, v, step).live, None) <==>
        c.read == |v.live| && HashedText(s, c) == CheckedText(s, c, step.at)
  {
    var v := Run(s, g, steps);
    RunKeepsCalls(s, g, steps);
    StepKeepsChainIff(s, v, step, None);
    CanonicalPayloadIsPrevReadable(s.digest);
    StillLatestIff(SchemeOf(s.digest), v.live, v.calls[step.call]);
  }

  /** Two calls that both read the latest hash before either stores its row. */
  function Overlapped(s: Service, g: Log, x: Row, y: Row, at: Time): Log {
    Run(s, g.(calls := map[]), [Begin(0, x, at), Begin(1, y, at), Store(0, at), Store(1, at)])
  }

  /** What the four steps leave: both rows, pointing at the same hash. */
  lemma OverlappedRows(s: Service, g: Log, x: Row, y: Row, at: Time)
    requires !HasEvent(x) && !HasEvent(y)
    ensures var prev := GetLatestHash(g.live);
      Overlapped(s, g, x, y, at).live ==
        g.live + [Stored(s, Call(OnValues(s.sanitize, x), prev, at, |g.live|), at)]
        + [Stored(s, Call(OnValues(s.sanitize, y), prev, at, |g.live|), at)]
  {
    var h := g.(calls := map[]);
    RunFour(s, h, Begin(0, x, at), Begin(1, y, at), Store(0, at), Store(1, at));
    var a, b := Exec(s, h, Begin(0, x, at)), Exec(s, Exec(s, h, Begin(0, x, at)), Begin(1, y, at));
    var prev := GetLatestHash(g.live);
    assert b.calls[0] == Call(OnValues(s.sanitize, x), prev, at, |g.live|);
    assert b.calls[1] == Call(OnValues(s.sanitize, y), prev, at, |g.live|);
    assert b.live == g.live && !AlreadyStored(b.calls[0].draft, b.events) && !AlreadyStored(b.calls[1].draft, b.events);
  }

  lemma RunFour(s: Service, g: Log, a: Step, b: Step, c: Step, e: Step)
    ensures Run(s, g, [a, b, c, e]) == Exec(s, Exec(s, Exec(s, Exec(s, g, a), b), c), e)
  {
    var u := Exec(s, Exec(s, g, a), b);
    assert [a, b, c, e][1..] == [b, c, e] && [b, c, e][1..] == [c, e] && [c, e][1..] == [e] && [e][1..] == [];
    assert Run(s, g, [a, b, c, e]) == Run(s, Exec(s, g, a), [b, c, e]) == Run(s, u, [c, e]);
    assert Run(s, u, [c, e]) == Run(s, Exec(s, u, c), [e]) == Run(s, Exec(s, Exec(s, u, c), e), []);
  }

  /**
   * Two overlapping calls break a log that verifies from its first row, although either of them alone would keep it
   * and all timestamps agree: the second row does not point at the first.
   */
  lemma OverlapBreaksChain(s: Service, g: Log, x: Row, y: Row, at: Time)
    requires HexDigest(s.digest.sha256) && ChainFrom(SchemeOf(s.digest), g.live, None)
    requires !HasEvent(x) && !HasEvent(y)
    requires var r := Stored(s, Call(OnValues(s.sanitize, x), GetLatestHash(g.live), at, |g.live|), at);
      CollisionFree(s.digest.sha256, TextSet(SchemeOf(s.digest), g.live + [r]))
    ensures !ChainFrom(SchemeOf(s.digest), Overlapped(s, g, x, y, at).live, None)
  {
    var prev := GetLatestHash(g.live);
    OverlappedRows(s, g, x, y, at);
    CanonicalPayloadIsPrevReadable(s.digest);
    TwoSuccessors(SchemeOf(s.digest), g.live, Stored(s, Call(OnValues(s.sanitize, x), prev, at, |g.live|), at),
                  Stored(s, Call(OnValues(s.sanitize, y), prev, at, |g.live|), at));
  }

  /** No chain continues a row twice. */
  lemma TwoSuccessors(sc: Scheme, live: seq<Row>, a: Row, b: Row)
    requires HexDigest(sc.sha256) && PrevReadable(sc) && CollisionFree(sc.sha256, TextSet(sc, live + [a]))
    requires a.hash.Some? && b.hash.Some? && b.previousHash == GetLatestHash(live)
    ensures !ChainFrom(sc, live + [a] + [b], None)
  {
    var log := live + [a];
    if ChainFrom(sc, log + [b], None) {
      PrefixOfChain(sc, log, log + [b], None);
      AppendKeepsChainIff(sc, log, b, None);
      assert log[..|live|] == live;
      StillLatestIff(sc, log, Call(b, b.previousHash, b.createdAt, |live|));
    }
  }
}
