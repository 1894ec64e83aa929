/**
 * The log of an organization across the archive boundary. The archiver takes the oldest rows first, so what has
 * left the live table is a prefix of the log, and the stored batches are slices of that log. The anchor that
 * the newest hashed batch left behind is the newest hash of everything the archive holds.
 */
module AuditAnchor {
  import opened Wrappers
  import opened AuditChain
  import opened AuditArchive

  /** Rows are created in time order per organization; batches are cut from the front of its live rows. */
  predicate OldestFirst(w: World, s: Step) {
    match s
    case Insert(row) =>
      forall r :: r in w.ever && r.organizationId == row.organizationId ==> r.createdAt < row.createdAt
    case Write(org, records, _, _, _) => records <= OfOrg(w.live, org)
    case Delete(records) => records != [] && records <= OfOrg(w.live, records[0].organizationId)
  }

  predicate RunsOldestFirst(c: Library, w: World, steps: seq<Step>)
    decreases |steps|
  {
    steps == [] ||
    (Enabled(c, w, steps[0]) && OldestFirst(w, steps[0]) && RunsOldestFirst(c, Exec(c, w, steps[0]), steps[1..]))
  }

  predicate TimeOrdered(rows: seq<Row>) {
    forall i, j :: 0 <= i < j < |rows| ==> rows[i].createdAt <= rows[j].createdAt
  }

  predicate StrictlyOrdered(rows: seq<Row>) {
    forall i, j :: 0 <= i < j < |rows| ==> rows[i].createdAt < rows[j].createdAt
  }

  // ----- the log of one organization and the batches cut from it -----

  function Max(a: int, b: int): int {
    if a > b then a else b
  }

  function End(b: Batch): int {
    b.start + |b.rows|
  }

  predicate SliceOf(log: seq<Row>, b: Batch) {
    0 <= b.start && End(b) <= |log| && b.rows == log[b.start..End(b)]
  }

  /** Position `p` of the organization's log lies in a stored batch. */
  predicate Covered(archives: seq<Archive>, batches: seq<Batch>, org: string, p: int)
    requires |batches| == |archives|
  {
    exists k :: 0 <= k < |batches| && archives[k].organizationId == org && batches[k].start <= p < End(batches[k])
  }

  /** How far into the organization's log the stored batches reach. */
  function Reach(archives: seq<Archive>, batches: seq<Batch>, org: string): (r: int)
    requires |batches| == |archives|
    ensures r >= 0
  {
    if batches == [] then 0
    else
      var n := |batches| - 1;
      var r := Reach(archives[..n], batches[..n], org);
      if archives[n].organizationId == org && End(batches[n]) > r then End(batches[n]) else r
  }

  lemma {:induction false} ReachIsMaximum(archives: seq<Archive>, batches: seq<Batch>, org: string)
    requires |batches| == |archives|
    ensures forall k :: 0 <= k < |batches| && archives[k].organizationId == org ==>
      End(batches[k]) <= Reach(archives, batches, org)
    ensures Reach(archives, batches, org) == 0 ||
      exists k :: 0 <= k < |batches| && archives[k].organizationId == org
               && End(batches[k]) == Reach(archives, batches, org)
  {
    if batches == [] {
    } else {
      var n := |batches| - 1;
      ReachIsMaximum(archives[..n], batches[..n], org);
      var r := Reach(archives[..n], batches[..n], org);
      if Reach(archives, batches, org) == r && r != 0 {
        var k :| 0 <= k < n && archives[..n][k].organizationId == org && End(batches[..n][k]) == r;
        assert archives[k].organizationId == org && End(batches[k]) == r;
      }
      forall k | 0 <= k < |batches| && archives[k].organizationId == org
        ensures End(batches[k]) <= Reach(archives, batches, org)
      {
        if k < n { assert archives[..n][k] == archives[k] && batches[..n][k] == batches[k]; }
      }
    }
  }

  /**
   * `gone` rows of the log have left the live table; the stored batches are slices of the log that leave no gap
   * up to their reach, and everything gone is within that reach.
   */
  ghost predicate Cut(log: seq<Row>, gone: int, archives: seq<Archive>, batches: seq<Batch>, org: string) {
    && |batches| == |archives|
    && StrictlyOrdered(log)
    && 0 <= gone <= Reach(archives, batches, org) <= |log|
    && (forall k :: 0 <= k < |batches| && archives[k].organizationId == org ==> SliceOf(log, batches[k]))
    && (forall p :: 0 <= p < Reach(archives, batches, org) ==> Covered(archives, batches, org, p))
  }

  ghost predicate LogInv(w: World, org: string) {
    && TimeOrdered(w.live)
    && Cut(OfOrg(w.ever, org), Removed(w, org), w.archives, w.batches, org)
    && OfOrg(w.live, org) == OfOrg(w.ever, org)[Removed(w, org)..]
  }

  function ArchivedUpTo(w: World, org: string): int
    requires |w.batches| == |w.archives|
  {
    Reach(w.archives, w.batches, org)
  }

  // ----- how the steps move the cut -----

  lemma {:induction false} OfOrgConcat(a: seq<Row>, b: seq<Row>, org: string)
    ensures OfOrg(a + b, org) == OfOrg(a, org) + OfOrg(b, org)
  {
    if a == [] {
      assert a + b == b;
    } else {
      assert (a + b)[1..] == a[1..] + b;
      OfOrgConcat(a[1..], b, org);
    }
  }

  lemma {:induction false} InsertKeepsOrder(live: seq<Row>, row: Row)
    requires TimeOrdered(live)
    ensures TimeOrdered(InsertRow(live, row))
  {
    if live == [] || !QueryOrder(live[0], row) {
    } else {
      InsertKeepsOrder(live[1..], row);
      InsertedMembers(live[1..], row);
      var rest := InsertRow(live[1..], row);
      forall i | 0 <= i < |rest| ensures live[0].createdAt <= rest[i].createdAt {
        assert rest[i] in rest;
      }
    }
  }

  /** A row newer than the rest of its organization comes last in that organization's listing. */
  lemma {:induction false} InsertIntoOrg(live: seq<Row>, row: Row, org: string)
    requires TimeOrdered(live)
    requires forall i :: 0 <= i < |live| && live[i].organizationId == row.organizationId ==>
      live[i].createdAt < row.createdAt
    ensures OfOrg(InsertRow(live, row), org) == OfOrg(live, org) + OfOrg([row], org)
  {
    if live == [] || !QueryOrder(live[0], row) {
      OfOrgConcat([row], live, org);
      if org == row.organizationId {
        NoneOfOrg(live, org);
      } else {
        assert OfOrg([row], org) == [];
      }
    } else {
      InsertIntoOrg(live[1..], row, org);
    }
  }

  lemma {:induction false} NoneOfOrg(rows: seq<Row>, org: string)
    requires forall i :: 0 <= i < |rows| ==> rows[i].organizationId != org
    ensures OfOrg(rows, org) == []
  {
    if rows == [] {
    } else {
      NoneOfOrg(rows[1..], org);
    }
  }

  lemma {:induction false} DeleteKeepsOrder(live: seq<Row>, ids: seq<string>)
    requires TimeOrdered(live)
    ensures TimeOrdered(DeleteAuditLogs(live, ids))
  {
    if live == [] {
    } else {
      DeleteKeepsOrder(live[1..], ids);
      DeletedMembers(live[1..], ids);
      var rest := DeleteAuditLogs(live[1..], ids);
      forall i | 0 <= i < |rest| ensures live[0].createdAt <= rest[i].createdAt {
        assert rest[i] in live[1..];
      }
    }
  }

  lemma {:induction false} DeleteFromOrg(live: seq<Row>, ids: seq<string>, org: string)
    ensures OfOrg(DeleteAuditLogs(live, ids), org) == DeleteAuditLogs(OfOrg(live, org), ids)
  {
    if live == [] {
    } else {
      DeleteFromOrg(live[1..], ids, org);
    }
  }

  lemma {:induction false} DeletePrefix(rows: seq<Row>, n: nat, ids: seq<string>)
    requires n <= |rows|
    requires forall i :: 0 <= i < n ==> rows[i].id in ids
    requires forall i :: n <= i < |rows| ==> rows[i].id !in ids
    ensures DeleteAuditLogs(rows, ids) == rows[n..]
  {
    if rows == [] {
    } else {
      DeletePrefix(rows[1..], if n == 0 then 0 else n - 1, ids);
    }
  }

  lemma InsertKeepsLog(c: Library, w: World, s: Step, org: string)
    requires LogInv(w, org) && s.Insert? && Enabled(c, w, s) && OldestFirst(w, s)
    requires forall r :: r in w.live ==> r in w.ever
    ensures LogInv(Exec(c, w, s), org)
    ensures Removed(Exec(c, w, s), org) == Removed(w, org) && OfOrg(w.ever, org) <= OfOrg(Exec(c, w, s).ever, org)
  {
    InsertKeepsOrder(w.live, s.row);
    InsertIntoOrg(w.live, s.row, org);
    OfOrgConcat(w.ever, [s.row], org);
    var log, more := OfOrg(w.ever, org), OfOrg([s.row], org);
    assert more == if s.row.organizationId == org then [s.row] else [];
    OfOrgMembers(w.ever, org);
    assert forall i :: 0 <= i < |log| ==> log[i] in w.ever;
    LongerLog(log, more, Removed(w, org), w.archives, w.batches, org);
  }

  lemma LongerLog(log: seq<Row>, more: seq<Row>, gone: int, archives: seq<Archive>, batches: seq<Batch>, org: string)
    requires Cut(log, gone, archives, batches, org) && StrictlyOrdered(log + more)
    ensures Cut(log + more, gone, archives, batches, org)
    ensures (log + more)[gone..] == log[gone..] + more
  {
    forall k | 0 <= k < |batches| && archives[k].organizationId == org ensures SliceOf(log + more, batches[k]) {
      assert SliceOf(log, batches[k]);
    }
  }

  /** Appending a batch that starts within the reach leaves no gap. */
  lemma AppendedBatch(log: seq<Row>, gone: int, archives: seq<Archive>, batches: seq<Batch>, org: string, a: Archive, b: Batch)
    requires Cut(log, gone, archives, batches, org)
    requires a.organizationId == org ==> SliceOf(log, b) && b.start <= Reach(archives, batches, org)
    ensures Cut(log, gone, archives + [a], batches + [b], org)
    ensures Reach(archives + [a], batches + [b], org) ==
      if a.organizationId == org && End(b) > Reach(archives, batches, org) then End(b) else Reach(archives, batches, org)
  {
    var as', bs', n := archives + [a], batches + [b], |batches|;
    assert as'[..n] == archives && bs'[..n] == batches;
    forall p | 0 <= p < Reach(as', bs', org) ensures Covered(as', bs', org, p) {
      if p < Reach(archives, batches, org) {
        assert Covered(archives, batches, org, p);
        var k :| 0 <= k < n && archives[k].organizationId == org && batches[k].start <= p < End(batches[k]);
        assert as'[k] == archives[k] && bs'[k] == batches[k];
      } else {
        assert as'[n] == a && bs'[n] == b;
      }
    }
    forall k | 0 <= k < |bs'| && as'[k].organizationId == org ensures SliceOf(log, bs'[k]) {
      if k < n { assert SliceOf(log, batches[k]); }
    }
  }

  lemma WriteKeepsLog(c: Library, w: World, s: Step, org: string)
    requires Lossless(c) && LogInv(w, org) && s.Write? && Enabled(c, w, s) && OldestFirst(w, s)
    ensures LogInv(Exec(c, w, s), org)
    ensures ArchivedUpTo(Exec(c, w, s), org) ==
      if |Exec(c, w, s).archives| > |w.archives| && s.org == org then Max(ArchivedUpTo(w, org), Removed(w, org) + |s.records|)
      else ArchivedUpTo(w, org)
  {
    var v := Exec(c, w, s);
    WriteAppends(c, w, s);
    if v.archives != w.archives {
      WrittenBatch(w, s.org, s.records, org, v.archives[|w.archives|]);
    }
  }

  lemma WrittenBatch(w: World, owner: string, records: seq<Row>, org: string, a: Archive)
    requires LogInv(w, org) && records <= OfOrg(w.live, owner) && a.organizationId == owner
    ensures var archives, batches := w.archives + [a], w.batches + [Batch(Removed(w, owner), records)];
      && Cut(OfOrg(w.ever, org), Removed(w, org), archives, batches, org)
      && Reach(archives, batches, org) ==
           if owner == org then Max(ArchivedUpTo(w, org), Removed(w, org) + |records|) else ArchivedUpTo(w, org)
  {
    var log, live, gone := OfOrg(w.ever, org), OfOrg(w.live, org), Removed(w, org);
    var b := Batch(Removed(w, owner), records);
    if owner == org {
      assert b.rows == live[..|b.rows|] == log[gone..gone + |b.rows|];
    }
    AppendedBatch(log, gone, w.archives, w.batches, org, a, b);
  }

  /** How many rows of `org` the deletion of `records` takes. */
  function Taken(records: seq<Row>, org: string): nat
    requires records != []
  {
    if records[0].organizationId == org then |records| else 0
  }

  /** Deleting a batch that was written from the front of the live rows moves the cut by its length. */
  lemma DeleteKeepsLog(c: Library, w: World, s: Step, org: string)
    requires Lossless(c) && Inv(c, w) && LogInv(w, org) && s.Delete? && Enabled(c, w, s) && OldestFirst(w, s)
    requires CollisionFree(c.sha256, Exec(c, w, s).texts)
    ensures LogInv(Exec(c, w, s), org)
    ensures Removed(Exec(c, w, s), org) == Removed(w, org) + Taken(s.records, org)
  {
    DeletedBatchIsStored(c, w, s, org);
    DeletedRowsMoveCut(w, Exec(c, w, s), s.records, org);
  }

  lemma DeletedBatchIsStored(c: Library, w: World, s: Step, org: string)
    requires Lossless(c) && Inv(c, w) && LogInv(w, org) && s.Delete? && Enabled(c, w, s) && OldestFirst(w, s)
    requires CollisionFree(c.sha256, w.texts + {c.stringify(s.records)})
    ensures Taken(s.records, org) == 0 || EndsAt(w, org, Removed(w, org) + Taken(s.records, org))
  {
    if Taken(s.records, org) > 0 {
      var k := ReadBackIdentifies(c, w, s.records);
      WrittenAtTheCut(c, w, s.records, org, k);
    }
  }

  predicate EndsAt(w: World, org: string, end: int)
    requires |w.batches| == |w.archives|
  {
    exists k :: 0 <= k < |w.batches| && w.archives[k].organizationId == org && End(w.batches[k]) == end
  }

  lemma DeletedRowsMoveCut(w: World, v: World, records: seq<Row>, org: string)
    requires forall r, s :: r in w.ever && s in w.ever && r.id == s.id ==> r == s
    requires forall r :: r in w.live ==> r in w.ever
    requires LogInv(w, org)
    requires records != [] && records <= OfOrg(w.live, records[0].organizationId)
    requires v == w.(live := DeleteAuditLogs(w.live, Ids(records)), texts := v.texts)
    requires Taken(records, org) == 0 || EndsAt(w, org, Removed(w, org) + Taken(records, org))
    ensures LogInv(v, org)
    ensures Removed(v, org) == Removed(w, org) + Taken(records, org)
  {
    DeletedOfOrg(w, records, org);
    MoveCut(OfOrg(w.ever, org), Removed(w, org), w.archives, w.batches, org, Taken(records, org));
  }

  lemma DeletedOfOrg(w: World, records: seq<Row>, org: string)
    requires forall r, s :: r in w.ever && s in w.ever && r.id == s.id ==> r == s
    requires forall r :: r in w.live ==> r in w.ever
    requires LogInv(w, org)
    requires records != [] && records <= OfOrg(w.live, records[0].organizationId)
    ensures Taken(records, org) <= |OfOrg(w.live, org)|
    ensures OfOrg(DeleteAuditLogs(w.live, Ids(records)), org) == OfOrg(w.live, org)[Taken(records, org)..]
    ensures TimeOrdered(DeleteAuditLogs(w.live, Ids(records)))
  {
    DeleteKeepsOrder(w.live, Ids(records));
    DeleteFromOrg(w.live, Ids(records), org);
    LiveIsOrdered(w, org);
    IdsOfFront(w, records, org);
    DeletePrefix(OfOrg(w.live, org), Taken(records, org), Ids(records));
  }

  lemma MoveCut(log: seq<Row>, gone: int, archives: seq<Archive>, batches: seq<Batch>, org: string, n: nat)
    requires Cut(log, gone, archives, batches, org)
    requires n == 0 || exists k ::
      0 <= k < |batches| && archives[k].organizationId == org && End(batches[k]) == gone + n
    ensures Cut(log, gone + n, archives, batches, org)
    ensures log[gone..][n..] == log[gone + n..]
  {
    ReachIsMaximum(archives, batches, org);
  }

  lemma IdsOfFront(w: World, records: seq<Row>, org: string)
    requires forall r, s :: r in w.ever && s in w.ever && r.id == s.id ==> r == s
    requires forall r :: r in w.live ==> r in w.ever
    requires StrictlyOrdered(OfOrg(w.live, org))
    requires records != [] && records <= OfOrg(w.live, records[0].organizationId)
    ensures var live, ids, n := OfOrg(w.live, org), Ids(records), Taken(records, org);
      && n <= |live|
      && (forall i :: 0 <= i < n ==> live[i].id in ids)
      && (forall i :: n <= i < |live| ==> live[i].id !in ids)
  {
    var owner, ids, n := records[0].organizationId, Ids(records), Taken(records, org);
    var live, own := OfOrg(w.live, org), OfOrg(w.live, owner);
    OfOrgMembers(w.live, org);
    OfOrgMembers(w.live, owner);
    forall i | 0 <= i < n ensures live[i].id in ids {
      assert ids[i] == records[i].id;
    }
    forall i | n <= i < |live| ensures live[i].id !in ids {
      assert live[i] in live;
    }
  }

  lemma WrittenAtTheCut(c: Library, w: World, records: seq<Row>, org: string, k: nat)
    requires Inv(c, w) && LogInv(w, org) && k < |w.archives|
    requires records != [] && records <= OfOrg(w.live, org) && records[0].organizationId == org
    requires w.batches[k].rows == records
    ensures w.archives[k].organizationId == org && End(w.batches[k]) == Removed(w, org) + |records|
  {
    assert Describes(c, w.archives[k], w.batches[k], w.texts);
    assert records[0] in w.batches[k].rows;
    assert SliceOf(OfOrg(w.ever, org), w.batches[k]);
    SlicePosition(OfOrg(w.ever, org), w.batches[k], Removed(w, org));
  }

  /** A slice of the log that matches the log at some position was cut there. */
  lemma SlicePosition(log: seq<Row>, b: Batch, at: nat)
    requires StrictlyOrdered(log) && SliceOf(log, b) && b.rows != [] && at <= |log| && b.rows <= log[at..]
    ensures b.start == at
  {
    assert b.rows[0] == log[at..][0] == log[at];
    assert b.rows[0] == log[b.start];
  }

  lemma LiveIsOrdered(w: World, org: string)
    requires LogInv(w, org)
    ensures StrictlyOrdered(OfOrg(w.live, org))
  {
  }

  lemma StepKeepsLog(c: Library, w: World, s: Step, org: string)
    requires Lossless(c) && Inv(c, w) && LogInv(w, org) && Enabled(c, w, s) && OldestFirst(w, s)
    requires CollisionFree(c.sha256, Exec(c, w, s).texts)
    ensures LogInv(Exec(c, w, s), org)
  {
    match s {
      case Insert(_) => InsertKeepsLog(c, w, s, org);
      case Write(_, _, _, _, _) => WriteKeepsLog(c, w, s, org);
      case Delete(_) => DeleteKeepsLog(c, w, s, org);
    }
  }

  lemma {:induction false} RunKeepsLog(c: Library, w: World, steps: seq<Step>, org: string)
    requires Lossless(c) && Inv(c, w) && LogInv(w, org) && RunsOldestFirst(c, w, steps) && Runs(c, w, steps)
    requires CollisionFree(c.sha256, Final(c, w, steps).texts)
    ensures LogInv(Final(c, w, steps), org)
    ensures Inv(c, Final(c, w, steps))
    decreases |steps|
  {
    if steps == [] {
    } else {
      var v := Exec(c, w, steps[0]);
      TextsGrow(c, v, steps[1..]);
      StepKeepsInv(c, w, steps[0]);
      StepKeepsLog(c, w, steps[0], org);
      RunKeepsLog(c, v, steps[1..], org);
    }
  }

  // ----- the anchor -----

  predicate Hashy(a: Archive, org: string) {
    a.organizationId == org && a.chainBoundaryHash.Some?
  }

  predicate NotBefore(a: Archive, b: Archive) {
    a.archivedThrough > b.archivedThrough || (a.archivedThrough == b.archivedThrough && a.createdAt >= b.createdAt)
  }

  predicate Newest(archives: seq<Archive>, org: string, k: nat) {
    && k < |archives| && Hashy(archives[k], org)
    && forall j :: 0 <= j < |archives| && Hashy(archives[j], org) ==> NotBefore(archives[k], archives[j])
  }

  /** `anchor` is an answer the query of `findArchiveAnchor` may give: its order leaves ties open. */
  predicate AnchorOf(archives: seq<Archive>, org: string, anchor: Option<string>) {
    || (anchor.None? && forall k :: 0 <= k < |archives| ==> !Hashy(archives[k], org))
    || exists k :: 0 <= k < |archives| && Newest(archives, org, k) && anchor == archives[k].chainBoundaryHash
  }

  /** `findArchiveAnchor`. */
  method FindArchiveAnchor(archives: seq<Archive>, org: string) returns (anchor: Option<string>)
    ensures AnchorOf(archives, org, anchor)
  {
    var best := -1;
    for i := 0 to |archives|
      invariant -1 <= best < i
      invariant best == -1 ==> forall j :: 0 <= j < i ==> !Hashy(archives[j], org)
      invariant best >= 0 ==> Hashy(archives[best], org)
      invariant best >= 0 ==>
        forall j :: 0 <= j < i && Hashy(archives[j], org) ==> NotBefore(archives[best], archives[j])
    {
      if Hashy(archives[i], org) && (best == -1 || !NotBefore(archives[best], archives[i])) {
        best := i;
      }
    }
    if best == -1 {
      return None;
    }
    assert Newest(archives, org, best);
    return archives[best].chainBoundaryHash;
  }

  // ----- the newest hash of a prefix of the log -----

  predicate Truthy(r: Row) {
    r.hash.Some? && r.hash.value != ""
  }

  lemma {:induction false} NoLastHash(rows: seq<Row>)
    ensures LastHashOf(rows).None? <==> forall i :: 0 <= i < |rows| ==> !Truthy(rows[i])
  {
    if rows == [] {
    } else {
      var n := |rows| - 1;
      NoLastHash(rows[..n]);
      assert rows == rows[..n] + [rows[n]];
    }
  }

  lemma {:induction false} LastHashConcat(a: seq<Row>, b: seq<Row>)
    ensures LastHashOf(a + b) == if LastHashOf(b).Some? then LastHashOf(b) else LastHashOf(a)
    decreases |b|
  {
    if b == [] {
      assert a + b == a;
    } else {
      var n := |b| - 1;
      assert (a + b)[..|a| + n] == a + b[..n];
      LastHashConcat(a, b[..n]);
    }
  }

  /** The newest hash among the first `n` rows of a log. */
  function NewestHash(log: seq<Row>, n: int): Option<string>
    requires 0 <= n <= |log|
  {
    LastHashOf(log[..n])
  }

  lemma NewestHashMoves(log: seq<Row>, i: nat, j: nat)
    requires i <= j <= |log|
    ensures NewestHash(log, j) == if LastHashOf(log[i..j]).Some? then LastHashOf(log[i..j]) else NewestHash(log, i)
  {
    assert log[..j] == log[..i] + log[i..j];
    LastHashConcat(log[..i], log[i..j]);
  }

  /** What a stored archive records about the batch it was written from. */
  predicate Records(a: Archive, b: Batch) {
    && b.rows != []
    && a.chainBoundaryHash == LastHashOf(b.rows)
    && a.archivedThrough == b.rows[|b.rows| - 1].createdAt
  }

  ghost predicate AllRecord(archives: seq<Archive>, batches: seq<Batch>) {
    |batches| == |archives| && forall k :: 0 <= k < |batches| ==> Records(archives[k], batches[k])
  }

  lemma InvRecords(c: Library, w: World)
    requires Inv(c, w)
    ensures AllRecord(w.archives, w.batches)
  {
    forall k | 0 <= k < |w.batches| ensures Records(w.archives[k], w.batches[k]) {
      assert Describes(c, w.archives[k], w.batches[k], w.texts);
    }
  }

  lemma BatchEnd(log: seq<Row>, a: Archive, b: Batch)
    requires SliceOf(log, b) && Records(a, b)
    ensures b.start < End(b) && a.archivedThrough == log[End(b) - 1].createdAt
    ensures a.chainBoundaryHash.Some? ==> a.chainBoundaryHash == NewestHash(log, End(b))
  {
    NewestHashMoves(log, b.start, End(b));
  }

  /** Every hashed batch ends at or before position `end` of the log. */
  predicate HashedUpTo(archives: seq<Archive>, org: string, log: seq<Row>, end: int)
    requires 0 <= end <= |log|
  {
    forall j :: 0 <= j < |archives| && Hashy(archives[j], org) ==>
      end > 0 && archives[j].archivedThrough <= log[end - 1].createdAt
  }

  /** A covered position past every hashed batch holds a row without a hash. */
  lemma UnhashedPosition(
    log: seq<Row>, gone: int, archives: seq<Archive>, batches: seq<Batch>, org: string, end: int, p: int)
    requires Cut(log, gone, archives, batches, org) && AllRecord(archives, batches)
    requires 0 <= end <= p < Reach(archives, batches, org) && HashedUpTo(archives, org, log, end)
    ensures !Truthy(log[p])
  {
    assert Covered(archives, batches, org, p);
    var j :| 0 <= j < |batches| && archives[j].organizationId == org && batches[j].start <= p < End(batches[j]);
    var b := batches[j];
    assert SliceOf(log, b) && Records(archives[j], b);
    BatchEnd(log, archives[j], b);
    NoLastHash(b.rows);
    assert log[p] == b.rows[p - b.start];
  }

  lemma UnhashedTail(log: seq<Row>, gone: int, archives: seq<Archive>, batches: seq<Batch>, org: string, end: int)
    requires Cut(log, gone, archives, batches, org) && AllRecord(archives, batches)
    requires 0 <= end <= Reach(archives, batches, org) && HashedUpTo(archives, org, log, end)
    ensures NewestHash(log, Reach(archives, batches, org)) == NewestHash(log, end)
  {
    var top := Reach(archives, batches, org);
    forall p | end <= p < top ensures !Truthy(log[p]) {
      UnhashedPosition(log, gone, archives, batches, org, end, p);
    }
    NoLastHash(log[end..top]);
    NewestHashMoves(log, end, top);
  }

  lemma NewestBatchAnchors(
    log: seq<Row>, gone: int, archives: seq<Archive>, batches: seq<Batch>, org: string, k: nat)
    requires Cut(log, gone, archives, batches, org) && AllRecord(archives, batches) && Newest(archives, org, k)
    ensures archives[k].chainBoundaryHash == NewestHash(log, Reach(archives, batches, org))
  {
    assert SliceOf(log, batches[k]) && Records(archives[k], batches[k]);
    BatchEnd(log, archives[k], batches[k]);
    ReachIsMaximum(archives, batches, org);
    UnhashedTail(log, gone, archives, batches, org, End(batches[k]));
  }

  /**
   * Whatever order ties are returned in, and whether or not the archived rows form a chain, the anchor is the
   * newest hash of everything the archive holds.
   */
  lemma AnchorIsNewestHash(
    log: seq<Row>, gone: int, archives: seq<Archive>, batches: seq<Batch>, org: string, anchor: Option<string>)
    requires Cut(log, gone, archives, batches, org) && AllRecord(archives, batches) && AnchorOf(archives, org, anchor)
    ensures anchor == NewestHash(log, Reach(archives, batches, org))
  {
    if exists k :: 0 <= k < |archives| && Newest(archives, org, k) && anchor == archives[k].chainBoundaryHash {
      var k :| 0 <= k < |archives| && Newest(archives, org, k) && anchor == archives[k].chainBoundaryHash;
      NewestBatchAnchors(log, gone, archives, batches, org, k);
    } else {
      UnhashedTail(log, gone, archives, batches, org, 0);
    }
  }

  // ----- runs of completed batches -----

  /** Every write is followed by the deletion of the same records. */
  predicate CompletedBatches(steps: seq<Step>)
    decreases |steps|
  {
    steps == [] ||
    (|steps| >= 2 && steps[0].Write? && steps[1] == Delete(steps[0].records) && CompletedBatches(steps[2..]))
  }

  /**
   * Completed batches among insertions, which may fall between two batches or within one; `held` is the batch that
   * has been written and not yet deleted.
   */
  predicate Interleaved(steps: seq<Step>, held: Option<seq<Row>>)
    decreases |steps|
  {
    if steps == [] then held.None?
    else match steps[0]
      case Insert(_) => Interleaved(steps[1..], held)
      case Write(_, records, _, _, _) => held.None? && Interleaved(steps[1..], Some(records))
      case Delete(records) => held == Some(records) && Interleaved(steps[1..], None)
  }

  lemma {:induction false} CompletedIsInterleaved(steps: seq<Step>)
    requires CompletedBatches(steps)
    ensures Interleaved(steps, None)
    decreases |steps|
  {
    if steps == [] {
    } else {
      assert steps[1..][0] == steps[1] && steps[1..][1..] == steps[2..];
      CompletedIsInterleaved(steps[2..]);
    }
  }

  /**
   * From `w` to `v` the log of `org` may have grown and its cut moved on; the archive reaches at least as far, and at
   * most `ahead` rows further.
   */
  predicate Advanced(w: World, v: World, org: string, ahead: nat) {
    && OfOrg(w.ever, org) <= OfOrg(v.ever, org) && |w.batches| == |w.archives| && |v.batches| == |v.archives|
    && Removed(w, org) <= Removed(v, org)
    && Max(ArchivedUpTo(w, org), Removed(v, org)) <= ArchivedUpTo(v, org)
         <= Max(ArchivedUpTo(w, org), Removed(v, org) + ahead)
  }

  /** The same with no batch held: the archive reaches exactly as far as it did or as the cut. */
  predicate MovedOn(w: World, v: World, org: string) {
    Advanced(w, v, org, 0)
  }

  /** How many rows of `org` the held batch will take. */
  function HeldOf(held: Option<seq<Row>>, org: string): nat {
    if held.Some? && held.value != [] then Taken(held.value, org) else 0
  }

  /** A write touches neither the live rows nor the log, and its batch belongs to one organization. */
  lemma WriteFrame(c: Library, w: World, s: Step, org: string)
    requires s.Write? && Enabled(c, w, s)
    ensures var u := Exec(c, w, s);
      && u.live == w.live && u.ever == w.ever && Removed(u, org) == Removed(w, org)
      && s.records != [] && s.records[0].organizationId == s.org
  {
    assert s.records[0] in s.records;
  }

  lemma ReachesTheCut(w: World, org: string)
    requires LogInv(w, org)
    ensures |w.batches| == |w.archives| && 0 <= Removed(w, org) <= ArchivedUpTo(w, org) <= |OfOrg(w.ever, org)|
  {
  }

  lemma BatchKeepsInv(c: Library, w: World, first: Step, second: Step)
    requires Lossless(c) && Inv(c, w) && first.Write? && Enabled(c, w, first)
    requires second == Delete(first.records) && Enabled(c, Exec(c, w, first), second)
    requires CollisionFree(c.sha256, Exec(c, Exec(c, w, first), second).texts)
    ensures Inv(c, Exec(c, w, first)) && Inv(c, Exec(c, Exec(c, w, first), second))
  {
    WriteKeepsInv(c, w, first);
    DeleteKeepsInv(c, Exec(c, w, first), second);
  }

  lemma BatchKeepsLog(c: Library, w: World, first: Step, second: Step, org: string)
    requires Lossless(c) && Inv(c, w) && LogInv(w, org)
    requires first.Write? && Enabled(c, w, first) && OldestFirst(w, first)
    requires second == Delete(first.records) && Enabled(c, Exec(c, w, first), second)
    requires OldestFirst(Exec(c, w, first), second)
    requires CollisionFree(c.sha256, Exec(c, Exec(c, w, first), second).texts)
    ensures LogInv(Exec(c, Exec(c, w, first), second), org)
  {
    BatchKeepsInv(c, w, first, second);
    WriteKeepsLog(c, w, first, org);
    DeleteKeepsLog(c, Exec(c, w, first), second, org);
  }

  lemma InsertAdvances(c: Library, w: World, v: World, s: Step, org: string, ahead: nat)
    requires Advanced(w, v, org, ahead) && LogInv(v, org) && s.Insert? && Enabled(c, v, s) && OldestFirst(v, s)
    requires forall r :: r in v.live ==> r in v.ever
    ensures Advanced(w, Exec(c, v, s), org, ahead)
  {
    InsertKeepsLog(c, v, s, org);
  }

  lemma WriteAdvances(c: Library, w: World, v: World, s: Step, org: string)
    requires Lossless(c) && Advanced(w, v, org, 0) && LogInv(v, org)
    requires s.Write? && Enabled(c, v, s) && OldestFirst(v, s)
    ensures Advanced(w, Exec(c, v, s), org, HeldOf(Some(s.records), org))
  {
    WriteKeepsLog(c, v, s, org);
    WriteFrame(c, v, s, org);
  }

  lemma DeleteAdvances(c: Library, w: World, v: World, s: Step, org: string)
    requires Lossless(c) && Inv(c, v) && LogInv(v, org) && s.Delete? && Enabled(c, v, s) && OldestFirst(v, s)
    requires Advanced(w, v, org, HeldOf(Some(s.records), org)) && CollisionFree(c.sha256, Exec(c, v, s).texts)
    ensures Advanced(w, Exec(c, v, s), org, 0)
  {
    DeleteKeepsLog(c, v, s, org);
    ReachesTheCut(Exec(c, v, s), org);
    TakingCatchesUp(w, v, Exec(c, v, s), org, HeldOf(Some(s.records), org));
  }

  lemma TakingCatchesUp(w: World, u: World, v: World, org: string, n: nat)
    requires Advanced(w, u, org, n) && v.ever == u.ever && v.archives == u.archives && v.batches == u.batches
    requires Removed(v, org) == Removed(u, org) + n <= ArchivedUpTo(v, org)
    ensures Advanced(w, v, org, 0)
  {
  }

  /** One completed batch moves the cut of its own organization by its length and of no other. */
  lemma BatchMovesCut(c: Library, w: World, first: Step, second: Step, org: string)
    requires Lossless(c) && Inv(c, w) && LogInv(w, org)
    requires first.Write? && Enabled(c, w, first) && OldestFirst(w, first)
    requires second == Delete(first.records) && Enabled(c, Exec(c, w, first), second)
    requires OldestFirst(Exec(c, w, first), second)
    requires CollisionFree(c.sha256, Exec(c, Exec(c, w, first), second).texts)
    ensures MovedOn(w, Exec(c, Exec(c, w, first), second), org)
  {
    var u, v := Exec(c, w, first), Exec(c, Exec(c, w, first), second);
    ReachesTheCut(w, org);
    WriteAdvances(c, w, w, first, org);
    WriteFrame(c, w, first, org);
    BatchKeepsLog(c, w, first, second, org);
    BatchTakes(c, w, first, second, org);
    ReachesTheCut(v, org);
    TakingCatchesUp(w, u, v, org, HeldOf(Some(first.records), org));
  }

  lemma BatchTakes(c: Library, w: World, first: Step, second: Step, org: string)
    requires Lossless(c) && Inv(c, w) && LogInv(w, org)
    requires first.Write? && Enabled(c, w, first) && OldestFirst(w, first)
    requires second == Delete(first.records) && Enabled(c, Exec(c, w, first), second)
    requires OldestFirst(Exec(c, w, first), second)
    requires CollisionFree(c.sha256, Exec(c, Exec(c, w, first), second).texts)
    ensures var v := Exec(c, Exec(c, w, first), second);
      v.ever == w.ever && Removed(v, org) == Removed(w, org) + if first.org == org then |first.records| else 0
  {
    BatchKeepsInv(c, w, first, second);
    WriteKeepsLog(c, w, first, org);
    WriteFrame(c, w, first, org);
    DeleteKeepsLog(c, Exec(c, w, first), second, org);
  }

  lemma StepAdvances(c: Library, w: World, v: World, s: Step, org: string, held: Option<seq<Row>>)
    requires Lossless(c) && Inv(c, v) && LogInv(v, org) && Enabled(c, v, s) && OldestFirst(v, s)
    requires Advanced(w, v, org, HeldOf(held, org)) && CollisionFree(c.sha256, Exec(c, v, s).texts)
    requires s.Write? ==> held.None?
    requires s.Delete? ==> held == Some(s.records)
    ensures Advanced(w, Exec(c, v, s), org,
      HeldOf(match s case Insert(_) => held case Write(_, records, _, _, _) => Some(records) case Delete(_) => None, org))
  {
    match s {
      case Insert(_) => InsertAdvances(c, w, v, s, org, HeldOf(held, org));
      case Write(_, _, _, _, _) => WriteAdvances(c, w, v, s, org);
      case Delete(_) => DeleteAdvances(c, w, v, s, org);
    }
  }

  lemma {:induction false} RunAdvances(
    c: Library, w: World, v: World, steps: seq<Step>, org: string, held: Option<seq<Row>>)
    requires Lossless(c) && Inv(c, v) && LogInv(v, org) && Advanced(w, v, org, HeldOf(held, org))
    requires RunsOldestFirst(c, v, steps) && Runs(c, v, steps) && Interleaved(steps, held)
    requires CollisionFree(c.sha256, Final(c, v, steps).texts)
    ensures MovedOn(w, Final(c, v, steps), org)
    decreases |steps|
  {
    if steps == [] {
    } else {
      var u := Exec(c, v, steps[0]);
      TextsGrow(c, u, steps[1..]);
      StepKeepsInv(c, v, steps[0]);
      StepKeepsLog(c, v, steps[0], org);
      StepAdvances(c, w, v, steps[0], org, held);
      match steps[0] {
        case Insert(_) => RunAdvances(c, w, u, steps[1..], org, held);
        case Write(_, records, _, _, _) => RunAdvances(c, w, u, steps[1..], org, Some(records));
        case Delete(_) => RunAdvances(c, w, u, steps[1..], org, None);
      }
    }
  }

  /** Over any number of completed batches among insertions. */
  lemma PassMovesCut(c: Library, w: World, steps: seq<Step>, org: string)
    requires Lossless(c) && Inv(c, w) && LogInv(w, org)
    requires RunsOldestFirst(c, w, steps) && Runs(c, w, steps) && Interleaved(steps, None)
    requires CollisionFree(c.sha256, Final(c, w, steps).texts)
    ensures MovedOn(w, Final(c, w, steps), org)
  {
    ReachesTheCut(w, org);
    RunAdvances(c, w, w, steps, org, None);
  }
}
