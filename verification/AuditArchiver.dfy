/**
 * The archival job over the two tables: select the oldest expired rows, group them by organization, and move
 * each group into the archive in the order write, read back, delete.
 */
module AuditArchiver {
  import opened Wrappers
  import opened AuditChain
  import opened AuditArchive
  import opened AuditAnchor
  import opened Dates

  datatype Group = Group(organizationId: string, records: seq<Row>)

  predicate OwnRows(records: seq<Row>, group: Group) {
    group.records != [] && group.records == OfOrg(records, group.organizationId)
  }

  predicate HasGroup(groups: seq<Group>, org: string) {
    exists g :: 0 <= g < |groups| && groups[g].organizationId == org
  }

  /** Where the organization first occurs among the records, or their number if it does not. */
  function FirstOf(records: seq<Row>, org: string): (r: nat)
    ensures r <= |records|
  {
    if records == [] || records[0].organizationId == org then 0 else 1 + FirstOf(records[1..], org)
  }

  /** One group per organization that occurs, in order of first occurrence, each keeping the order of the records. */
  predicate Grouped(records: seq<Row>, groups: seq<Group>) {
    && (forall g :: 0 <= g < |groups| ==> OwnRows(records, groups[g]))
    && (forall g :: 0 <= g < |groups| ==> FirstOf(records, groups[g].organizationId) < |records|)
    && (forall g, h :: 0 <= g < h < |groups| ==>
          FirstOf(records, groups[g].organizationId) < FirstOf(records, groups[h].organizationId))
    && (forall i :: 0 <= i < |records| ==> HasGroup(groups, records[i].organizationId))
  }

  /** `groupByOrganization`. */
  method GroupByOrganization(records: seq<Row>) returns (groups: seq<Group>)
    ensures Grouped(records, groups)
  {
    groups := [];
    for i := 0 to |records|
      invariant Grouped(records[..i], groups)
    {
      var g := FindGroup(groups, records[i].organizationId);
      GroupOneMore(records, i, groups, g);
      groups := Added(groups, records[i], g);
    }
    assert records[..|records|] == records;
  }

  /** Appends to the group at `g`, or starts a new one. */
  function Added(groups: seq<Group>, record: Row, g: nat): seq<Group> {
    if g < |groups| then groups[g := groups[g].(records := groups[g].records + [record])]
    else groups + [Group(record.organizationId, [record])]
  }

  lemma GroupOneMore(records: seq<Row>, i: nat, groups: seq<Group>, g: nat)
    requires i < |records| && Grouped(records[..i], groups) && g <= |groups|
    requires if g < |groups| then groups[g].organizationId == records[i].organizationId
             else !HasGroup(groups, records[i].organizationId)
    ensures Grouped(records[..i + 1], Added(groups, records[i], g))
  {
    assert records[..i + 1] == records[..i] + [records[i]];
    AddToGroups(records[..i], groups, records[i], g);
  }

  lemma AddToGroups(records: seq<Row>, groups: seq<Group>, record: Row, g: nat)
    requires Grouped(records, groups) && g <= |groups|
    requires if g < |groups| then groups[g].organizationId == record.organizationId
             else !HasGroup(groups, record.organizationId)
    ensures Grouped(records + [record], Added(groups, record, g))
  {
    var all, after := records + [record], Added(groups, record, g);
    forall k | 0 <= k < |groups| ensures FirstOf(all, groups[k].organizationId) == FirstOf(records, groups[k].organizationId) {
      FirstOfAppend(records, record, groups[k].organizationId);
    }
    if g == |groups| {
      FirstOfAppend(records, record, record.organizationId);
      NewOrganization(records, groups, record.organizationId);
    }
    forall k | 0 <= k < |after| ensures OwnRows(all, after[k]) {
      AddedOwns(records, groups, record, g, k);
    }
    forall i | 0 <= i < |all| ensures HasGroup(after, all[i].organizationId) {
      if i < |records| {
        assert HasGroup(groups, records[i].organizationId);
        var k :| 0 <= k < |groups| && groups[k].organizationId == records[i].organizationId;
        assert after[k].organizationId == all[i].organizationId;
      } else {
        assert after[g].organizationId == all[i].organizationId;
      }
    }
  }

  lemma {:induction false} FirstOfAppend(records: seq<Row>, record: Row, org: string)
    ensures FirstOf(records, org) < |records| ==> FirstOf(records + [record], org) == FirstOf(records, org)
    ensures FirstOf(records, org) == |records| && record.organizationId == org ==>
      FirstOf(records + [record], org) == |records|
  {
    if records == [] {
    } else {
      assert (records + [record])[1..] == records[1..] + [record];
      FirstOfAppend(records[1..], record, org);
    }
  }

  lemma NewOrganization(records: seq<Row>, groups: seq<Group>, org: string)
    requires Grouped(records, groups) && !HasGroup(groups, org)
    ensures FirstOf(records, org) == |records|
  {
    FirstOfFound(records, org);
  }

  lemma {:induction false} FirstOfFound(records: seq<Row>, org: string)
    ensures FirstOf(records, org) < |records| ==> records[FirstOf(records, org)].organizationId == org
  {
    if records == [] {
    } else {
      FirstOfFound(records[1..], org);
    }
  }

  lemma AddedOwns(records: seq<Row>, groups: seq<Group>, record: Row, g: nat, k: nat)
    requires Grouped(records, groups) && g <= |groups| && k < |Added(groups, record, g)|
    requires if g < |groups| then groups[g].organizationId == record.organizationId
             else !HasGroup(groups, record.organizationId)
    ensures OwnRows(records + [record], Added(groups, record, g)[k])
  {
    var org := Added(groups, record, g)[k].organizationId;
    OfOrgConcat(records, [record], org);
    assert OfOrg([record], org) == if record.organizationId == org then [record] else [];
    if k < |groups| {
      assert OwnRows(records, groups[k]);
      assert k != g ==> org != record.organizationId;
    } else {
      forall i | 0 <= i < |records| ensures records[i].organizationId != org {
        assert HasGroup(groups, records[i].organizationId);
      }
      NoneOfOrg(records, org);
    }
  }

  method FindGroup(groups: seq<Group>, org: string) returns (g: nat)
    ensures g <= |groups|
    ensures g < |groups| ==> groups[g].organizationId == org
    ensures g == |groups| ==> !HasGroup(groups, org)
  {
    g := 0;
    while g < |groups|
      invariant g <= |groups| && forall h :: 0 <= h < g ==> groups[h].organizationId != org
    {
      if groups[g].organizationId == org { return; }
      g := g + 1;
    }
  }

  /** `lastHashOf`: the backward scan for the newest truthy hash. */
  method FindLastHash(records: seq<Row>) returns (hash: Option<string>)
    ensures hash == LastHashOf(records)
  {
    var index := |records| - 1;
    assert records[..index + 1] == records;
    while index >= 0
      invariant -1 <= index < |records|
      invariant LastHashOf(records) == LastHashOf(records[..index + 1])
    {
      var h := records[index].hash;
      if h.Some? && h.value != "" {
        return h;
      }
      assert records[..index + 1][..index] == records[..index];
      index := index - 1;
    }
    assert records[..0] == [];
    return None;
  }

  // ----- what a batch does to the live table -----

  lemma {:induction false} DeleteSparesOthers(live: seq<Row>, ids: seq<string>, owner: string)
    requires forall i :: 0 <= i < |live| && live[i].organizationId != owner ==> live[i].id !in ids
    ensures |DeleteAuditLogs(live, ids)| ==
      |live| - |OfOrg(live, owner)| + |DeleteAuditLogs(OfOrg(live, owner), ids)|
  {
    if live == [] {
    } else {
      DeleteSparesOthers(live[1..], ids, owner);
    }
  }

  lemma {:induction false} OfOrgDistinct(live: seq<Row>, org: string)
    requires DistinctIds(live)
    ensures DistinctIds(OfOrg(live, org))
  {
    if live == [] {
    } else {
      OfOrgDistinct(live[1..], org);
      OfOrgMembers(live[1..], org);
      forall x | x in OfOrg(live[1..], org) ensures x.id != live[0].id {
        assert x in live[1..];
      }
    }
  }

  lemma {:induction false} DeleteKeepsDistinct(live: seq<Row>, ids: seq<string>)
    requires DistinctIds(live)
    ensures DistinctIds(DeleteAuditLogs(live, ids))
  {
    if live == [] {
    } else {
      DeleteKeepsDistinct(live[1..], ids);
      DeletedMembers(live[1..], ids);
      forall x | x in DeleteAuditLogs(live[1..], ids) ensures x.id != live[0].id {
        assert x in live[1..];
      }
    }
  }

  lemma DistinctRows(live: seq<Row>, x: Row, y: Row)
    requires DistinctIds(live) && x in live && y in live && x.id == y.id
    ensures x == y
  {
  }

  /** Deleting a batch from the front of an organization's rows removes exactly those rows. */
  lemma BatchLeaves(live: seq<Row>, records: seq<Row>, owner: string)
    requires DistinctIds(live) && TimeOrdered(live) && records <= OfOrg(live, owner)
    ensures var rest := DeleteAuditLogs(live, Ids(records));
      && DistinctIds(rest) && TimeOrdered(rest)
      && |rest| == |live| - |records|
      && (forall r :: r in rest ==> r in live)
      && (forall org :: org != owner ==> OfOrg(rest, org) == OfOrg(live, org))
  {
    var ids := Ids(records);
    DeleteKeepsDistinct(live, ids);
    DeleteKeepsOrder(live, ids);
    DeletedMembers(live, ids);
    OthersSpared(live, records, owner);
    OwnFrontDeleted(live, records, owner);
    DeleteSparesOthers(live, ids, owner);
    forall org | org != owner ensures OfOrg(DeleteAuditLogs(live, ids), org) == OfOrg(live, org) {
      DeleteFromOrg(live, ids, org);
      OfOrgMembers(live, org);
      DeletePrefix(OfOrg(live, org), 0, ids);
    }
  }

  lemma OthersSpared(live: seq<Row>, records: seq<Row>, owner: string)
    requires DistinctIds(live) && records <= OfOrg(live, owner)
    ensures forall i :: 0 <= i < |live| && live[i].organizationId != owner ==> live[i].id !in Ids(records)
  {
    var ids := Ids(records);
    OfOrgMembers(live, owner);
    forall i | 0 <= i < |live| && live[i].organizationId != owner ensures live[i].id !in ids {
      if live[i].id in ids {
        var j :| 0 <= j < |ids| && ids[j] == live[i].id;
        DistinctRows(live, live[i], records[j]);
      }
    }
  }

  lemma OwnFrontDeleted(live: seq<Row>, records: seq<Row>, owner: string)
    requires DistinctIds(live) && records <= OfOrg(live, owner)
    ensures DeleteAuditLogs(OfOrg(live, owner), Ids(records)) == OfOrg(live, owner)[|records|..]
  {
    var ids, own := Ids(records), OfOrg(live, owner);
    OfOrgDistinct(live, owner);
    forall i | 0 <= i < |records| ensures own[i].id in ids {
      assert ids[i] == records[i].id;
    }
    DeletePrefix(own, |records|, ids);
  }

  /** Rows of an organization among the first `n` listed rows come first among all its rows. */
  lemma SelectionIsFront(live: seq<Row>, n: nat, org: string)
    requires n <= |live|
    ensures OfOrg(live[..n], org) <= OfOrg(live, org)
  {
    assert live == live[..n] + live[n..];
    OfOrgConcat(live[..n], live[n..], org);
  }

  // ----- a pass in which every write is intact -----

  /** Some consecutive rows of one organization: what a batch of a pass may be. */
  ghost predicate BatchOf(live: seq<Row>, records: seq<Row>) {
    records != [] && exists org, i, j :: SliceOfOrg(live, records, org, i, j)
  }

  predicate SliceOfOrg(live: seq<Row>, records: seq<Row>, org: string, i: int, j: int) {
    0 <= i <= j <= |OfOrg(live, org)| && records == OfOrg(live, org)[i..j]
  }

  /**
   * Nothing stands in the way of a pass: ids are free of commas, no two id texts of possible batches collide, and a
   * possible batch that is already stored reads back.
   */
  ghost predicate Ready(c: Library, archives: seq<Archive>, live: seq<Row>) {
    && (forall r :: r in live ==> ',' !in r.id)
    && (forall a, b :: BatchOf(live, a) && BatchOf(live, b) ==> CollisionFree(c.sha256, {IdText(a), IdText(b)}))
    && (forall a :: BatchOf(live, a) ==> RetryPasses(c, archives, a))
  }

  predicate RetryPasses(c: Library, archives: seq<Archive>, records: seq<Row>) {
    FindArchive(archives, BatchIdFor(c, records)).Some? ==> ReadBack(c, archives, records)
  }

  lemma FrontIsBatch(live: seq<Row>, records: seq<Row>, org: string)
    requires records != [] && records <= OfOrg(live, org)
    ensures BatchOf(live, records)
  {
    assert SliceOfOrg(live, records, org, 0, |records|);
  }

  lemma BatchRows(live: seq<Row>, records: seq<Row>)
    requires BatchOf(live, records)
    ensures forall i :: 0 <= i < |records| ==> records[i] in live
  {
    var org, i, j :| SliceOfOrg(live, records, org, i, j);
    OfOrgMembers(live, org);
    forall k | 0 <= k < |records| ensures records[k] in live {
      assert records[k] == OfOrg(live, org)[i + k];
    }
  }

  /** An intact write of a front batch reads back. */
  lemma ReadyReadsBack(c: Library, archives: seq<Archive>, live: seq<Row>, org: string, records: seq<Row>, cutoff: Time, at: Time)
    requires Lossless(c) && Ready(c, archives, live) && records != [] && records <= OfOrg(live, org)
    ensures ReadBack(c, CreateArchive(archives, ArchiveFor(c, org, records, cutoff, at), Intact), records)
  {
    FrontIsBatch(live, records, org);
    if FindArchive(archives, BatchIdFor(c, records)).None? {
      ReadBackAfterWrite(c, archives, org, records, cutoff, at, Intact);
    } else {
      assert RetryPasses(c, archives, records);
    }
  }

  /** What a completed batch leaves of the live rows. */
  ghost predicate Shrunk(live: seq<Row>, rest: seq<Row>, records: seq<Row>, owner: string) {
    && (forall r :: r in rest ==> r in live && r.id !in Ids(records))
    && |records| <= |OfOrg(live, owner)|
    && forall org :: OfOrg(rest, org) == OfOrg(live, org)[(if org == owner then |records| else 0)..]
  }

  lemma BatchShrinks(live: seq<Row>, records: seq<Row>, owner: string)
    requires DistinctIds(live) && TimeOrdered(live) && records <= OfOrg(live, owner)
    ensures Shrunk(live, DeleteAuditLogs(live, Ids(records)), records, owner)
  {
    BatchLeaves(live, records, owner);
    DeletedMembers(live, Ids(records));
    OwnFrontDeleted(live, records, owner);
    DeleteFromOrg(live, Ids(records), owner);
  }

  lemma StillBatch(live: seq<Row>, rest: seq<Row>, records: seq<Row>, owner: string, b: seq<Row>)
    requires Shrunk(live, rest, records, owner) && BatchOf(rest, b)
    ensures BatchOf(live, b) && b[0].id !in Ids(records)
  {
    var org, i, j :| SliceOfOrg(rest, b, org, i, j);
    var k := if org == owner then |records| else 0;
    assert b == OfOrg(live, org)[k + i..k + j];
    assert SliceOfOrg(live, b, org, k + i, k + j);
    BatchRows(rest, b);
  }

  /** Storing a batch under another id changes nothing for this one. */
  lemma RetryUnderOtherId(c: Library, archives: seq<Archive>, a: Archive, b: seq<Row>)
    requires RetryPasses(c, archives, b) && a.batchId != BatchIdFor(c, b)
    ensures RetryPasses(c, archives + [a], b)
  {
    FindAppended(archives, a, BatchIdFor(c, b));
  }

  /** The archive after the write of a batch under its id: as before, or one batch longer. */
  predicate StoredUnder(archives: seq<Archive>, stored: seq<Archive>, batchId: string) {
    stored == archives ||
    (|stored| == |archives| + 1 && stored[..|archives|] == archives && stored[|archives|].batchId == batchId)
  }

  lemma RetryAfterBatch(c: Library, archives: seq<Archive>, stored: seq<Archive>, live: seq<Row>, a: seq<Row>, b: seq<Row>)
    requires Ready(c, archives, live) && BatchOf(live, a) && BatchOf(live, b) && b[0].id !in Ids(a)
    requires StoredUnder(archives, stored, BatchIdFor(c, a))
    ensures RetryPasses(c, stored, b)
  {
    OtherIdIsOther(c, live, a, b);
    if stored != archives {
      assert stored == archives + [stored[|archives|]];
      RetryUnderOtherId(c, archives, stored[|archives|], b);
    }
  }

  lemma ReadyAfterBatch(
    c: Library, archives: seq<Archive>, stored: seq<Archive>, live: seq<Row>, rest: seq<Row>, records: seq<Row>, owner: string)
    requires Ready(c, archives, live) && records != [] && records <= OfOrg(live, owner) && Shrunk(live, rest, records, owner)
    requires StoredUnder(archives, stored, BatchIdFor(c, records))
    ensures Ready(c, stored, rest)
  {
    FrontIsBatch(live, records, owner);
    forall b | BatchOf(rest, b) ensures BatchOf(live, b) && RetryPasses(c, stored, b) {
      StillBatch(live, rest, records, owner, b);
      RetryAfterBatch(c, archives, stored, live, records, b);
    }
  }

  lemma StoredUnderId(c: Library, archives: seq<Archive>, org: string, records: seq<Row>, cutoff: Time, at: Time, fate: Fate)
    requires records != []
    ensures StoredUnder(archives, CreateArchive(archives, ArchiveFor(c, org, records, cutoff, at), fate), BatchIdFor(c, records))
  {
  }

  lemma OtherIdIsOther(c: Library, live: seq<Row>, a: seq<Row>, b: seq<Row>)
    requires BatchOf(live, a) && BatchOf(live, b) && b[0].id !in Ids(a) && forall r :: r in live ==> ',' !in r.id
    requires CollisionFree(c.sha256, {IdText(a), IdText(b)})
    ensures BatchIdFor(c, a) != BatchIdFor(c, b)
  {
    BatchRows(live, a);
    BatchRows(live, b);
    BatchIdIdentifies(c, a, b);
    assert Ids(b)[0] in multiset(Ids(b));
  }

  /**
   * After a crash, or any run whose stored batches are all intact, a pass is ready: a batch that was written before
   * the crash and is written again reads back.
   */
  lemma IntactHistoryIsReady(c: Library, w: World)
    requires Lossless(c) && Inv(c, w) && forall org :: LogInv(w, org)
    requires forall i :: 0 <= i < |w.archives| ==> Readable(c, w.archives[i], w.batches[i])
    requires forall r :: r in w.ever ==> ',' !in r.id
    requires forall a, b :: BatchOf(w.ever, a) && BatchOf(w.ever, b) ==> CollisionFree(c.sha256, {IdText(a), IdText(b)})
    ensures Ready(c, w.archives, w.live)
  {
    forall a | BatchOf(w.live, a) ensures BatchOf(w.ever, a) && RetryPasses(c, w.archives, a) {
      var org, i, j :| SliceOfOrg(w.live, a, org, i, j);
      LiveSlice(w, a, org, i, j);
      StoredRetryPasses(c, w, a, org, Removed(w, org) + i, Removed(w, org) + j);
    }
  }

  lemma LiveSlice(w: World, a: seq<Row>, org: string, i: int, j: int)
    requires LogInv(w, org) && SliceOfOrg(w.live, a, org, i, j)
    ensures SliceOfOrg(w.ever, a, org, Removed(w, org) + i, Removed(w, org) + j)
  {
    var log, gone := OfOrg(w.ever, org), Removed(w, org);
    assert log[gone..][i..j] == log[gone + i..gone + j];
  }

  lemma StoredRetryPasses(c: Library, w: World, a: seq<Row>, org: string, i: int, j: int)
    requires Lossless(c) && Inv(c, w) && (forall o :: LogInv(w, o)) && a != [] && SliceOfOrg(w.ever, a, org, i, j)
    requires forall k :: 0 <= k < |w.archives| ==> Readable(c, w.archives[k], w.batches[k])
    requires forall r :: r in w.ever ==> ',' !in r.id
    requires forall x, y :: BatchOf(w.ever, x) && BatchOf(w.ever, y) ==> CollisionFree(c.sha256, {IdText(x), IdText(y)})
    ensures RetryPasses(c, w.archives, a)
  {
    var found := FindArchive(w.archives, BatchIdFor(c, a));
    if found.Some? {
      var k :| 0 <= k < |w.archives| && w.archives[k] == found.value;
      var b, o := w.batches[k], w.archives[k].organizationId;
      StoredBatch(c, w, k);
      assert BatchOf(w.ever, a) && BatchOf(w.ever, b.rows);
      assert LogInv(w, org);
      SameIdSameBatch(c, w.ever, a, org, i, j, b.rows, o, b.start, End(b));
      IntactReadsBack(c, w, k);
    }
  }

  lemma StoredBatch(c: Library, w: World, k: nat)
    requires Inv(c, w) && k < |w.archives| && LogInv(w, w.archives[k].organizationId)
    ensures var a, b := w.archives[k], w.batches[k];
      && b.rows != [] && SliceOfOrg(w.ever, b.rows, a.organizationId, b.start, End(b))
      && a.batchId == BatchIdFor(c, b.rows)
  {
    assert Describes(c, w.archives[k], w.batches[k], w.texts);
    assert SliceOf(OfOrg(w.ever, w.archives[k].organizationId), w.batches[k]);
  }

  lemma SliceRows(ever: seq<Row>, a: seq<Row>, org: string, i: int, j: int)
    requires SliceOfOrg(ever, a, org, i, j)
    ensures forall k :: 0 <= k < |a| ==> a[k] in ever && a[k].organizationId == org
  {
    OfOrgMembers(ever, org);
    forall k | 0 <= k < |a| ensures a[k] in ever && a[k].organizationId == org {
      assert a[k] == OfOrg(ever, org)[i + k];
    }
  }

  /** Two batches of a log with one id are one batch. */
  lemma SameIdSameBatch(
    c: Library, ever: seq<Row>, a: seq<Row>, org: string, i: int, j: int, b: seq<Row>, o: string, k: int, l: int)
    requires a != [] && b != [] && SliceOfOrg(ever, a, org, i, j) && SliceOfOrg(ever, b, o, k, l)
    requires StrictlyOrdered(OfOrg(ever, org)) && forall r, s :: r in ever && s in ever && r.id == s.id ==> r == s
    requires (forall r :: r in ever ==> ',' !in r.id) && CollisionFree(c.sha256, {IdText(a), IdText(b)})
    requires BatchIdFor(c, a) == BatchIdFor(c, b)
    ensures a == b
  {
    SliceRows(ever, a, org, i, j);
    SliceRows(ever, b, o, k, l);
    BatchIdIdentifies(c, a, b);
    SharedRow(ever, a, b, 0);
    SharedRow(ever, b, a, 0);
    SameLength(Ids(a), Ids(b));
    SameSlice(OfOrg(ever, org), a, b, i, k);
  }

  lemma SameLength(a: seq<string>, b: seq<string>)
    requires multiset(a) == multiset(b)
    ensures |a| == |b|
  {
    assert |multiset(a)| == |a| && |multiset(b)| == |b|;
  }

  lemma SharedRow(ever: seq<Row>, a: seq<Row>, b: seq<Row>, i: nat)
    requires i < |a| && multiset(Ids(a)) == multiset(Ids(b))
    requires (forall k :: 0 <= k < |a| ==> a[k] in ever) && (forall k :: 0 <= k < |b| ==> b[k] in ever)
    requires forall r, s :: r in ever && s in ever && r.id == s.id ==> r == s
    ensures a[i] in b
  {
    assert Ids(a)[i] in multiset(Ids(b));
    var k :| 0 <= k < |Ids(b)| && Ids(b)[k] == a[i].id;
  }

  lemma SameSlice(log: seq<Row>, a: seq<Row>, b: seq<Row>, i: int, k: int)
    requires StrictlyOrdered(log) && 0 <= i && i + |a| <= |log| && 0 <= k && k + |b| <= |log| && |a| == |b| > 0
    requires a == log[i..i + |a|] && b == log[k..k + |b|] && a[0] in b && b[0] in a
    ensures a == b
  {
    var x :| 0 <= x < |b| && b[x] == a[0];
    var y :| 0 <= y < |a| && a[y] == b[0];
    assert log[i] == log[k + x] && log[k] == log[i + y];
  }

  // ----- runs in batches -----

  lemma RunConcat(c: Library, w: World, a: seq<Step>, b: seq<Step>)
    requires RunsOldestFirst(c, w, a) && Runs(c, w, a)
    requires RunsOldestFirst(c, Final(c, w, a), b) && Runs(c, Final(c, w, a), b)
    ensures RunsOldestFirst(c, w, a + b) && Runs(c, w, a + b)
    ensures Final(c, w, a + b) == Final(c, Final(c, w, a), b)
  {
    RunsConcat(c, w, a, b);
    OldestFirstConcat(c, w, a, b);
  }

  lemma {:induction false} RunsConcat(c: Library, w: World, a: seq<Step>, b: seq<Step>)
    requires Runs(c, w, a) && Runs(c, Final(c, w, a), b)
    ensures Runs(c, w, a + b) && Final(c, w, a + b) == Final(c, Final(c, w, a), b)
    decreases |a|
  {
    if a == [] {
      assert a + b == b;
    } else {
      assert (a + b)[0] == a[0] && (a + b)[1..] == a[1..] + b;
      RunsConcat(c, Exec(c, w, a[0]), a[1..], b);
    }
  }

  lemma OldestFirstCons(c: Library, w: World, s: Step, rest: seq<Step>)
    requires Enabled(c, w, s) && OldestFirst(w, s) && RunsOldestFirst(c, Exec(c, w, s), rest)
    ensures RunsOldestFirst(c, w, [s] + rest)
  {
    assert ([s] + rest)[0] == s && ([s] + rest)[1..] == rest;
  }

  lemma {:induction false} OldestFirstConcat(c: Library, w: World, a: seq<Step>, b: seq<Step>)
    requires Runs(c, w, a) && RunsOldestFirst(c, w, a) && RunsOldestFirst(c, Final(c, w, a), b)
    ensures RunsOldestFirst(c, w, a + b)
    decreases |a|
  {
    ConsConcat(a, b);
    if a == [] {
    } else {
      OldestFirstConcat(c, Exec(c, w, a[0]), a[1..], b);
      OldestFirstCons(c, w, a[0], a[1..] + b);
    }
  }

  lemma ConsConcat(a: seq<Step>, b: seq<Step>)
    ensures a + b == if a == [] then b else [a[0]] + (a[1..] + b)
  {
  }

  lemma {:induction false} BatchesConcat(a: seq<Step>, b: seq<Step>)
    requires CompletedBatches(a) && CompletedBatches(b)
    ensures CompletedBatches(a + b)
    decreases |a|
  {
    if a == [] {
      assert a + b == b;
    } else {
      assert (a + b)[2..] == a[2..] + b;
      BatchesConcat(a[2..], b);
    }
  }

  lemma OneStep(c: Library, w: World, s: Step)
    requires Enabled(c, w, s) && OldestFirst(w, s)
    ensures RunsOldestFirst(c, w, [s]) && Runs(c, w, [s]) && Final(c, w, [s]) == Exec(c, w, s)
  {
    assert [s][1..] == [];
  }

  lemma TwoSteps(c: Library, w: World, s: Step, t: Step)
    requires Enabled(c, w, s) && OldestFirst(w, s)
    requires Enabled(c, Exec(c, w, s), t) && OldestFirst(Exec(c, w, s), t)
    ensures RunsOldestFirst(c, w, [s, t]) && Runs(c, w, [s, t])
    ensures Final(c, w, [s, t]) == Exec(c, Exec(c, w, s), t)
  {
    OneStep(c, Exec(c, w, s), t);
    assert [s, t][1..] == [t];
  }

  lemma OneBatch(write: Step, remove: Step)
    requires write.Write? && remove == Delete(write.records)
    ensures CompletedBatches([write, remove])
  {
    assert [write, remove][2..] == [];
  }

  /** How the database treats the n-th batch of a run: the fate of its write, and the time it is stamped with. */
  datatype Disk = Disk(fate: nat -> Fate, clock: nat -> Time)

  /** Every write of the run is stored as sent, and nothing stands in the way of its batches. */
  ghost predicate Promising(c: Library, disk: Disk, archives: seq<Archive>, live: seq<Row>) {
    Lossless(c) && (forall n :: disk.fate(n).Intact?) && Ready(c, archives, live)
  }

  /** The steps lead from `w` to `v`, oldest rows first, and insert nothing. */
  ghost predicate RunFrom(c: Library, w: World, v: World, steps: seq<Step>) {
    RunsOldestFirst(c, w, steps) && Runs(c, w, steps) && v == Final(c, w, steps) && v.ever == w.ever
  }

  /** After `n` completed batches, a write that was not followed by its deletion. */
  predicate EndsInWrite(steps: seq<Step>, n: nat) {
    |steps| == 2 * n + 1 && CompletedBatches(steps[..2 * n]) && steps[2 * n].Write?
  }

  lemma EndsInWriteConcat(a: seq<Step>, b: seq<Step>, n: nat, m: nat)
    requires |a| == 2 * n && CompletedBatches(a) && EndsInWrite(b, m)
    ensures EndsInWrite(a + b, n + m)
  {
    assert (a + b)[..2 * (n + m)] == a + b[..2 * m];
    BatchesConcat(a, b[..2 * m]);
  }

  lemma RunFromConcat(c: Library, w: World, a: seq<Step>, b: seq<Step>)
    requires RunsOldestFirst(c, w, a) && Runs(c, w, a)
    requires RunsOldestFirst(c, Final(c, w, a), b) && Runs(c, Final(c, w, a), b)
    requires Final(c, w, a).ever == w.ever && Final(c, Final(c, w, a), b).ever == w.ever
    ensures RunFrom(c, w, Final(c, Final(c, w, a), b), a + b)
  {
    RunConcat(c, w, a, b);
  }

  predicate AllBefore(records: seq<Row>, cutoff: Time) {
    forall r :: r in records ==> r.createdAt < cutoff
  }

  /** Only rows before the cutoff are written or deleted, and the batches record that cutoff. */
  predicate ExpiredStep(s: Step, cutoff: Time) {
    match s
    case Insert(_) => false
    case Write(_, records, limit, _, _) => limit == cutoff && AllBefore(records, cutoff)
    case Delete(records) => AllBefore(records, cutoff)
  }

  /** The steps touch expired rows only, and the rows that have not expired are all still there. */
  ghost predicate TakesExpired(live: seq<Row>, rest: seq<Row>, steps: seq<Step>, cutoff: Time) {
    && (forall i :: 0 <= i < |steps| ==> ExpiredStep(steps[i], cutoff))
    && (forall r :: r in live && r.createdAt >= cutoff ==> r in rest)
  }

  lemma TakesExpiredConcat(
    live: seq<Row>, between: seq<Row>, rest: seq<Row>, a: seq<Step>, b: seq<Step>, cutoff: Time)
    requires TakesExpired(live, between, a, cutoff) && TakesExpired(between, rest, b, cutoff)
    ensures TakesExpired(live, rest, a + b, cutoff)
  {
  }

  lemma WriteTakesNothing(live: seq<Row>, s: Step, cutoff: Time)
    requires s.Write? && ExpiredStep(s, cutoff)
    ensures TakesExpired(live, live, [s], cutoff)
  {
  }

  lemma FrontIsExpired(records: seq<Row>, own: seq<Row>, k: nat, cutoff: Time)
    requires records <= own && AllBefore(records, cutoff) && k < |own| && own[k].createdAt >= cutoff
    ensures |records| <= k
  {
    assert forall i :: 0 <= i < |records| ==> own[i] == records[i] && records[i] in records;
  }

  lemma BatchTakesExpired(live: seq<Row>, rest: seq<Row>, write: Step, remove: Step, owner: string, cutoff: Time)
    requires write.Write? && remove.Delete? && write.records == remove.records && ExpiredStep(write, cutoff)
    requires remove.records <= OfOrg(live, owner) && Shrunk(live, rest, remove.records, owner)
    ensures TakesExpired(live, rest, [write, remove], cutoff)
  {
    forall r | r in live && r.createdAt >= cutoff ensures r in rest {
      UnexpiredStays(live, rest, remove.records, owner, r, cutoff);
    }
  }

  lemma UnexpiredStays(live: seq<Row>, rest: seq<Row>, records: seq<Row>, owner: string, r: Row, cutoff: Time)
    requires records <= OfOrg(live, owner) && AllBefore(records, cutoff) && Shrunk(live, rest, records, owner)
    requires r in live && r.createdAt >= cutoff
    ensures r in rest
  {
    var own := OfOrg(live, r.organizationId);
    OfOrgMembers(live, r.organizationId);
    OfOrgMembers(rest, r.organizationId);
    var k :| 0 <= k < |own| && own[k] == r;
    if r.organizationId == owner {
      FrontIsExpired(records, own, k, cutoff);
    }
    var from := if r.organizationId == owner then |records| else 0;
    assert OfOrg(rest, r.organizationId) == own[from..] && own[from..][k - from] == r;
  }

  lemma GroupsHaveExpired(records: seq<Row>, groups: seq<Group>, cutoff: Time)
    requires AllBefore(records, cutoff) && Grouped(records, groups)
    ensures forall h :: 0 <= h < |groups| ==> AllBefore(groups[h].records, cutoff)
  {
    forall h | 0 <= h < |groups| ensures AllBefore(groups[h].records, cutoff) {
      assert OwnRows(records, groups[h]);
      OfOrgMembers(records, groups[h].organizationId);
    }
  }

  datatype RunResult =
    | Completed(batches: nat, archivedRecords: nat, deletedRecords: nat)
    | Aborted(batches: nat, archivedRecords: nat, error: ArchiveError)

  predicate NoneBefore(live: seq<Row>, cutoff: Time) {
    forall i :: 0 <= i < |live| ==> live[i].createdAt >= cutoff
  }

  /**
   * What a result counts: each batch a write and a deletion of the same rows, at least one row each, and all rows that
   * are `gone` from the table; an aborted run ends in a write without its deletion.
   */
  predicate Tallied(result: RunResult, steps: seq<Step>, gone: int) {
    && result.batches <= result.archivedRecords == gone
    && (result.Completed? ==>
          CompletedBatches(steps) && |steps| == 2 * result.batches && result.deletedRecords == result.archivedRecords)
    && (result.Aborted? ==> EndsInWrite(steps, result.batches))
  }

  lemma TalliedMore(
    batches: nat, archived: nat, steps: seq<Step>, gone: int, error: Option<ArchiveError>, done: nat, more: nat, next: seq<Step>)
    requires Tallied(Completed(batches, archived, archived), steps, gone) && done <= more
    requires if error.Some? then EndsInWrite(next, done) else CompletedBatches(next) && |next| == 2 * done
    ensures error.Some? ==> Tallied(Aborted(batches + done, archived + more, error.value), steps + next, gone + more)
    ensures error.None? ==> Tallied(Completed(batches + done, archived + more, archived + more), steps + next, gone + more)
  {
    if error.Some? {
      EndsInWriteConcat(steps, next, batches, done);
    } else {
      BatchesConcat(steps, next);
    }
  }

  class AuditArchiveService {
    const lib: Library
    var live: seq<Row>
    var archives: seq<Archive>
    ghost var world: World

    ghost predicate Valid()
      reads this
    {
      && world.live == live && world.archives == archives
      && DistinctIds(live) && TimeOrdered(live)
      && (forall r :: r in live ==> r in world.ever)
    }

    constructor (lib: Library, rows: seq<Row>)
      requires DistinctIds(rows) && TimeOrdered(rows)
      ensures Valid() && Start(world) && this.lib == lib && live == rows
    {
      this.lib := lib;
      live, archives := rows, [];
      world := World(rows, [], [], rows, {});
    }

    /** `findArchivable`: the oldest rows before the cutoff, at most `limit` of them. */
    method FindArchivable(cutoff: Time, limit: nat) returns (records: seq<Row>)
      requires Valid() && limit >= 1
      ensures records <= live && |records| <= limit
      ensures forall i :: 0 <= i < |records| ==> records[i].createdAt < cutoff
      ensures |records| < limit ==> forall i :: |records| <= i < |live| ==> live[i].createdAt >= cutoff
    {
      var n := 0;
      while n < |live| && n < limit && live[n].createdAt < cutoff
        invariant n <= |live| && n <= limit
        invariant forall i :: 0 <= i < n ==> live[i].createdAt < cutoff
      {
        n := n + 1;
      }
      return live[..n];
    }

    /** The write of a batch: the archive row is computed from the records and stored, if the disk takes it. */
    method WriteBatch(org: string, records: seq<Row>, cutoff: Time, at: Time, fate: Fate)
      requires Valid() && records != [] && records <= OfOrg(live, org)
      modifies this
      ensures Valid() && live == old(live)
      ensures archives == CreateArchive(old(archives), ArchiveFor(lib, org, records, cutoff, at), fate)
      ensures var write := Write(org, records, cutoff, at, fate);
        && Enabled(lib, old(world), write) && OldestFirst(old(world), write)
        && world == Exec(lib, old(world), write)
    {
      var batchId := BatchIdFor(lib, records);
      var serialized := lib.stringify(records);
      var payload := lib.gzip(serialized);
      var checksum := lib.sha256(serialized);
      var chainBoundaryHash := FindLastHash(records);
      var archivedThrough := records[|records| - 1].createdAt;
      var archive := Archive(batchId, org, cutoff, |records|, payload, checksum, chainBoundaryHash, archivedThrough, at);
      OfOrgMembers(live, org);
      archives := CreateArchive(archives, archive, fate);
      world := Exec(lib, world, Write(org, records, cutoff, at, fate));
    }

    /** The deletion of a batch that was read back. */
    method DeleteBatch(org: string, records: seq<Row>) returns (count: nat)
      requires Valid() && records != [] && records <= OfOrg(live, org)
      requires ReadBack(lib, archives, records)
      modifies this
      ensures Valid() && archives == old(archives)
      ensures Enabled(lib, old(world), Delete(records)) && OldestFirst(old(world), Delete(records))
      ensures world == Exec(lib, old(world), Delete(records))
      ensures count == |records| == |old(live)| - |live|
      ensures Shrunk(old(live), live, records, org)
    {
      BatchLeaves(live, records, org);
      BatchShrinks(live, records, org);
      OfOrgMembers(live, org);
      assert records[0] in records;
      count := |live|;
      live := DeleteAuditLogs(live, Ids(records));
      count := count - |live|;
      world := Exec(lib, world, Delete(records));
    }

    /** `archiveBatch`: write, read back, delete; a failed read-back keeps the source rows. */
    method ArchiveBatch(org: string, records: seq<Row>, cutoff: Time, at: Time, fate: Fate)
      returns (r: Result<nat, ArchiveError>, ghost steps: seq<Step>)
      requires Valid() && records != [] && records <= OfOrg(live, org)
      modifies this
      ensures Valid() && RunFrom(lib, old(world), world, steps)
      ensures r.Failure? ==>
        && live == old(live) && steps == [Write(org, records, cutoff, at, fate)]
        && VerifyArchive(lib, archives, BatchIdFor(lib, records), lib.sha256(lib.stringify(records)), |records|) == Failure(r.error)
      ensures r.Success? ==>
        && steps == [Write(org, records, cutoff, at, fate), Delete(records)]
        && r.value == |records| == |old(live)| - |live|
        && Shrunk(old(live), live, records, org)
      ensures Lossless(lib) && fate.Intact? && old(Ready(lib, archives, live)) ==> r.Success? && Ready(lib, archives, live)
      ensures AllBefore(records, cutoff) ==> TakesExpired(old(live), live, steps, cutoff)
    {
      ghost var before, rows, shelf := world, live, archives;
      ghost var write, remove := Write(org, records, cutoff, at, fate), Delete(records);
      WriteBatch(org, records, cutoff, at, fate);
      if Lossless(lib) && fate.Intact? && Ready(lib, shelf, rows) {
        ReadyReadsBack(lib, shelf, rows, org, records, cutoff, at);
      }
      var verified := VerifyArchive(lib, archives, BatchIdFor(lib, records), lib.sha256(lib.stringify(records)), |records|);
      if verified.Failure? {
        OneStep(lib, before, write);
        if AllBefore(records, cutoff) {
          WriteTakesNothing(live, write, cutoff);
        }
        return Failure(verified.error), [write];
      }
      var count := DeleteBatch(org, records);
      TwoSteps(lib, before, write, remove);
      if AllBefore(records, cutoff) {
        BatchTakesExpired(rows, live, write, remove, org, cutoff);
      }
      if Ready(lib, shelf, rows) {
        StoredUnderId(lib, shelf, org, records, cutoff, at, fate);
        ReadyAfterBatch(lib, shelf, archives, rows, live, records, org);
      }
      return Success(count), [write, remove];
    }

    /**
     * `archive`: at most `maxBatches` batches, each a write and a deletion of the same rows. A pass that stops
     * with batches to spare leaves no row older than the cutoff. A pass that aborts ends in a write whose read-back
     * failed; when every write is intact and nothing stands in the way, no pass aborts.
     */
    method RunPass(enabled: bool, cutoff: Time, batchSize: nat, maxBatches: nat, disk: Disk)
      returns (result: RunResult, ghost steps: seq<Step>)
      requires Valid() && batchSize >= 1
      modifies this
      ensures Valid() && RunFrom(lib, old(world), world, steps)
      ensures result.batches <= maxBatches && Tallied(result, steps, |old(live)| - |live|)
      ensures result.Completed? ==> Interleaved(steps, None)
      ensures old(Promising(lib, disk, archives, live)) ==> result.Completed? && Promising(lib, disk, archives, live)
      ensures result.Completed? && enabled && result.batches < maxBatches ==> NoneBefore(live, cutoff)
      ensures TakesExpired(old(live), live, steps, cutoff)
      ensures !enabled ==> live == old(live) && archives == old(archives)
    {
      if !enabled {
        return Completed(0, 0, 0), [];
      }
      result, steps := RunBatches(cutoff, batchSize, maxBatches, disk);
      if result.Completed? {
        CompletedIsInterleaved(steps);
      }
    }

    /** The loop of `archive`. */
    method RunBatches(cutoff: Time, batchSize: nat, maxBatches: nat, disk: Disk)
      returns (result: RunResult, ghost steps: seq<Step>)
      requires Valid() && batchSize >= 1
      modifies this
      ensures Valid() && RunFrom(lib, old(world), world, steps)
      ensures result.batches <= maxBatches && Tallied(result, steps, |old(live)| - |live|)
      ensures old(Promising(lib, disk, archives, live)) ==> result.Completed? && Promising(lib, disk, archives, live)
      ensures result.Completed? && result.batches < maxBatches ==> NoneBefore(live, cutoff)
      ensures TakesExpired(old(live), live, steps, cutoff)
    {
      ghost var good := Promising(lib, disk, archives, live);
      steps := [];
      var batches, archivedRecords, deletedRecords := 0, 0, 0;
      while batches < maxBatches
        invariant Valid() && RunFrom(lib, old(world), world, steps)
        invariant batches <= maxBatches
        invariant Tallied(Completed(batches, archivedRecords, deletedRecords), steps, |old(live)| - |live|)
        invariant good ==> Promising(lib, disk, archives, live)
        invariant TakesExpired(old(live), live, steps, cutoff)
        decreases maxBatches - batches
      {
        ghost var gone, was := |old(live)| - |live|, live;
        var found, error, done, archived, deletedInIteration, more := Round(cutoff, batchSize, batches, maxBatches, disk);
        RunFromConcat(lib, old(world), steps, more);
        TalliedMore(batches, archivedRecords, steps, gone, error, done, archived, more);
        TakesExpiredConcat(old(live), was, live, steps, more, cutoff);
        if error.Some? {
          return Aborted(batches + done, archivedRecords + archived, error.value), steps + more;
        }
        steps := steps + more;
        batches := batches + done;
        archivedRecords := archivedRecords + archived;
        deletedRecords := deletedRecords + deletedInIteration;
        if !found || deletedInIteration == 0 {
          break;
        }
      }
      return Completed(batches, archivedRecords, deletedRecords), steps;
    }

    /** One turn of the loop of `archive`: select, group, archive each group. */
    method Round(cutoff: Time, batchSize: nat, from: nat, maxBatches: nat, disk: Disk)
      returns (found: bool, error: Option<ArchiveError>, done: nat, archived: nat, deleted: nat, ghost steps: seq<Step>)
      requires Valid() && batchSize >= 1 && from < maxBatches
      modifies this
      ensures Valid() && RunFrom(lib, old(world), world, steps)
      ensures !found ==> done == 0 && error.None? && steps == [] && NoneBefore(live, cutoff)
      ensures from + done <= maxBatches && done <= archived == deleted == |old(live)| - |live|
      ensures error.Some? ==> EndsInWrite(steps, done)
      ensures error.None? ==> CompletedBatches(steps) && |steps| == 2 * done && (found ==> done >= 1)
      ensures old(Promising(lib, disk, archives, live)) ==> error.None? && Promising(lib, disk, archives, live)
      ensures TakesExpired(old(live), live, steps, cutoff)
    {
      var records := FindArchivable(cutoff, batchSize);
      if |records| == 0 {
        found, error, done, archived, deleted, steps := false, None, 0, 0, 0, [];
        return;
      }
      found := true;
      var groups := GroupByOrganization(records);
      SelectedGroups(live, records, groups);
      GroupsHaveExpired(records, groups, cutoff);
      error, done, archived, deleted, steps := ArchiveGroups(groups, cutoff, from, maxBatches, disk);
    }

    /** The loop of `archive` over the organizations of one selection, up to the batch limit or a failed batch. */
    method ArchiveGroups(groups: seq<Group>, cutoff: Time, from: nat, maxBatches: nat, disk: Disk)
      returns (error: Option<ArchiveError>, done: nat, archived: nat, deleted: nat, ghost steps: seq<Step>)
      requires Valid() && Waiting(live, groups, 0) && from <= maxBatches
      requires forall h :: 0 <= h < |groups| ==> AllBefore(groups[h].records, cutoff)
      modifies this
      ensures Valid() && RunFrom(lib, old(world), world, steps)
      ensures done <= |groups| && from + done <= maxBatches
      ensures done <= archived == deleted == |old(live)| - |live|
      ensures error.Some? ==> EndsInWrite(steps, done)
      ensures old(Promising(lib, disk, archives, live)) ==> error.None? && Promising(lib, disk, archives, live)
      ensures error.None? ==>
        CompletedBatches(steps) && |steps| == 2 * done && (done == |groups| || from + done == maxBatches)
      ensures TakesExpired(old(live), live, steps, cutoff)
    {
      ghost var good := Promising(lib, disk, archives, live);
      error, done, archived, deleted, steps := None, 0, 0, 0, [];
      while done < |groups| && from + done < maxBatches
        invariant Valid() && RunFrom(lib, old(world), world, steps)
        invariant done <= |groups| && from + done <= maxBatches && Waiting(live, groups, done)
        invariant CompletedBatches(steps) && |steps| == 2 * done
        invariant done <= archived == deleted == |old(live)| - |live|
        invariant good ==> Promising(lib, disk, archives, live)
        invariant TakesExpired(old(live), live, steps, cutoff)
      {
        var group := groups[done];
        var n := from + done;
        ghost var was := live;
        var r, more := ArchiveBatch(group.organizationId, group.records, cutoff, disk.clock(n), disk.fate(n));
        RunFromConcat(lib, old(world), steps, more);
        TakesExpiredConcat(old(live), was, live, steps, more, cutoff);
        if r.Failure? {
          EndsInWriteConcat(steps, more, done, 0);
          error, steps := Some(r.error), steps + more;
          return;
        }
        OneBatch(more[0], more[1]);
        BatchesConcat(steps, more);
        OthersWait(was, live, groups, done);
        steps := steps + more;
        archived := archived + |group.records|;
        deleted := deleted + r.value;
        done := done + 1;
      }
    }
  }

  /** The groups from position `from` on are still at the front of their organizations' live rows. */
  predicate Waiting(live: seq<Row>, groups: seq<Group>, from: nat) {
    && (forall g, h :: 0 <= g < h < |groups| ==> groups[g].organizationId != groups[h].organizationId)
    && forall h :: from <= h < |groups| ==> InFront(live, groups[h])
  }

  predicate InFront(live: seq<Row>, group: Group) {
    group.records != [] && group.records <= OfOrg(live, group.organizationId)
  }

  lemma SelectedGroups(live: seq<Row>, records: seq<Row>, groups: seq<Group>)
    requires records != [] && records <= live && Grouped(records, groups)
    ensures Waiting(live, groups, 0) && groups != []
  {
    forall g, h | 0 <= g < h < |groups| ensures groups[g].organizationId != groups[h].organizationId {
      assert FirstOf(records, groups[g].organizationId) < FirstOf(records, groups[h].organizationId);
    }
    assert HasGroup(groups, records[0].organizationId);
    assert records == live[..|records|];
    forall h | 0 <= h < |groups| ensures InFront(live, groups[h]) {
      assert OwnRows(records, groups[h]);
      SelectionIsFront(live, |records|, groups[h].organizationId);
    }
  }

  lemma OthersWait(live: seq<Row>, rest: seq<Row>, groups: seq<Group>, g: nat)
    requires g < |groups| && Waiting(live, groups, g) && Shrunk(live, rest, groups[g].records, groups[g].organizationId)
    ensures Waiting(rest, groups, g + 1)
  {
    forall h | g + 1 <= h < |groups| ensures InFront(rest, groups[h]) {
      assert InFront(live, groups[h]);
      assert OfOrg(rest, groups[h].organizationId) == OfOrg(live, groups[h].organizationId)[0..];
    }
  }
}
