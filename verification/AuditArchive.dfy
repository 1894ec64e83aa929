/**
 * Archival of audit rows as a machine of database steps: rows are inserted, a compressed batch is written,
 * and its source rows are deleted once the stored batch has been read back. A crash is a run that stops
 * between two steps; a retry or a regrouping is a run that goes on with other batches.
 */
module AuditArchive {
  import opened AuditChain
  import opened Dates
  import opened Text
  import opened Wrappers

  /** One row of the archive table. */
  datatype Archive = Archive(
    batchId: string,
    organizationId: string,
    cutoff: Time,
    recordCount: nat,
    payload: string,
    checksum: string,
    chainBoundaryHash: Option<string>,
    archivedThrough: Time,
    createdAt: Time)

  /** Hashing, compression and JSON, as the archiver calls them; `gunzip` and `parse` fail with `None`. */
  datatype Library = Library(
    sha256: string -> string,
    gzip: string -> string,
    gunzip: string -> Option<string>,
    stringify: seq<Row> -> string,
    parse: string -> Option<seq<Row>>)

  ghost predicate Lossless(c: Library) {
    && (forall t :: c.gunzip(c.gzip(t)) == Some(t))
    && (forall rows :: c.parse(c.stringify(rows)) == Some(rows))
  }

  // ----- queries -----

  function OfOrg(rows: seq<Row>, org: string): seq<Row> {
    if rows == [] then []
    else if rows[0].organizationId == org then [rows[0]] + OfOrg(rows[1..], org)
    else OfOrg(rows[1..], org)
  }

  lemma {:induction false} OfOrgMembers(rows: seq<Row>, org: string)
    ensures forall x :: x in OfOrg(rows, org) <==> x in rows && x.organizationId == org
  {
    if rows == [] {
    } else {
      OfOrgMembers(rows[1..], org);
    }
  }

  function Ids(rows: seq<Row>): (r: seq<string>)
    ensures |r| == |rows|
    ensures forall i :: 0 <= i < |rows| ==> r[i] == rows[i].id
  {
    seq(|rows|, i requires 0 <= i < |rows| => rows[i].id)
  }

  predicate Below(a: string, b: string) {
    if a == "" then b != ""
    else if b == "" then false
    else a[0] < b[0] || (a[0] == b[0] && Below(a[1..], b[1..]))
  }

  function InsertId(id: string, sorted: seq<string>): seq<string> {
    if sorted == [] || !Below(sorted[0], id) then [id] + sorted
    else [sorted[0]] + InsertId(id, sorted[1..])
  }

  function SortIds(ids: seq<string>): seq<string> {
    if ids == [] then [] else InsertId(ids[0], SortIds(ids[1..]))
  }

  /** The text a batch id is the digest of. */
  function IdText(records: seq<Row>): string {
    Join(SortIds(Ids(records)), ",")
  }

  function BatchIdFor(c: Library, records: seq<Row>): string {
    c.sha256(IdText(records))
  }

  predicate SortedIds(ids: seq<string>) {
    forall i, j :: 0 <= i < j < |ids| ==> !Below(ids[j], ids[i])
  }

  lemma {:induction false} BelowIsOrder(a: string, b: string, c: string)
    ensures !Below(a, a)
    ensures Below(a, b) && Below(b, c) ==> Below(a, c)
    ensures a != b ==> Below(a, b) || Below(b, a)
  {
    var x, y, z := if a == "" then "" else a[1..], if b == "" then "" else b[1..], if c == "" then "" else c[1..];
    if a != "" || b != "" || c != "" {
      BelowIsOrder(x, y, z);
      if a != "" && b != "" && a[0] == b[0] && a[1..] == b[1..] {
        assert a == [a[0]] + a[1..] && b == [b[0]] + b[1..];
      }
    }
  }

  lemma {:induction false} InsertIdMembers(id: string, s: seq<string>)
    ensures multiset(InsertId(id, s)) == multiset(s) + multiset{id}
  {
    if s == [] {
    } else {
      assert s == [s[0]] + s[1..];
      InsertIdMembers(id, s[1..]);
    }
  }

  lemma {:induction false} InsertIdSorted(id: string, s: seq<string>)
    requires SortedIds(s)
    ensures SortedIds(InsertId(id, s))
  {
    if s == [] {
    } else {
      if Below(s[0], id) {
        InsertIdSorted(id, s[1..]);
        InsertIdMembers(id, s[1..]);
        var rest := InsertId(id, s[1..]);
        BelowIsOrder(s[0], id, s[0]);
        forall j | 0 <= j < |rest| ensures !Below(rest[j], s[0]) {
          assert rest[j] in multiset(rest);
        }
      } else {
        forall j | 0 <= j < |s| ensures !Below(s[j], id) {
          BelowIsOrder(s[0], s[j], id);
          BelowIsOrder(s[j], id, s[0]);
        }
      }
    }
  }

  lemma {:induction false} SortIdsProps(ids: seq<string>)
    ensures SortedIds(SortIds(ids)) && multiset(SortIds(ids)) == multiset(ids)
  {
    if ids == [] {
    } else {
      SortIdsProps(ids[1..]);
      InsertIdMembers(ids[0], SortIds(ids[1..]));
      InsertIdSorted(ids[0], SortIds(ids[1..]));
      assert ids == [ids[0]] + ids[1..];
    }
  }

  lemma SmallestFirst(a: seq<string>, b: seq<string>)
    requires SortedIds(a) && SortedIds(b) && a != [] && b != [] && a[0] in b && b[0] in a
    ensures a[0] == b[0]
  {
    var i :| 0 <= i < |b| && b[i] == a[0];
    var j :| 0 <= j < |a| && a[j] == b[0];
    BelowIsOrder(a[0], b[0], a[0]);
  }

  lemma {:induction false} SortedIdsUnique(a: seq<string>, b: seq<string>)
    requires SortedIds(a) && SortedIds(b) && multiset(a) == multiset(b)
    ensures a == b
  {
    assert |multiset(a)| == |a| && |multiset(b)| == |b|;
    if a == [] {
    } else {
      assert a[0] in multiset(b) && b[0] in multiset(a);
      SmallestFirst(a, b);
      SameTails(a, b);
      SortedIdsUnique(a[1..], b[1..]);
    }
  }

  lemma SameTails(a: seq<string>, b: seq<string>)
    requires a != [] && b != [] && a[0] == b[0] && multiset(a) == multiset(b)
    ensures multiset(a[1..]) == multiset(b[1..])
  {
    assert a == [a[0]] + a[1..] && b == [b[0]] + b[1..];
    assert multiset(a[1..]) == multiset(a) - multiset{a[0]};
    assert multiset(b[1..]) == multiset(b) - multiset{b[0]};
  }

  /** The same set of records always produces the same batch id, in whatever order they come. */
  lemma BatchIdIgnoresOrder(c: Library, a: seq<Row>, b: seq<Row>)
    requires multiset(Ids(a)) == multiset(Ids(b))
    ensures BatchIdFor(c, a) == BatchIdFor(c, b)
  {
    SortIdsProps(Ids(a));
    SortIdsProps(Ids(b));
    SortedIdsUnique(SortIds(Ids(a)), SortIds(Ids(b)));
  }

  predicate PlainIds(rows: seq<Row>) {
    forall i :: 0 <= i < |rows| ==> ',' !in rows[i].id
  }

  lemma SortedArePlain(rows: seq<Row>)
    requires PlainIds(rows)
    ensures forall i :: 0 <= i < |SortIds(Ids(rows))| ==> ',' !in SortIds(Ids(rows))[i]
    ensures |SortIds(Ids(rows))| == |rows|
  {
    var ids, sorted := Ids(rows), SortIds(Ids(rows));
    SortIdsProps(ids);
    assert |multiset(sorted)| == |sorted| && |multiset(ids)| == |ids|;
    forall i | 0 <= i < |sorted| ensures ',' !in sorted[i] {
      assert sorted[i] in multiset(ids);
      var j :| 0 <= j < |ids| && ids[j] == sorted[i];
    }
  }

  lemma IdTextDecides(a: seq<Row>, b: seq<Row>)
    requires a != [] && b != [] && PlainIds(a) && PlainIds(b) && IdText(a) == IdText(b)
    ensures multiset(Ids(a)) == multiset(Ids(b))
  {
    SortedArePlain(a);
    SortedArePlain(b);
    assert "," == [','];
    SplitJoin(SortIds(Ids(a)), ',');
    SplitJoin(SortIds(Ids(b)), ',');
    SortIdsProps(Ids(a));
    SortIdsProps(Ids(b));
  }

  /** A batch id stands for exactly the set of its records' ids, unless the two id texts collide. */
  lemma BatchIdIdentifies(c: Library, a: seq<Row>, b: seq<Row>)
    requires a != [] && b != [] && PlainIds(a) && PlainIds(b)
    requires CollisionFree(c.sha256, {IdText(a), IdText(b)})
    ensures BatchIdFor(c, a) == BatchIdFor(c, b) <==> multiset(Ids(a)) == multiset(Ids(b))
  {
    if BatchIdFor(c, a) == BatchIdFor(c, b) {
      IdTextDecides(a, b);
    } else if multiset(Ids(a)) == multiset(Ids(b)) {
      BatchIdIgnoresOrder(c, a, b);
    }
  }

  /** The newest truthy hash of a batch: `null` and the empty text are skipped. */
  function LastHashOf(records: seq<Row>): Option<string> {
    if records == [] then None
    else
      var hash := records[|records| - 1].hash;
      if hash.Some? && hash.value != "" then hash else LastHashOf(records[..|records| - 1])
  }

  function ArchiveFor(c: Library, org: string, records: seq<Row>, cutoff: Time, at: Time): Archive
    requires records != []
  {
    var text := c.stringify(records);
    Archive(BatchIdFor(c, records), org, cutoff, |records|, c.gzip(text), c.sha256(text),
            LastHashOf(records), records[|records| - 1].createdAt, at)
  }

  function FindArchive(archives: seq<Archive>, batchId: string): (r: Option<Archive>)
    ensures r.None? <==> forall i :: 0 <= i < |archives| ==> archives[i].batchId != batchId
    ensures r.Some? ==> r.value in archives && r.value.batchId == batchId
  {
    if archives == [] then None
    else if archives[0].batchId == batchId then Some(archives[0])
    else FindArchive(archives[1..], batchId)
  }

  /** What becomes of a write: stored as sent, lost, or stored with a damaged payload. */
  datatype Fate = Intact | Lost | Damaged(payload: string)

  /** `createMany` with `skipDuplicates`: a batch that already exists is left untouched. */
  function CreateArchive(archives: seq<Archive>, a: Archive, fate: Fate): seq<Archive> {
    if fate.Lost? || FindArchive(archives, a.batchId).Some? then archives
    else archives + [if fate.Damaged? then a.(payload := fate.payload) else a]
  }

  datatype ArchiveError = NotFound | WrongCount | BadChecksum | Unreadable

  function VerifyArchive(c: Library, archives: seq<Archive>, batchId: string, checksum: string, expectedCount: nat)
    : Result<(), ArchiveError>
  {
    var stored := FindArchive(archives, batchId);
    if stored.None? then Failure(NotFound)
    else if stored.value.recordCount != expectedCount then Failure(WrongCount)
    else
      var text := c.gunzip(stored.value.payload);
      if text.None? then Failure(Unreadable)
      else if c.sha256(text.value) != stored.value.checksum || stored.value.checksum != checksum then Failure(BadChecksum)
      else Success(())
  }

  /** The read-back that guards the deletion of `records`. */
  predicate ReadBack(c: Library, archives: seq<Archive>, records: seq<Row>) {
    VerifyArchive(c, archives, BatchIdFor(c, records), c.sha256(c.stringify(records)), |records|).Success?
  }

  /** A stored batch that claims another number of records is refused, whatever its payload. */
  lemma WrongCountIsRefused(c: Library, archives: seq<Archive>, records: seq<Row>)
    requires var a := FindArchive(archives, BatchIdFor(c, records)); a.Some? && a.value.recordCount != |records|
    ensures VerifyArchive(c, archives, BatchIdFor(c, records), c.sha256(c.stringify(records)), |records|) == Failure(WrongCount)
  {
  }

  lemma {:induction false} FindAppended(archives: seq<Archive>, a: Archive, batchId: string)
    ensures FindArchive(archives + [a], batchId) ==
      if FindArchive(archives, batchId).Some? then FindArchive(archives, batchId)
      else if a.batchId == batchId then Some(a) else None
  {
    if archives == [] {
      assert archives + [a] == [a] && [a][1..] == [];
    } else {
      assert (archives + [a])[1..] == archives[1..] + [a];
      FindAppended(archives[1..], a, batchId);
    }
  }

  /**
   * The read-back after the write of a batch whose id is new, for every fate of the write: an intact write passes, a
   * lost one is not found, and a damaged one passes only if it still opens to a text with the right digest.
   */
  lemma ReadBackAfterWrite(c: Library, archives: seq<Archive>, org: string, records: seq<Row>, cutoff: Time, at: Time, fate: Fate)
    requires Lossless(c) && records != [] && FindArchive(archives, BatchIdFor(c, records)).None?
    ensures var stored := CreateArchive(archives, ArchiveFor(c, org, records, cutoff, at), fate);
      VerifyArchive(c, stored, BatchIdFor(c, records), c.sha256(c.stringify(records)), |records|) ==
        match fate
        case Intact => Success(())
        case Lost => Failure(NotFound)
        case Damaged(payload) =>
          if c.gunzip(payload).None? then Failure(Unreadable)
          else if c.sha256(c.gunzip(payload).value) == c.sha256(c.stringify(records)) then Success(())
          else Failure(BadChecksum)
  {
    var a := ArchiveFor(c, org, records, cutoff, at);
    var b := if fate.Damaged? then a.(payload := fate.payload) else a;
    FindAppended(archives, b, a.batchId);
    assert c.gunzip(c.gzip(c.stringify(records))) == Some(c.stringify(records));
  }

  function ReadArchive(c: Library, archives: seq<Archive>, org: string, batchId: string)
    : Result<seq<Row>, ArchiveError>
  {
    var batch := FindArchive(archives, batchId);
    if batch.None? || batch.value.organizationId != org then Failure(NotFound)
    else
      var text := c.gunzip(batch.value.payload);
      if text.None? then Failure(Unreadable)
      else if c.sha256(text.value) != batch.value.checksum then Failure(BadChecksum)
      else
        var rows := c.parse(text.value);
        if rows.None? then Failure(Unreadable) else Success(rows.value)
  }

  function DeleteAuditLogs(live: seq<Row>, ids: seq<string>): seq<Row> {
    if live == [] then []
    else if live[0].id in ids then DeleteAuditLogs(live[1..], ids)
    else [live[0]] + DeleteAuditLogs(live[1..], ids)
  }

  /** Exactly the rows with the given ids go. */
  lemma {:induction false} DeletedMembers(live: seq<Row>, ids: seq<string>)
    ensures forall x :: x in DeleteAuditLogs(live, ids) <==> x in live && x.id !in ids
  {
    if live == [] {
    } else {
      DeletedMembers(live[1..], ids);
    }
  }

  /** The live table is listed in query order, by creation time and then by id. */
  predicate QueryOrder(a: Row, b: Row) {
    a.createdAt < b.createdAt || (a.createdAt == b.createdAt && !Below(b.id, a.id))
  }

  function InsertRow(live: seq<Row>, row: Row): seq<Row> {
    if live == [] || !QueryOrder(live[0], row) then [row] + live
    else [live[0]] + InsertRow(live[1..], row)
  }

  lemma {:induction false} InsertedMembers(live: seq<Row>, row: Row)
    ensures forall x :: x in InsertRow(live, row) <==> x in live || x == row
  {
    if live == [] || !QueryOrder(live[0], row) {
    } else {
      InsertedMembers(live[1..], row);
    }
  }

  // ----- the machine -----

  /** History kept for the proofs: the rows a stored batch was written from, and where they sit in the log. */
  datatype Batch = Batch(start: int, rows: seq<Row>)

  /**
   * `live` and `archives` are the two tables. `ever` is every row ever inserted, in insertion order; `texts`
   * every text a checksum was computed of.
   */
  datatype World = World(
    live: seq<Row>,
    archives: seq<Archive>,
    batches: seq<Batch>,
    ever: seq<Row>,
    texts: set<string>)

  datatype Step =
    | Insert(row: Row)
    | Write(org: string, records: seq<Row>, cutoff: Time, at: Time, fate: Fate)
    | Delete(records: seq<Row>)

  function TextsOf(c: Library, records: seq<Row>, fate: Fate): set<string> {
    {c.stringify(records)} +
    (if fate.Damaged? && c.gunzip(fate.payload).Some? then {c.gunzip(fate.payload).value} else {})
  }

  /** How many of the organization's rows have left the live table. */
  function Removed(w: World, org: string): int {
    |OfOrg(w.ever, org)| - |OfOrg(w.live, org)|
  }

  predicate Enabled(c: Library, w: World, s: Step) {
    match s
    case Insert(row) => forall r :: r in w.ever ==> r.id != row.id
    case Write(org, records, _, _, _) =>
      records != [] && forall r :: r in records ==> r in w.ever && r.organizationId == org
    case Delete(records) =>
      (forall r :: r in records ==> r in w.ever) && ReadBack(c, w.archives, records)
  }

  function Exec(c: Library, w: World, s: Step): World
    requires Enabled(c, w, s)
  {
    match s
    case Insert(row) => w.(live := InsertRow(w.live, row), ever := w.ever + [row])
    case Write(org, records, cutoff, at, fate) =>
      var archives := CreateArchive(w.archives, ArchiveFor(c, org, records, cutoff, at), fate);
      w.(archives := archives,
         batches := if |archives| == |w.archives| then w.batches
                    else w.batches + [Batch(Removed(w, org), records)],
         texts := w.texts + TextsOf(c, records, fate))
    case Delete(records) =>
      w.(live := DeleteAuditLogs(w.live, Ids(records)), texts := w.texts + {c.stringify(records)})
  }

  predicate Runs(c: Library, w: World, steps: seq<Step>)
    decreases |steps|
  {
    steps == [] || (Enabled(c, w, steps[0]) && Runs(c, Exec(c, w, steps[0]), steps[1..]))
  }

  function Final(c: Library, w: World, steps: seq<Step>): World
    requires Runs(c, w, steps)
    decreases |steps|
  {
    if steps == [] then w else Final(c, Exec(c, w, steps[0]), steps[1..])
  }

  /** A service that has not archived anything yet. */
  predicate Start(w: World) {
    && w.archives == [] && w.batches == [] && w.texts == {}
    && w.live == w.ever && DistinctIds(w.ever)
  }

  // ----- no row is lost -----

  predicate Recoverable(c: Library, live: seq<Row>, archives: seq<Archive>, row: Row) {
    row in live || exists i :: 0 <= i < |archives| && Holds(c, archives, archives[i].batchId, row)
  }

  predicate Holds(c: Library, archives: seq<Archive>, batchId: string, row: Row) {
    var r := ReadArchive(c, archives, row.organizationId, batchId);
    r.Success? && row in r.value
  }

  /** A stored archive describes the batch it was written from; only the payload may be damaged. */
  predicate Describes(c: Library, a: Archive, b: Batch, texts: set<string>) {
    && b.rows != []
    && a == ArchiveFor(c, a.organizationId, b.rows, a.cutoff, a.createdAt).(payload := a.payload)
    && (forall r :: r in b.rows ==> r.organizationId == a.organizationId)
    && c.stringify(b.rows) in texts
    && (c.gunzip(a.payload).Some? ==> c.gunzip(a.payload).value in texts)
  }

  predicate Readable(c: Library, a: Archive, b: Batch) {
    c.gunzip(a.payload) == Some(c.stringify(b.rows))
  }

  predicate Kept(c: Library, w: World, row: Row)
    requires |w.batches| == |w.archives|
  {
    row in w.live ||
    exists i :: 0 <= i < |w.archives| && Readable(c, w.archives[i], w.batches[i]) && row in w.batches[i].rows
  }

  predicate Inv(c: Library, w: World) {
    && |w.batches| == |w.archives|
    && (forall i :: 0 <= i < |w.archives| ==> Describes(c, w.archives[i], w.batches[i], w.texts))
    && (forall i, j :: 0 <= i < j < |w.archives| ==> w.archives[i].batchId != w.archives[j].batchId)
    && (forall r, s :: r in w.ever && s in w.ever && r.id == s.id ==> r == s)
    && (forall r :: r in w.live ==> r in w.ever)
    && (forall r :: r in w.ever ==> Kept(c, w, r))
  }

  lemma {:induction false} FindArchiveUnique(archives: seq<Archive>, i: nat)
    requires i < |archives|
    requires forall k, j :: 0 <= k < j < |archives| ==> archives[k].batchId != archives[j].batchId
    ensures FindArchive(archives, archives[i].batchId) == Some(archives[i])
  {
    if i == 0 {
    } else {
      assert archives[0].batchId != archives[i].batchId;
      FindArchiveUnique(archives[1..], i - 1);
    }
  }

  /** A batch that reads back is stored intact, and it was written from exactly the records now to be deleted. */
  lemma ReadBackIdentifies(c: Library, w: World, records: seq<Row>) returns (i: nat)
    requires Lossless(c) && Inv(c, w) && ReadBack(c, w.archives, records)
    requires CollisionFree(c.sha256, w.texts + {c.stringify(records)})
    ensures i < |w.archives| && w.batches[i].rows == records && Readable(c, w.archives[i], w.batches[i])
  {
    var a := FindArchive(w.archives, BatchIdFor(c, records)).value;
    i :| 0 <= i < |w.archives| && w.archives[i] == a;
    assert Describes(c, a, w.batches[i], w.texts);
    PassingBatch(c, a, w.batches[i], records, w.texts);
  }

  lemma PassingBatch(c: Library, a: Archive, b: Batch, records: seq<Row>, texts: set<string>)
    requires Lossless(c) && Describes(c, a, b, texts) && CollisionFree(c.sha256, texts + {c.stringify(records)})
    requires c.gunzip(a.payload).Some? && c.sha256(c.gunzip(a.payload).value) == a.checksum == c.sha256(c.stringify(records))
    ensures b.rows == records && Readable(c, a, b)
  {
    assert c.stringify(b.rows) in texts && c.gunzip(a.payload).value in texts;
    SameTextSameRows(c, b.rows, records);
  }

  lemma SameTextSameRows(c: Library, a: seq<Row>, b: seq<Row>)
    requires Lossless(c) && c.stringify(a) == c.stringify(b)
    ensures a == b
  {
    assert c.parse(c.stringify(a)) == Some(a);
    assert c.parse(c.stringify(b)) == Some(b);
  }

  /**
   * Exactly when a batch reads back: some stored batch was written from exactly these records, in this order, and is
   * intact.
   */
  lemma ReadBackIff(c: Library, w: World, records: seq<Row>)
    requires Lossless(c) && Inv(c, w) && CollisionFree(c.sha256, w.texts + {c.stringify(records)})
    ensures ReadBack(c, w.archives, records) <==>
      exists i :: 0 <= i < |w.archives| && w.batches[i].rows == records && Readable(c, w.archives[i], w.batches[i])
  {
    if ReadBack(c, w.archives, records) {
      var i := ReadBackIdentifies(c, w, records);
    }
    forall i | 0 <= i < |w.archives| && w.batches[i].rows == records && Readable(c, w.archives[i], w.batches[i])
      ensures ReadBack(c, w.archives, records)
    {
      IntactReadsBack(c, w, i);
    }
  }

  lemma IntactReadsBack(c: Library, w: World, i: nat)
    requires Inv(c, w) && i < |w.archives| && Readable(c, w.archives[i], w.batches[i])
    ensures ReadBack(c, w.archives, w.batches[i].rows)
  {
    assert Describes(c, w.archives[i], w.batches[i], w.texts);
    FindArchiveUnique(w.archives, i);
  }

  /** What `readArchive` answers for a stored batch: only its own organization sees it, and only intact. */
  lemma ReadArchiveAnswers(c: Library, w: World, i: nat, org: string)
    requires Lossless(c) && Inv(c, w) && CollisionFree(c.sha256, w.texts) && i < |w.archives|
    ensures var a, b := w.archives[i], w.batches[i];
      ReadArchive(c, w.archives, org, a.batchId) ==
        if org != a.organizationId then Failure(NotFound)
        else if c.gunzip(a.payload).None? then Failure(Unreadable)
        else if !Readable(c, a, b) then Failure(BadChecksum)
        else Success(b.rows)
  {
    assert Describes(c, w.archives[i], w.batches[i], w.texts);
    FindArchiveUnique(w.archives, i);
    if Readable(c, w.archives[i], w.batches[i]) && org == w.archives[i].organizationId {
      ReadableIsRead(c, w.archives, w.archives[i], w.batches[i]);
    }
  }

  /** A write appends at most one archive, and that one describes the batch it was written from. */
  lemma WriteAppends(c: Library, w: World, s: Step)
    requires Lossless(c) && |w.batches| == |w.archives| && s.Write? && Enabled(c, w, s)
    ensures var v := Exec(c, w, s);
      && v.live == w.live && v.ever == w.ever && w.texts <= v.texts
      && ((v.archives == w.archives && v.batches == w.batches) ||
          exists a ::
            && v.archives == w.archives + [a]
            && v.batches == w.batches + [Batch(Removed(w, s.org), s.records)]
            && a.organizationId == s.org
            && Describes(c, a, Batch(Removed(w, s.org), s.records), v.texts)
            && forall i :: 0 <= i < |w.archives| ==> w.archives[i].batchId != a.batchId)
  {
    var v := Exec(c, w, s);
    var full := ArchiveFor(c, s.org, s.records, s.cutoff, s.at);
    if v.archives != w.archives {
      var a := if s.fate.Damaged? then full.(payload := s.fate.payload) else full;
      assert v.archives == w.archives + [a];
      assert Describes(c, a, Batch(Removed(w, s.org), s.records), v.texts);
    }
  }

  lemma WriteKeepsInv(c: Library, w: World, s: Step)
    requires Lossless(c) && Inv(c, w) && s.Write? && Enabled(c, w, s)
    ensures Inv(c, Exec(c, w, s))
  {
    WriteAppends(c, w, s);
    AppendKeepsInv(c, w, Exec(c, w, s));
  }

  lemma AppendKeepsInv(c: Library, w: World, v: World)
    requires Inv(c, w)
    requires v.live == w.live && v.ever == w.ever && w.texts <= v.texts
    requires
      || (v.archives == w.archives && v.batches == w.batches)
      || exists a, b ::
           && v.archives == w.archives + [a] && v.batches == w.batches + [b]
           && Describes(c, a, b, v.texts)
           && forall i :: 0 <= i < |w.archives| ==> w.archives[i].batchId != a.batchId
    ensures Inv(c, v)
  {
    forall i | 0 <= i < |w.archives|
      ensures v.archives[i] == w.archives[i] && v.batches[i] == w.batches[i]
      ensures Describes(c, v.archives[i], v.batches[i], v.texts)
    {
      assert Describes(c, w.archives[i], w.batches[i], w.texts);
    }
    forall r | r in v.ever ensures Kept(c, v, r) {
      assert Kept(c, w, r);
      if r !in w.live {
        var i :| 0 <= i < |w.archives| && Readable(c, w.archives[i], w.batches[i]) && r in w.batches[i].rows;
        assert Readable(c, v.archives[i], v.batches[i]) && r in v.batches[i].rows;
      }
    }
  }

  lemma DeleteKeepsInv(c: Library, w: World, s: Step)
    requires Lossless(c) && Inv(c, w) && s.Delete? && Enabled(c, w, s)
    requires CollisionFree(c.sha256, Exec(c, w, s).texts)
    ensures Inv(c, Exec(c, w, s))
  {
    var v := Exec(c, w, s);
    var k := ReadBackIdentifies(c, w, s.records);
    DeletedMembers(w.live, Ids(s.records));
    forall r | r in v.ever ensures Kept(c, v, r) {
      assert Kept(c, w, r);
      if r in w.live && r.id in Ids(s.records) {
        var j :| 0 <= j < |s.records| && Ids(s.records)[j] == r.id;
        assert s.records[j] in w.ever && s.records[j] == r;
        assert Readable(c, v.archives[k], v.batches[k]) && r in v.batches[k].rows;
      }
    }
    forall i | 0 <= i < |v.archives| ensures Describes(c, v.archives[i], v.batches[i], v.texts) {
      assert Describes(c, w.archives[i], w.batches[i], w.texts);
    }
  }

  lemma InsertKeepsInv(c: Library, w: World, s: Step)
    requires Inv(c, w) && s.Insert? && Enabled(c, w, s)
    ensures Inv(c, Exec(c, w, s))
  {
    var v := Exec(c, w, s);
    InsertedMembers(w.live, s.row);
    forall r | r in v.ever ensures Kept(c, v, r) {
      if r != s.row {
        assert Kept(c, w, r);
        if r !in w.live {
          var i :| 0 <= i < |w.archives| && Readable(c, w.archives[i], w.batches[i]) && r in w.batches[i].rows;
          assert Readable(c, v.archives[i], v.batches[i]) && r in v.batches[i].rows;
        }
      }
    }
  }

  lemma {:induction false} TextsGrow(c: Library, w: World, steps: seq<Step>)
    requires Runs(c, w, steps)
    ensures w.texts <= Final(c, w, steps).texts
    decreases |steps|
  {
    if steps == [] {
    } else {
      TextsGrow(c, Exec(c, w, steps[0]), steps[1..]);
    }
  }

  lemma StepKeepsInv(c: Library, w: World, s: Step)
    requires Lossless(c) && Inv(c, w) && Enabled(c, w, s)
    requires CollisionFree(c.sha256, Exec(c, w, s).texts)
    ensures Inv(c, Exec(c, w, s))
  {
    match s {
      case Insert(_) => InsertKeepsInv(c, w, s);
      case Write(_, _, _, _, _) => WriteKeepsInv(c, w, s);
      case Delete(_) => DeleteKeepsInv(c, w, s);
    }
  }

  lemma {:induction false} RunKeepsInv(c: Library, w: World, steps: seq<Step>)
    requires Lossless(c) && Inv(c, w) && Runs(c, w, steps)
    requires CollisionFree(c.sha256, Final(c, w, steps).texts)
    ensures Inv(c, Final(c, w, steps))
    decreases |steps|
  {
    if steps == [] {
    } else {
      var v := Exec(c, w, steps[0]);
      TextsGrow(c, v, steps[1..]);
      StepKeepsInv(c, w, steps[0]);
      RunKeepsInv(c, v, steps[1..]);
    }
  }

  lemma StartIsInv(c: Library, w: World)
    requires Start(w)
    ensures Inv(c, w)
  {
    forall r, s | r in w.ever && s in w.ever && r.id == s.id ensures r == s {
      var i :| 0 <= i < |w.ever| && w.ever[i] == r;
      var j :| 0 <= j < |w.ever| && w.ever[j] == s;
      assert i == j;
    }
  }

  /**
   * No audit row is lost: whatever the run did, wherever it stopped and whichever writes were lost or damaged,
   * every row ever inserted is live or comes back from `readArchive` of a stored batch of its organization.
   */
  lemma NoRowIsLost(c: Library, w: World, steps: seq<Step>, row: Row)
    requires Lossless(c) && Start(w) && Runs(c, w, steps)
    requires CollisionFree(c.sha256, Final(c, w, steps).texts)
    requires row in Final(c, w, steps).ever
    ensures Recoverable(c, Final(c, w, steps).live, Final(c, w, steps).archives, row)
  {
    var v := Final(c, w, steps);
    StartIsInv(c, w);
    RunKeepsInv(c, w, steps);
    KeptIsRecoverable(c, v, row);
  }

  lemma KeptIsRecoverable(c: Library, v: World, row: Row)
    requires Lossless(c) && Inv(c, v) && row in v.ever
    ensures Recoverable(c, v.live, v.archives, row)
  {
    assert Kept(c, v, row);
    if row !in v.live {
      var i :| 0 <= i < |v.archives| && Readable(c, v.archives[i], v.batches[i]) && row in v.batches[i].rows;
      assert Describes(c, v.archives[i], v.batches[i], v.texts);
      FindArchiveUnique(v.archives, i);
      ReadableIsRead(c, v.archives, v.archives[i], v.batches[i]);
      assert Holds(c, v.archives, v.archives[i].batchId, row);
    }
  }

  /** `readArchive` returns the rows of a stored batch that is intact. */
  lemma ReadableIsRead(c: Library, archives: seq<Archive>, a: Archive, b: Batch)
    requires Lossless(c) && FindArchive(archives, a.batchId) == Some(a) && Readable(c, a, b)
    requires a.checksum == c.sha256(c.stringify(b.rows))
    ensures ReadArchive(c, archives, a.organizationId, a.batchId) == Success(b.rows)
  {
    assert c.parse(c.stringify(b.rows)) == Some(b.rows);
  }

  /** A retried write reuses the stored batch: the second write of the same records stores nothing. */
  lemma RetryStoresNothing(c: Library, w: World, first: Step, again: Step)
    requires first.Write? && again.Write? && Enabled(c, w, first) && Enabled(c, Exec(c, w, first), again)
    requires multiset(Ids(first.records)) == multiset(Ids(again.records)) && !first.fate.Lost?
    ensures Exec(c, Exec(c, w, first), again).archives == Exec(c, w, first).archives
  {
    BatchIdIgnoresOrder(c, first.records, again.records);
    var id := BatchIdFor(c, first.records);
    var v := Exec(c, w, first);
    if FindArchive(w.archives, id).None? {
      assert v.archives[|w.archives|].batchId == id;
    }
  }

  /** And so that batch reads back, whatever becomes of the second write. */
  lemma RetryReadsBack(c: Library, w: World, first: Step, again: Step)
    requires Lossless(c) && first.Write? && first.fate.Intact? && again.Write? && again.records == first.records
    requires Enabled(c, w, first) && Enabled(c, Exec(c, w, first), again)
    requires FindArchive(w.archives, BatchIdFor(c, first.records)).None?
    ensures ReadBack(c, Exec(c, w, first).archives, first.records)
    ensures ReadBack(c, Exec(c, Exec(c, w, first), again).archives, first.records)
  {
    ReadBackAfterWrite(c, w.archives, first.org, first.records, first.cutoff, first.at, Intact);
    RetryStoresNothing(c, w, first, again);
  }

  // ----- what a stored batch says of itself -----

  /** The archive row is the one that this write announced, field by field; only the payload may have suffered. */
  predicate WrittenBy(c: Library, a: Archive, s: Step)
    requires s.Write? && s.records != []
  {
    && a.batchId == BatchIdFor(c, s.records) && a.organizationId == s.org
    && a.cutoff == s.cutoff && a.createdAt == s.at
    && a.recordCount == |s.records| && a.archivedThrough == s.records[|s.records| - 1].createdAt
    && a.checksum == c.sha256(c.stringify(s.records)) && a.chainBoundaryHash == LastHashOf(s.records)
    && match s.fate
       case Intact => a.payload == c.gzip(c.stringify(s.records))
       case Lost => false
       case Damaged(payload) => a.payload == payload
  }

  lemma {:induction false} ArchivesGrow(c: Library, w: World, steps: seq<Step>)
    requires Runs(c, w, steps)
    ensures w.archives <= Final(c, w, steps).archives
    decreases |steps|
  {
    if steps == [] {
    } else {
      ArchivesGrow(c, Exec(c, w, steps[0]), steps[1..]);
    }
  }

  /** Every batch stored in a run is described by the write that stored it, and no later step touches it. */
  lemma {:induction false} ArchivesAreWritten(c: Library, w: World, steps: seq<Step>, i: nat) returns (k: nat)
    requires Runs(c, w, steps) && |w.archives| <= i < |Final(c, w, steps).archives|
    ensures k < |steps| && steps[k].Write? && steps[k].records != [] && WrittenBy(c, Final(c, w, steps).archives[i], steps[k])
    decreases |steps|
  {
    var v := Exec(c, w, steps[0]);
    ArchivesGrow(c, v, steps[1..]);
    if i < |v.archives| {
      k := 0;
    } else {
      k := ArchivesAreWritten(c, v, steps[1..], i);
      k := k + 1;
    }
  }

  // ----- the order rows are selected in -----

  predicate InQueryOrder(rows: seq<Row>) {
    forall i, j :: 0 <= i < j < |rows| ==> QueryOrder(rows[i], rows[j])
  }

  lemma QueryOrderIsTotal(a: Row, b: Row, c: Row)
    ensures QueryOrder(a, b) || QueryOrder(b, a)
    ensures QueryOrder(a, b) && QueryOrder(b, c) ==> QueryOrder(a, c)
    ensures QueryOrder(a, b) && QueryOrder(b, a) <==> a.createdAt == b.createdAt && a.id == b.id
  {
    BelowIsOrder(a.id, b.id, a.id);
    BelowIsOrder(b.id, a.id, b.id);
    BelowIsOrder(c.id, a.id, b.id);
    BelowIsOrder(b.id, c.id, a.id);
  }

  lemma {:induction false} InsertKeepsQueryOrder(live: seq<Row>, row: Row)
    requires InQueryOrder(live)
    ensures InQueryOrder(InsertRow(live, row))
  {
    if live == [] {
    } else if !QueryOrder(live[0], row) {
      forall j | 0 <= j < |live| ensures QueryOrder(row, live[j]) {
        QueryOrderIsTotal(row, live[0], live[j]);
      }
    } else {
      InsertKeepsQueryOrder(live[1..], row);
      InsertedMembers(live[1..], row);
      var rest := InsertRow(live[1..], row);
      forall j | 0 <= j < |rest| ensures QueryOrder(live[0], rest[j]) {
        assert rest[j] in rest;
      }
    }
  }

  lemma {:induction false} DeleteKeepsQueryOrder(live: seq<Row>, ids: seq<string>)
    requires InQueryOrder(live)
    ensures InQueryOrder(DeleteAuditLogs(live, ids))
    ensures forall x :: x in DeleteAuditLogs(live, ids) ==> x in live
  {
    if live == [] {
    } else {
      DeleteKeepsQueryOrder(live[1..], ids);
      var rest := DeleteAuditLogs(live[1..], ids);
      forall j | 0 <= j < |rest| ensures QueryOrder(live[0], rest[j]) {
        assert rest[j] in live[1..];
      }
    }
  }

  /** Over every run the table is listed by creation time, and rows of one instant by id. */
  lemma {:induction false} RunKeepsQueryOrder(c: Library, w: World, steps: seq<Step>)
    requires InQueryOrder(w.live) && Runs(c, w, steps)
    ensures InQueryOrder(Final(c, w, steps).live)
    decreases |steps|
  {
    if steps == [] {
    } else {
      match steps[0] {
        case Insert(row) => InsertKeepsQueryOrder(w.live, row);
        case Write(_, _, _, _, _) =>
        case Delete(records) => DeleteKeepsQueryOrder(w.live, Ids(records));
      }
      RunKeepsQueryOrder(c, Exec(c, w, steps[0]), steps[1..]);
    }
  }
}
