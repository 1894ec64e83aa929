/**
 * The integrity check across the archive boundary: the live rows of an organization are verified from the
 * anchor the archive answers with. When that passes, what completed batches do to it, and what a crash does.
 */
module AuditIntegrity {
  import opened AuditAnchor
  import opened AuditArchive
  import opened AuditChain
  import opened Wrappers

  /** For rows whose hashes are digests, the archiver's boundary is the boundary of the chain. */
  lemma {:induction false} LastHashIsBoundary(sc: Scheme, rows: seq<Row>, anchor: Option<string>)
    requires HexDigest(sc.sha256) && ChainFrom(sc, rows, anchor)
    ensures LastHashOf(rows).None? <==> AllUnhashed(rows)
    ensures LastHashOf(rows).Some? ==> LastHashOf(rows) == Boundary(rows, anchor)
  {
    if rows == [] {
    } else {
      var n := |rows| - 1;
      var e := rows[n];
      assert rows == rows[..n] + [e];
      assert [e][1..] == [];
      ChainSplit(sc, rows[..n], [e], anchor);
      LastHashIsBoundary(sc, rows[..n], anchor);
      if e.hash.None? {
        assert AllUnhashed(rows) <==> AllUnhashed(rows[..n]);
      } else {
        assert IsHash(e.hash.value);
      }
    }
  }

  /** The rows from position `i` on verify from the newest hash before them; what lies before need not verify. */
  ghost predicate SoundFrom(sc: Scheme, log: seq<Row>, i: int) {
    0 <= i <= |log| && ChainFrom(sc, log[i..], NewestHash(log, i))
  }

  /** The rows from position `i` on verify from `anchor`. */
  ghost predicate VerifiesFrom(sc: Scheme, log: seq<Row>, i: int, anchor: Option<string>) {
    0 <= i <= |log| && ChainFrom(sc, log[i..], anchor)
  }

  /** Cutting further: the stretch that leaves is a chain from the old boundary to the new one. */
  lemma SoundMoves(sc: Scheme, log: seq<Row>, i: nat, j: nat)
    requires HexDigest(sc.sha256) && i <= j <= |log| && SoundFrom(sc, log, i)
    ensures SoundFrom(sc, log, j)
    ensures ChainFrom(sc, log[i..j], NewestHash(log, i))
    ensures Boundary(log[i..j], NewestHash(log, i)) == NewestHash(log, j)
  {
    TwoSlices(log, i, j);
    ChainSplit(sc, log[i..j], log[j..], NewestHash(log, i));
    LastHashIsBoundary(sc, log[i..j], NewestHash(log, i));
    NewestHashMoves(log, i, j);
    if AllUnhashed(log[i..j]) {
      UnhashedIsTransparent(sc, log[i..j], NewestHash(log, i));
    }
  }

  lemma TwoSlices(log: seq<Row>, i: nat, j: nat)
    requires i <= j <= |log|
    ensures log[i..] == log[i..j] + log[j..]
  {
  }

  lemma WholeChainIsSound(sc: Scheme, log: seq<Row>, i: nat)
    requires HexDigest(sc.sha256) && ChainFrom(sc, log, None) && i <= |log|
    ensures SoundFrom(sc, log, i) && NewestHash(log, i) == Boundary(log[..i], None)
  {
    assert log[0..] == log && log[0..i] == log[..i];
    SoundMoves(sc, log, 0, i);
  }

  // ----- when the check passes -----

  /** Of rows that verify from the true boundary: they verify from the anchor if and only if it is that boundary. */
  lemma PassesIff(
    sc: Scheme, log: seq<Row>, gone: int, archives: seq<Archive>, batches: seq<Batch>, org: string, anchor: Option<string>)
    requires Cut(log, gone, archives, batches, org) && AllRecord(archives, batches) && AnchorOf(archives, org, anchor)
    requires SoundFrom(sc, log, gone)
    ensures ChainFrom(sc, log[gone..], anchor) <==> NewestHash(log, Reach(archives, batches, org)) == NewestHash(log, gone)
  {
    var top := Reach(archives, batches, org);
    AnchorIsNewestHash(log, gone, archives, batches, org, anchor);
    if AllUnhashed(log[gone..]) {
      UnhashedIsTransparent(sc, log[gone..], anchor);
      forall i | 0 <= i < top - gone ensures !Truthy(log[gone..top][i]) {
        assert log[gone..top][i] == log[gone..][i];
      }
      NoLastHash(log[gone..top]);
      NewestHashMoves(log, gone, top);
    } else {
      AnchorDetermined(sc, log[gone..], anchor, NewestHash(log, gone));
    }
  }

  lemma PassesIffNothingPending(
    sc: Scheme, log: seq<Row>, gone: int, archives: seq<Archive>, batches: seq<Batch>, org: string, anchor: Option<string>)
    requires Cut(log, gone, archives, batches, org) && AllRecord(archives, batches) && AnchorOf(archives, org, anchor)
    requires HexDigest(sc.sha256) && PrevReadable(sc) && ChainFrom(sc, log, None)
    requires CollisionFree(sc.sha256, TextSet(sc, log))
    ensures ChainFrom(sc, log[gone..], anchor) <==> AllUnhashed(log[gone..Reach(archives, batches, org)])
  {
    var top := Reach(archives, batches, org);
    WholeChainIsSound(sc, log, gone);
    WholeChainIsSound(sc, log, top);
    PassesIff(sc, log, gone, archives, batches, org, anchor);
    NewHashIsNew(sc, log, gone, top);
  }

  /** In a verified history the newest hash changes exactly with the next hashed row. */
  lemma NewHashIsNew(sc: Scheme, log: seq<Row>, i: nat, j: nat)
    requires HexDigest(sc.sha256) && PrevReadable(sc) && ChainFrom(sc, log, None)
    requires CollisionFree(sc.sha256, TextSet(sc, log)) && i <= j <= |log|
    ensures NewestHash(log, i) == NewestHash(log, j) <==> AllUnhashed(log[i..j])
  {
    WholeChainIsSound(sc, log, i);
    WholeChainIsSound(sc, log, j);
    if AllUnhashed(log[i..j]) {
      NoLastHash(log[i..j]);
      NewestHashMoves(log, i, j);
    } else {
      LongerChainEndsElsewhere(sc, log, i, j);
    }
  }

  /**
   * Exactly when the integrity check passes, at any point of any run: there is no hashed row that is already in
   * a stored batch and still in the live table.
   */
  lemma IntegrityIffNothingPending(c: Library, sc: Scheme, w: World, steps: seq<Step>, org: string, anchor: Option<string>)
    requires Lossless(c) && Start(w) && TimeOrdered(w.live) && StrictlyOrdered(OfOrg(w.ever, org))
    requires RunsOldestFirst(c, w, steps) && Runs(c, w, steps)
    requires var v := Final(c, w, steps);
      && CollisionFree(c.sha256, v.texts)
      && HexDigest(sc.sha256) && PrevReadable(sc)
      && ChainFrom(sc, OfOrg(v.ever, org), None)
      && CollisionFree(sc.sha256, TextSet(sc, OfOrg(v.ever, org)))
      && AnchorOf(v.archives, org, anchor)
    ensures var v := Final(c, w, steps);
      && |v.batches| == |v.archives|
      && 0 <= Removed(v, org) <= ArchivedUpTo(v, org) <= |OfOrg(v.ever, org)|
      && (ChainFrom(sc, OfOrg(v.live, org), anchor)
          <==> AllUnhashed(OfOrg(v.ever, org)[Removed(v, org)..ArchivedUpTo(v, org)]))
  {
    var v := Final(c, w, steps);
    StartIsInv(c, w);
    StartIsLog(w, org);
    RunKeepsLog(c, w, steps, org);
    InvRecords(c, v);
    PassesIffNothingPending(sc, OfOrg(v.ever, org), Removed(v, org), v.archives, v.batches, org, anchor);
  }

  lemma StartIsLog(w: World, org: string)
    requires Start(w) && TimeOrdered(w.live) && StrictlyOrdered(OfOrg(w.ever, org))
    ensures LogInv(w, org)
  {
  }

  // ----- completed batches -----

  /** The live rows of `org` verify from the newest hash of the rows that have left. */
  ghost predicate LiveIsSound(sc: Scheme, w: World, org: string) {
    SoundFrom(sc, OfOrg(w.ever, org), Removed(w, org))
  }

  /** No hashed row is both in a stored batch and still live. */
  ghost predicate NoHashPending(w: World, org: string) {
    && |w.batches| == |w.archives|
    && 0 <= Removed(w, org) <= ArchivedUpTo(w, org) <= |OfOrg(w.ever, org)|
    && LastHashOf(OfOrg(w.ever, org)[Removed(w, org)..ArchivedUpTo(w, org)]).None?
  }

  /** With nothing pending, the rows verify from the anchor exactly when they verify from the true boundary. */
  lemma AnchorIsTheBoundary(w: World, org: string, anchor: Option<string>)
    requires LogInv(w, org) && AllRecord(w.archives, w.batches) && AnchorOf(w.archives, org, anchor)
    requires NoHashPending(w, org)
    ensures anchor == NewestHash(OfOrg(w.ever, org), Removed(w, org))
  {
    var log := OfOrg(w.ever, org);
    AnchorIsNewestHash(log, Removed(w, org), w.archives, w.batches, org, anchor);
    NewestHashMoves(log, Removed(w, org), ArchivedUpTo(w, org));
  }

  /** Moving the cut on takes nothing hashed into the pending stretch. */
  lemma PendingShrinks(log: seq<Row>, gone: nat, reach: nat, gone': nat)
    requires gone <= reach <= |log| && gone <= gone' <= |log| && LastHashOf(log[gone..reach]).None?
    ensures LastHashOf(log[gone'..Max(reach, gone')]).None?
  {
    NoLastHash(log[gone..reach]);
    forall i | 0 <= i < Max(reach, gone') - gone' ensures !Truthy(log[gone'..Max(reach, gone')][i]) {
      assert log[gone..reach][gone' - gone + i] == log[gone'..Max(reach, gone')][i];
    }
    NoLastHash(log[gone'..Max(reach, gone')]);
  }

  /** A log that grew looks the same up to its old end. */
  lemma GrownLog(a: seq<Row>, b: seq<Row>, i: nat, j: nat)
    requires a <= b && i <= j <= |a|
    ensures a[i..j] == b[i..j] && NewestHash(a, i) == NewestHash(b, i)
  {
    assert a[..i] == b[..i];
  }

  /**
   * If the rows of the grown log verify from the old cut on, those that are left verify from the new cut on; and
   * completed batches leave no hash pending if none was before.
   */
  lemma MovedOnKeepsSound(sc: Scheme, w: World, v: World, org: string)
    requires HexDigest(sc.sha256) && LogInv(w, org) && LogInv(v, org) && MovedOn(w, v, org)
    requires SoundFrom(sc, OfOrg(v.ever, org), Removed(w, org))
    ensures LiveIsSound(sc, v, org)
    ensures NoHashPending(w, org) ==> NoHashPending(v, org)
  {
    ReachesTheCut(v, org);
    SoundMoves(sc, OfOrg(v.ever, org), Removed(w, org), Removed(v, org));
    if NoHashPending(w, org) {
      MovedOnKeepsPending(w, v, org);
    }
  }

  lemma MovedOnKeepsPending(w: World, v: World, org: string)
    requires MovedOn(w, v, org) && NoHashPending(w, org)
    requires 0 <= Removed(v, org) <= ArchivedUpTo(v, org) <= |OfOrg(v.ever, org)|
    ensures NoHashPending(v, org)
  {
    GrownLog(OfOrg(w.ever, org), OfOrg(v.ever, org), Removed(w, org), ArchivedUpTo(w, org));
    PendingShrinks(OfOrg(v.ever, org), Removed(w, org), ArchivedUpTo(w, org), Removed(v, org));
  }

  /**
   * Archiving preserves the chain: if the live rows verify from the current anchor, then after a completed batch
   * the rest verifies from the new anchor, and the batch itself is the stretch of the chain from the old anchor
   * to the new one. The rows archived earlier need not verify.
   */
  lemma CompletedBatchKeepsChain(
    c: Library, sc: Scheme, w: World, first: Step, second: Step, before: Option<string>, after: Option<string>)
    requires Lossless(c) && Inv(c, w) && HexDigest(sc.sha256)
    requires first.Write? && LogInv(w, first.org) && NoHashPending(w, first.org)
    requires Enabled(c, w, first) && OldestFirst(w, first)
    requires second == Delete(first.records) && Enabled(c, Exec(c, w, first), second)
    requires CollisionFree(c.sha256, Exec(c, Exec(c, w, first), second).texts)
    requires AnchorOf(w.archives, first.org, before) && ChainFrom(sc, OfOrg(w.live, first.org), before)
    requires AnchorOf(Exec(c, Exec(c, w, first), second).archives, first.org, after)
    ensures var v, org := Exec(c, Exec(c, w, first), second), first.org;
      && Inv(c, v) && LogInv(v, org) && NoHashPending(v, org)
      && OfOrg(w.live, org) == first.records + OfOrg(v.live, org)
      && ChainFrom(sc, first.records, before) && Boundary(first.records, before) == after
      && ChainFrom(sc, OfOrg(v.live, org), after)
  {
    var v, org := Exec(c, Exec(c, w, first), second), first.org;
    WriteFrame(c, w, first, org);
    BatchKeepsInv(c, w, first, second);
    BatchKeepsLog(c, w, first, second, org);
    BatchMovesCut(c, w, first, second, org);
    BatchTakes(c, w, first, second, org);
    InvRecords(c, w);
    InvRecords(c, v);
    MovedOnKeepsChain(sc, w, v, org, before, after);
    BatchBetween(sc, w, v, org, first.records, before, after);
  }

  /** Between two states without pending hashes: if all rows from the old cut on verify from the old anchor. */
  lemma MovedOnKeepsChain(sc: Scheme, w: World, v: World, org: string, before: Option<string>, after: Option<string>)
    requires HexDigest(sc.sha256) && LogInv(w, org) && LogInv(v, org) && MovedOn(w, v, org) && NoHashPending(w, org)
    requires AllRecord(w.archives, w.batches) && AnchorOf(w.archives, org, before)
    requires AllRecord(v.archives, v.batches) && AnchorOf(v.archives, org, after)
    requires VerifiesFrom(sc, OfOrg(v.ever, org), Removed(w, org), before)
    ensures NoHashPending(v, org) && SoundFrom(sc, OfOrg(v.ever, org), Removed(w, org))
    ensures before == NewestHash(OfOrg(w.ever, org), Removed(w, org))
    ensures after == NewestHash(OfOrg(v.ever, org), Removed(v, org))
    ensures ChainFrom(sc, OfOrg(v.live, org), after)
  {
    AnchorIsTheBoundary(w, org, before);
    GrownLog(OfOrg(w.ever, org), OfOrg(v.ever, org), Removed(w, org), Removed(w, org));
    MovedOnKeepsSound(sc, w, v, org);
    AnchorIsTheBoundary(v, org, after);
  }

  lemma BatchBetween(
    sc: Scheme, w: World, v: World, org: string, records: seq<Row>, before: Option<string>, after: Option<string>)
    requires HexDigest(sc.sha256) && LiveIsSound(sc, w, org) && v.ever == w.ever && records <= OfOrg(w.live, org)
    requires OfOrg(w.live, org) == OfOrg(w.ever, org)[Removed(w, org)..]
    requires 0 <= Removed(v, org) == Removed(w, org) + |records|
    requires OfOrg(v.live, org) == OfOrg(v.ever, org)[Removed(v, org)..]
    requires before == NewestHash(OfOrg(w.ever, org), Removed(w, org))
    requires after == NewestHash(OfOrg(v.ever, org), Removed(v, org))
    ensures OfOrg(w.live, org) == records + OfOrg(v.live, org)
    ensures ChainFrom(sc, records, before) && Boundary(records, before) == after
  {
    BatchIsStretch(sc, OfOrg(w.ever, org), Removed(w, org), records);
  }

  lemma BatchIsStretch(sc: Scheme, log: seq<Row>, gone: nat, records: seq<Row>)
    requires HexDigest(sc.sha256) && gone <= |log| && SoundFrom(sc, log, gone) && records <= log[gone..]
    ensures var end := gone + |records|;
      && end <= |log| && log[gone..] == records + log[end..] && ChainFrom(sc, records, NewestHash(log, gone))
      && Boundary(records, NewestHash(log, gone)) == NewestHash(log, end)
  {
    var end := gone + |records|;
    assert records == log[gone..][..|records|] == log[gone..end];
    TwoSlices(log, gone, end);
    SoundMoves(sc, log, gone, end);
  }

  /**
   * A whole pass over many organizations preserves the chain of each, with rows inserted at any point of it: if no
   * hashed row of `org` is pending and its rows, the new ones included, verify from the anchor before the pass, then
   * those still live verify afterwards from every anchor the archive may answer with.
   */
  lemma PassKeepsChain(
    c: Library, sc: Scheme, w: World, steps: seq<Step>, org: string, before: Option<string>, after: Option<string>)
    requires Lossless(c) && Inv(c, w) && LogInv(w, org) && NoHashPending(w, org) && HexDigest(sc.sha256)
    requires RunsOldestFirst(c, w, steps) && Runs(c, w, steps) && Interleaved(steps, None)
    requires CollisionFree(c.sha256, Final(c, w, steps).texts)
    requires AnchorOf(w.archives, org, before)
    requires VerifiesFrom(sc, OfOrg(Final(c, w, steps).ever, org), Removed(w, org), before)
    requires AnchorOf(Final(c, w, steps).archives, org, after)
    ensures var v := Final(c, w, steps);
      && Inv(c, v) && LogInv(v, org) && NoHashPending(v, org)
      && ChainFrom(sc, OfOrg(v.live, org), after)
  {
    var v := Final(c, w, steps);
    RunKeepsLog(c, w, steps, org);
    PassMovesCut(c, w, steps, org);
    InvRecords(c, w);
    InvRecords(c, v);
    MovedOnKeepsChain(sc, w, v, org, before, after);
  }

  // ----- a crash between write and delete, and its repair -----

  /**
   * A crash after a hashed front batch was written and before it was deleted: the check then passes if and only
   * if the write stored nothing new, or the batch ends in the very hash the rows before it ended in.
   */
  lemma CrashBreaksCheckIff(c: Library, sc: Scheme, w: World, s: Step, anchor: Option<string>)
    requires Lossless(c) && AllRecord(w.archives, w.batches) && HexDigest(sc.sha256)
    requires s.Write? && Enabled(c, w, s) && OldestFirst(w, s)
    requires LogInv(w, s.org) && LiveIsSound(sc, w, s.org) && NoHashPending(w, s.org) && !AllUnhashed(s.records)
    requires AnchorOf(Exec(c, w, s).archives, s.org, anchor)
    ensures var v := Exec(c, w, s);
      ChainFrom(sc, OfOrg(v.live, s.org), anchor) <==>
        |v.archives| == |w.archives| || LastHashOf(s.records) == NewestHash(OfOrg(w.ever, s.org), Removed(w, s.org))
  {
    var v := Exec(c, w, s);
    AfterWritePassesIff(c, sc, w, s, anchor);
    PendingDecides(sc, w, s.org, s.records, |v.archives| > |w.archives|, ArchivedUpTo(v, s.org));
  }

  lemma PendingDecides(sc: Scheme, w: World, org: string, records: seq<Row>, stored: bool, top: int)
    requires HexDigest(sc.sha256) && LiveIsSound(sc, w, org) && NoHashPending(w, org)
    requires OfOrg(w.live, org) == OfOrg(w.ever, org)[Removed(w, org)..]
    requires records <= OfOrg(w.live, org) && !AllUnhashed(records)
    requires 0 <= top <= |OfOrg(w.ever, org)|
    requires top == if stored then Max(ArchivedUpTo(w, org), Removed(w, org) + |records|) else ArchivedUpTo(w, org)
    ensures var log := OfOrg(w.ever, org);
      NewestHash(log, top) == NewestHash(log, Removed(w, org)) <==>
        !stored || LastHashOf(records) == NewestHash(log, Removed(w, org))
  {
    WriteDecides(sc, OfOrg(w.ever, org), Removed(w, org), ArchivedUpTo(w, org), records, stored, top);
  }

  lemma AfterWritePassesIff(c: Library, sc: Scheme, w: World, s: Step, anchor: Option<string>)
    requires Lossless(c) && AllRecord(w.archives, w.batches)
    requires s.Write? && Enabled(c, w, s) && OldestFirst(w, s) && LogInv(w, s.org) && LiveIsSound(sc, w, s.org)
    requires AnchorOf(Exec(c, w, s).archives, s.org, anchor)
    ensures var v, log := Exec(c, w, s), OfOrg(w.ever, s.org);
      && |v.batches| == |v.archives| && 0 <= ArchivedUpTo(v, s.org) <= |log|
      && ArchivedUpTo(v, s.org) ==
           (if |v.archives| > |w.archives| then Max(ArchivedUpTo(w, s.org), Removed(w, s.org) + |s.records|)
            else ArchivedUpTo(w, s.org))
      && (ChainFrom(sc, OfOrg(v.live, s.org), anchor)
          <==> NewestHash(log, ArchivedUpTo(v, s.org)) == NewestHash(log, Removed(w, s.org)))
  {
    WriteFrame(c, w, s, s.org);
    WriteKeepsLog(c, w, s, s.org);
    WrittenRecords(c, w, s);
    StatePassesIff(sc, Exec(c, w, s), s.org, anchor);
  }

  lemma WriteDecides(sc: Scheme, log: seq<Row>, gone: nat, reach: nat, records: seq<Row>, stored: bool, top: int)
    requires HexDigest(sc.sha256) && gone <= reach <= |log| && SoundFrom(sc, log, gone)
    requires records <= log[gone..] && !AllUnhashed(records) && LastHashOf(log[gone..reach]).None?
    requires 0 <= top <= |log| && top == if stored then Max(reach, gone + |records|) else reach
    ensures NewestHash(log, top) == NewestHash(log, gone) <==> !stored || LastHashOf(records) == NewestHash(log, gone)
  {
    PendingAfterWrite(sc, log, gone, reach, records);
  }

  lemma WrittenRecords(c: Library, w: World, s: Step)
    requires Lossless(c) && AllRecord(w.archives, w.batches) && s.Write? && Enabled(c, w, s)
    ensures AllRecord(Exec(c, w, s).archives, Exec(c, w, s).batches)
  {
    WriteAppends(c, w, s);
  }

  /** An intact write stores a new batch exactly when its batch id is new. */
  lemma StoredUnlessDuplicate(c: Library, w: World, s: Step)
    requires s.Write? && s.fate.Intact? && Enabled(c, w, s)
    ensures |Exec(c, w, s).archives| == |w.archives| <==> FindArchive(w.archives, BatchIdFor(c, s.records)).Some?
  {
  }

  /** The same of a state: its live rows verify from the anchor exactly when that is their true boundary. */
  lemma StatePassesIff(sc: Scheme, v: World, org: string, anchor: Option<string>)
    requires LogInv(v, org) && AllRecord(v.archives, v.batches) && AnchorOf(v.archives, org, anchor)
    requires LiveIsSound(sc, v, org)
    ensures |v.batches| == |v.archives| && 0 <= Removed(v, org) <= ArchivedUpTo(v, org) <= |OfOrg(v.ever, org)|
    ensures var log := OfOrg(v.ever, org);
      ChainFrom(sc, OfOrg(v.live, org), anchor) <==> NewestHash(log, ArchivedUpTo(v, org)) == NewestHash(log, Removed(v, org))
  {
    PassesIff(sc, OfOrg(v.ever, org), Removed(v, org), v.archives, v.batches, org, anchor);
  }

  lemma PendingAfterWrite(sc: Scheme, log: seq<Row>, gone: nat, reach: nat, records: seq<Row>)
    requires HexDigest(sc.sha256) && gone <= reach <= |log| && SoundFrom(sc, log, gone)
    requires records <= log[gone..] && !AllUnhashed(records) && LastHashOf(log[gone..reach]).None?
    ensures NewestHash(log, reach) == NewestHash(log, gone)
    ensures gone + |records| <= |log| && NewestHash(log, Max(reach, gone + |records|)) == LastHashOf(records)
  {
    var end := gone + |records|;
    BatchIsStretch(sc, log, gone, records);
    LastHashIsBoundary(sc, records, NewestHash(log, gone));
    NewestHashMoves(log, gone, reach);
    NotWithin(log, gone, reach, records);
    assert records == log[gone..end];
    NewestHashMoves(log, gone, end);
  }

  /** A hashed front batch does not lie within a stretch without hashes. */
  lemma NotWithin(log: seq<Row>, gone: nat, reach: nat, records: seq<Row>)
    requires gone <= reach <= |log| && records <= log[gone..]
    requires LastHashOf(records).Some? && LastHashOf(log[gone..reach]).None?
    ensures gone + |records| > reach
  {
    NoLastHash(records);
    NoLastHash(log[gone..reach]);
    var i :| 0 <= i < |records| && Truthy(records[i]);
    assert records[i] == log[gone..][i];
  }

  /** In a log that verifies from its first row, a written hashed batch always fails the check until it is deleted. */
  lemma CrashFailsCheck(c: Library, sc: Scheme, w: World, s: Step, anchor: Option<string>)
    requires Lossless(c) && AllRecord(w.archives, w.batches) && HexDigest(sc.sha256) && PrevReadable(sc)
    requires s.Write? && s.fate.Intact? && Enabled(c, w, s) && OldestFirst(w, s)
    requires LogInv(w, s.org) && NoHashPending(w, s.org) && !AllUnhashed(s.records)
    requires ChainFrom(sc, OfOrg(w.ever, s.org), None) && CollisionFree(sc.sha256, TextSet(sc, OfOrg(w.ever, s.org)))
    requires FindArchive(w.archives, BatchIdFor(c, s.records)).None?
    requires AnchorOf(Exec(c, w, s).archives, s.org, anchor)
    ensures !ChainFrom(sc, OfOrg(Exec(c, w, s).live, s.org), anchor)
  {
    WholeChainIsSound(sc, OfOrg(w.ever, s.org), Removed(w, s.org));
    StoredUnlessDuplicate(c, w, s);
    CrashBreaksCheckIff(c, sc, w, s, anchor);
    HashedBatchEndsElsewhere(sc, OfOrg(w.ever, s.org), Removed(w, s.org), s.records);
  }

  lemma HashedBatchEndsElsewhere(sc: Scheme, log: seq<Row>, gone: nat, records: seq<Row>)
    requires HexDigest(sc.sha256) && PrevReadable(sc) && ChainFrom(sc, log, None)
    requires CollisionFree(sc.sha256, TextSet(sc, log))
    requires gone <= |log| && records <= log[gone..] && !AllUnhashed(records)
    ensures LastHashOf(records) != NewestHash(log, gone)
  {
    var end := gone + |records|;
    WholeChainIsSound(sc, log, gone);
    BatchIsStretch(sc, log, gone, records);
    assert records == log[gone..end];
    LastHashIsBoundary(sc, records, NewestHash(log, gone));
    NewHashIsNew(sc, log, gone, end);
    NewestHashMoves(log, gone, end);
  }

  /**
   * Repair: whatever hashed rows a crash left pending, once completed batches, retried or regrouped in any way and
   * with rows inserted meanwhile, have taken at least those rows, the check passes again from every anchor.
   */
  lemma PassRepairsCheck(c: Library, sc: Scheme, w: World, steps: seq<Step>, org: string, after: Option<string>)
    requires Lossless(c) && Inv(c, w) && LogInv(w, org) && HexDigest(sc.sha256)
    requires RunsOldestFirst(c, w, steps) && Runs(c, w, steps) && Interleaved(steps, None)
    requires CollisionFree(c.sha256, Final(c, w, steps).texts)
    requires SoundFrom(sc, OfOrg(Final(c, w, steps).ever, org), Removed(w, org))
    requires Removed(Final(c, w, steps), org) >= ArchivedUpTo(w, org)
    requires AnchorOf(Final(c, w, steps).archives, org, after)
    ensures var v := Final(c, w, steps); NoHashPending(v, org) && ChainFrom(sc, OfOrg(v.live, org), after)
  {
    var v := Final(c, w, steps);
    RunKeepsLog(c, w, steps, org);
    PassMovesCut(c, w, steps, org);
    InvRecords(c, v);
    MovedPastPending(sc, w, v, org, after);
  }

  lemma MovedPastPending(sc: Scheme, w: World, v: World, org: string, after: Option<string>)
    requires HexDigest(sc.sha256) && LogInv(w, org) && LogInv(v, org) && MovedOn(w, v, org)
    requires SoundFrom(sc, OfOrg(v.ever, org), Removed(w, org)) && Removed(v, org) >= ArchivedUpTo(w, org)
    requires AllRecord(v.archives, v.batches) && AnchorOf(v.archives, org, after)
    ensures NoHashPending(v, org) && ChainFrom(sc, OfOrg(v.live, org), after)
  {
    MovedOnKeepsSound(sc, w, v, org);
    StatePassesIff(sc, v, org, after);
    assert OfOrg(v.ever, org)[Removed(v, org)..ArchivedUpTo(v, org)] == [];
  }

  /**
   * A crash and its repair in one run: after the write of any front batch and a crash, the check passes again once
   * completed batches have taken everything the archive then held.
   */
  lemma CrashIsRepaired(c: Library, sc: Scheme, w: World, s: Step, steps: seq<Step>, after: Option<string>)
    requires Lossless(c) && Inv(c, w) && HexDigest(sc.sha256)
    requires s.Write? && LogInv(w, s.org) && Enabled(c, w, s) && OldestFirst(w, s)
    requires var u := Exec(c, w, s);
      && RunsOldestFirst(c, u, steps) && Runs(c, u, steps) && Interleaved(steps, None)
      && CollisionFree(c.sha256, Final(c, u, steps).texts)
      && SoundFrom(sc, OfOrg(Final(c, u, steps).ever, s.org), Removed(w, s.org))
      && |u.batches| == |u.archives| && Removed(Final(c, u, steps), s.org) >= ArchivedUpTo(u, s.org)
      && AnchorOf(Final(c, u, steps).archives, s.org, after)
    ensures ChainFrom(sc, OfOrg(Final(c, Exec(c, w, s), steps).live, s.org), after)
  {
    WriteKeepsInv(c, w, s);
    WriteKeepsLog(c, w, s, s.org);
    WriteFrame(c, w, s, s.org);
    PassRepairsCheck(c, sc, Exec(c, w, s), steps, s.org, after);
  }
}
