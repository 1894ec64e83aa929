# Astroid API: verified models

Dafny models of the state machines and algorithms inside the Astroid API, with the properties that hold over
every input or every run. Each module follows one part of the service:

- `AuditChain`, `AuditRecord`, `AuditArchive`, `AuditAnchor`, `AuditIntegrity`, `AuditArchiver`: the tamper-evident
  audit log, how calls record into it, its archival into compressed batches (write, read back, delete) and the integrity check across the archive boundary.
- `AuditCursor`, `AuditPages`: the keyset-paginated audit listing and its opaque cursor.
- `TtlCache`: the bounded cache with per-entry deadlines.
- `CircuitBreaker`: the breaker, with calls that overlap and settle late.
- `SlidingWindow`, `FailoverGuard`: the sliding-window log in Redis and in memory, and the guard that flips
  between them.
- `FixedWindow`: the fixed-window throttler with a block.
- `RedisLock`: the distributed lock.
- `StreamSplit`: the largest-remainder split.
- `AbiReader`, `AbiShown`: the ABI reader of the contract-revert decoder, and the texts it shows.
- `FieldEncryption`: the encrypted envelope and the recursive field transform.
- `Shutdown`: the shutdown coordinator on a time line.
- `Laws`: for each set of laws asked of a library, one value that meets it.

How the world outside is modelled:

- SHA-256, gzip, JSON, UTF-8, AES-256-GCM and date printing are function-valued parameters with their laws as
  preconditions. SHA-256 is never taken to be injective on all texts: a theorem that needs it asks that no two of
  the texts that occur in that run or history collide (`CollisionFree`). Every other law is shown to be one that
  can be met (`Laws`).
- Stored instants lie in the range of a JavaScript `Date` (`Dates.Time`); audit values and JSON numbers are held as
  the texts that print them.
- Time is an integer number of milliseconds passed to every operation. One clock is used for the service and for
  Redis. Redis serves a key up to and including the millisecond it expires in.
- Concurrency is a sequence of atomic steps in any order. A crash is a run that stops between two steps.
- A JavaScript `Map` is the list of its entries in insertion order; the audit table is listed in query order.
- An in-place object is a class whose methods are proved against functions on values; the theorems about whole
  runs are about those functions.

Where the code does not do what its comments promise, the model follows the code and the exact condition is
proved:

- The breaker can get stuck for ever exactly when its classifier counts some error and lets some other error pass
  (`StuckIffClassifierSplits`); the shipped `isRpcFailure` is such a classifier.
- The throttler script writes a passed block back. A run stays within twice the limit, for every window and block
  length, as long as no request is served a key with a passed block (`NeverStaleGivesBound`), and repeating a request
  that is served one breaks every bound (`BoundedBurstIff`). On a Redis that serves a key in the millisecond it
  expires in, every configuration with a positive limit can get there (`FixedWindow.BoundedIff`).
- Recording keeps a verified log verified exactly when every call that stores a row still points at the end of the log
  by then and the table gives back the text that was hashed (`AuditRecord.RunKeepsChainIff`, over every interleaving).
  In a log that verifies from its first row that means that no row was stored since the call read the latest hash
  (`StoreKeepsChainIff`), so two overlapping calls break it (`OverlapBreaksChain`); so does a value that a JSONB column
  gives back in another form (`ReorderedValueBreaksChain`). For a call on its own, with values that come back
  unchanged, the stored timestamp has to print like the hashed one and the organization must still have a hashed live
  row or no archive anchor (`RecordKeepsChainIff`).
- In a log that verifies from its first row, the integrity check passes, at any point of an archival run, exactly when
  no hashed row is both stored in a batch and still live (`IntegrityIffNothingPending`). Of live rows that verify,
  whatever was archived before them, it passes exactly when the anchor is the newest hash that has left (`PassesIff`).
  After a crash between write and delete of a hashed batch it fails (`CrashFailsCheck`), until completed batches have
  taken the pending rows (`PassRepairsCheck`, `CrashIsRepaired`).
- Encrypting and decrypting gives a JSON value back exactly when no sensitive text is JSON text or an envelope that
  opens (`RoundTripIff`).
- If stopping the HTTP server throws, shutdown returns 1 without closing any worker or resource (`Run`).

## Model

| member | source | states |
|---|---|---|
| AuditChain.PrevRecoverable | src/modules/audit/audit-hash.service.ts:238-257 | the previous hash is determined by the canonical payload text, although the fields before it are unescaped |
| AuditChain.PayloadSpelledOut | src/modules/audit/audit-hash.service.ts:238-257 | the hashed text, written out: eleven labelled fields in order, null printed as nothing or as null |
| AuditChain.FieldDecidesPayload | src/modules/audit/audit-hash.service.ts:238-257 | for each of the nine covered fields: rows that differ in it only have equal payloads exactly when it prints alike |
| AuditChain.ChangedFieldIsFound | src/modules/audit/audit-hash.service.ts:107-157 | in a verified log, changing any covered field of a hashed row so that it prints differently is found, and found at that row |
| AuditChain.ChangedTimeIsFound | src/modules/audit/audit-hash.service.ts:107-157 | the same for the timestamp |
| AuditChain.ChangedLinkIsFound | src/modules/audit/audit-hash.service.ts:107-157 | the same for the stored hash and the stored previous hash, for every digest |
| AuditChain.CanonicalPayloadIsPrevReadable | src/modules/audit/audit-hash.service.ts:238-257 | the service's payload therefore meets the condition the commitment theorem needs |
| AuditChain.VerifyChainIntegrity | src/modules/audit/audit-hash.service.ts:84-166 | valid exactly when every hashed row links to the one before it, the first to the anchor; otherwise the reported entry is the first at which the prefix stops being a chain |
| AuditChain.ChainSplit | src/modules/audit/audit-hash.service.ts:107-157 | a chain can be cut anywhere: the back part verifies from the boundary of the front part |
| AuditChain.LastHashCommitsToHistory | src/modules/audit/audit-hash.service.ts:108-157 | two histories that verify from an empty archive and end in the same hash have equally many hashed rows and equal payload texts entry by entry |
| AuditChain.LongerChainEndsElsewhere | src/modules/audit/audit-hash.service.ts:108-157 | a verified chain never returns to an earlier hash |
| AuditChain.TimeDecidesPayload | src/modules/audit/audit-hash.service.ts:238-257 | two payloads that differ at most in the timestamp are equal exactly when the timestamps print alike |
| AuditChain.LatestHashIsBoundary | src/modules/audit/audit-hash.service.ts:62-73 | the latest hash is the boundary of the live rows read from an empty archive, never the archive's anchor |
| AuditChain.AppendKeepsChainIff | src/modules/audit/audit-hash.service.ts:108-157 | a new hashed row keeps a chain exactly when it points at the boundary and carries the digest of its own text |
| AuditRecord.RunKeepsChainIff | src/modules/audit/audit.service.ts:28-59 | over every interleaving of calls suspended between reading the latest hash and storing their row, a verified log stays verified if and only if each stored row still points at the end of the log and comes back with the text that was hashed; redaction and the upsert of a known event included |
| AuditRecord.StoreKeepsChainIff | src/modules/audit/audit.service.ts:34-53 | after any such run on a log that verifies from its first row, storing a row keeps it verified if and only if no row was stored since the call read the latest hash and its text comes back |
| AuditRecord.RunKeepsCalls | src/modules/audit/audit.service.ts:34 | in every run, what an open call holds was the latest hash when it read it |
| AuditRecord.RowsAreTheirCalls | src/modules/audit/audit.service.ts:28-59 | over every interleaving each stored row is the draft of its own call with both values redacted, hashed over the redacted values |
| AuditRecord.RunKeepsEventsOnce | src/modules/audit/audit.repository.ts:29-56 | over every interleaving no source event is stored twice |
| AuditRecord.StoresUnlessKnown | src/modules/audit/audit.repository.ts:47-55 | a call adds its row unless it reports a known event; null and the empty text report none |
| AuditRecord.StoredEventIsKnown | src/modules/audit/audit.repository.ts:29-56 | and none that a finished call reported is lost |
| AuditRecord.RecordKeepsChainIff | src/modules/audit/audit.service.ts:28-59 | for a call that nothing overlaps and values that come back unchanged: exactly when the event is known, or the timestamps print alike and the organization has a hashed live row or no anchor |
| AuditRecord.OverlapBreaksChain | src/modules/audit/audit.service.ts:34-53 | two calls that both read before either stores break a log that verifies, with equal timestamps and unchanged values too |
| AuditRecord.NewValueDecidesPayload | src/modules/audit/audit-hash.service.ts:238-257 | payloads that differ at most in the new value are equal exactly when the values are |
| AuditRecord.ReorderedValueBreaksChain | prisma/migrations/0_init/migration.sql:231-232 | a call on its own whose new value the table gives back in another form breaks the log |
| AuditArchive.BatchIdIgnoresOrder | src/modules/audit/audit-archive.service.ts:303-310 | the same set of records produces the same batch id in every order |
| AuditArchive.BatchIdIdentifies | src/modules/audit/audit-archive.service.ts:303-310 | two batches have the same id exactly when they hold the same ids |
| AuditArchive.ReadBackAfterWrite | src/modules/audit/audit-archive.service.ts:264-286 | what the read-back says after a write, for every fate of it: intact passes, lost is not found, damaged is unreadable or fails its checksum |
| AuditArchive.WrongCountIsRefused | src/modules/audit/audit-archive.service.ts:277-281 | a stored batch that claims another number of records is refused |
| AuditArchive.RetryStoresNothing | src/modules/audit/audit-archive.repository.ts:81-101 | a retried write of the same records stores no second batch |
| AuditArchive.RetryReadsBack | src/modules/audit/audit-archive.service.ts:235-286 | a batch that was written intact reads back, and still does after the write is retried, whatever becomes of the retry |
| AuditArchive.ReadBackIdentifies | src/modules/audit/audit-archive.service.ts:264-286 | a batch that passes the read-back is intact and was written from exactly the records to be deleted |
| AuditArchive.ReadBackIff | src/modules/audit/audit-archive.service.ts:264-286 | a batch reads back exactly when some stored batch was written from these records and is intact |
| AuditArchive.ReadArchiveAnswers | src/modules/audit/audit-archive.service.ts:196-219 | only the owner is given a batch, exactly as it was written; a damaged one is unreadable or fails its checksum |
| AuditArchive.RunKeepsInv | src/modules/audit/audit-archive.service.ts:230-286 | every interleaving of inserts, writes (intact, lost or damaged) and guarded deletes keeps each row live or in a readable batch |
| AuditArchive.NoRowIsLost | src/modules/audit/audit-archive.service.ts:196-219 | in every run, stopped anywhere, every row ever stored is live or returned by readArchive of a stored batch of its organization |
| AuditArchive.ArchivesAreWritten | src/modules/audit/audit-archive.service.ts:223-251 | every batch stored in a run carries the fields of the write that stored it, and no later step touches it |
| AuditArchive.RunKeepsQueryOrder | src/modules/audit/audit-archive.repository.ts:66-79 | over every run the table is listed by creation time, and rows of one instant by id |
| AuditAnchor.FindArchiveAnchor | src/modules/audit/audit-hash.service.ts:216-231 | returns an answer the anchor query may give: the boundary of a newest batch that carries one, or null if none does |
| AuditAnchor.AnchorIsNewestHash | src/modules/audit/audit-hash.service.ts:216-231 | whatever order ties come in, past batches without hashes, and whether or not the archived rows verify, the anchor is the newest hash of everything archived |
| AuditAnchor.RunKeepsLog | src/modules/audit/audit-archive.service.ts:40-54 | over every oldest-first run with crashes, what left the live table is a prefix of the log, and stored batches are slices of it without a gap |
| AuditAnchor.PassMovesCut | src/modules/audit/audit-archive.service.ts:121-146 | over any number of completed batches of any organizations, with rows inserted between and within them, the cut of each moves on by what was deleted, and the archive reaches at least as far |
| AuditIntegrity.SoundMoves | src/modules/audit/audit-hash.service.ts:107-157 | cutting rows that verify anywhere further on leaves rows that verify, and the stretch in between is a chain from the old boundary to the new one |
| AuditIntegrity.PassesIff | src/modules/audit/audit-hash.service.ts:84-166 | rows that verify from the newest hash before them verify from the anchor if and only if the two hashes are equal |
| AuditIntegrity.IntegrityIffNothingPending | src/modules/audit/audit-hash.service.ts:75-166 | at any point of any run the check passes if and only if no hashed row is archived but still live |
| AuditIntegrity.CompletedBatchKeepsChain | src/modules/audit/audit-archive.service.ts:223-262 | if the live rows verify from the anchor and no hashed row is pending, a completed batch is the stretch of the chain from the old anchor to the new one and the rest verifies from the new one, whatever the archived rows are like |
| AuditIntegrity.PassKeepsChain | src/modules/audit/audit-archive.service.ts:121-146 | the same over a whole pass of many organizations with rows inserted at any point of it |
| AuditIntegrity.CrashBreaksCheckIff | src/modules/audit/audit-archive.service.ts:244-261 | after a hashed front batch is written and before it is deleted, the check passes if and only if the write stored nothing new or the batch ends in the hash the rows before it ended in |
| AuditIntegrity.CrashFailsCheck | src/modules/audit/audit-archive.service.ts:244-261 | in a log that verifies from its first row that never happens: a newly stored hashed batch fails the check |
| AuditIntegrity.PassRepairsCheck | src/modules/audit/audit-archive.service.ts:121-146 | once completed batches, retried or regrouped and with rows inserted meanwhile, have taken the pending rows, the check passes again |
| AuditIntegrity.CrashIsRepaired | src/modules/audit/audit-archive.service.ts:121-146 | the crash and its repair in one run |
| AuditArchiver.GroupByOrganization | src/modules/audit/audit-archive.service.ts:289-301 | one group per organization in order of first occurrence, holding exactly its records in order |
| AuditArchiver.FindLastHash | src/modules/audit/audit-archive.service.ts:312-321 | the newest truthy hash of the batch |
| AuditArchiver.SelectionIsFront | src/modules/audit/audit-archive.repository.ts:66-79 | an organization's share of the selected rows is a prefix of its live rows |
| AuditArchiver.BatchLeaves | src/modules/audit/audit-archive.repository.ts:166-169 | deleting a batch removes exactly its rows and touches no other organization |
| AuditArchiver.ReadyReadsBack | src/modules/audit/audit-archive.service.ts:223-262 | an intact write of a front batch reads back, whether its id is new or a retry |
| AuditArchiver.IntactHistoryIsReady | src/modules/audit/audit-archive.service.ts:223-262 | after any run whose stored batches are intact, crashed or not, every batch a pass may cut is new or reads back |
| AuditArchiver.AuditArchiveService.constructor | src/modules/audit/audit-archive.service.ts:57-64 | starts from a live table and an empty archive |
| AuditArchiver.AuditArchiveService.FindArchivable | src/modules/audit/audit-archive.repository.ts:66-79 | the oldest rows before the cutoff, at most the limit, and all of them if fewer |
| AuditArchiver.AuditArchiveService.WriteBatch | src/modules/audit/audit-archive.service.ts:235-251 | performs one write step |
| AuditArchiver.AuditArchiveService.DeleteBatch | src/modules/audit/audit-archive.service.ts:255-261 | performs one guarded delete step and counts the rows removed |
| AuditArchiver.AuditArchiveService.ArchiveBatch | src/modules/audit/audit-archive.service.ts:223-262 | a write followed by the deletion of the same records, or by nothing when the read-back fails, with its error; on an intact disk whose earlier batches read back it succeeds and keeps it so |
| AuditArchiver.AuditArchiveService.ArchiveGroups | src/modules/audit/audit-archive.service.ts:121-146 | one completed batch per organization of the selection, up to the batch limit or the first failed read-back; archived equals deleted equals what left the table |
| AuditArchiver.AuditArchiveService.RunPass | src/modules/audit/audit-archive.service.ts:96-172 | an oldest-first run of at most maxBatches batches that takes only rows before the cutoff and leaves every other row; archived equals deleted equals what left the table; with batches to spare no row before the cutoff is left; when every write is intact and earlier batches read back the pass completes |
| AuditArchiver.AuditArchiveService.RunBatches | src/modules/audit/audit-archive.service.ts:122-146 | the loop over selections, with the same promises |
| AuditArchiver.AuditArchiveService.Round | src/modules/audit/audit-archive.service.ts:123-140 | one selection: nothing before the cutoff is left, or at least one batch is done or the read-back failed |
| AuditCursor.BytesRoundTrip | src/modules/audit/audit-cursor.ts:18-28 | base64url decodes what it encodes, for every byte string |
| AuditCursor.EncodedGroups | src/modules/audit/audit-cursor.ts:18 | the encoding of section 5 of RFC 4648: each group of 24 bits is the same number in four digits as in three bytes, the last one filled up with zero bits |
| AuditCursor.UpperDigits | src/modules/audit/audit-cursor.ts:18 | the first 26 digits of its alphabet |
| AuditCursor.LowerDigits | src/modules/audit/audit-cursor.ts:18 | the next 26 |
| AuditCursor.OtherDigits | src/modules/audit/audit-cursor.ts:18 | and the last twelve |
| AuditCursor.CursorJsonIsObject | src/modules/audit/audit-cursor.ts:13-18 | what is encoded is the JSON text of version 1, the printed time and the id |
| AuditCursor.CursorRoundTrip | src/modules/audit/audit-cursor.ts:12-52 | every cursor with a valid id and a time in the range of a Date encodes within 256 characters and decodes back to itself |
| AuditCursor.DecodedIsValid | src/modules/audit/audit-cursor.ts:21-52 | what decodes has a valid id, a time that prints as it was written, and canonical base64url text of at most 256 characters |
| AuditCursor.DecodesIff | src/modules/audit/audit-cursor.ts:21-52 | exactly which texts decode, and to which cursor |
| AuditCursor.CodecIsFaithful | src/modules/audit/audit-cursor.ts:12-52 | the service's codec returns every cursor it gives out |
| AuditPages.PageContinues | src/modules/audit/audit.repository.ts:66-81 | the page behind a cursor is the next stretch of the listing, whatever was inserted above |
| AuditPages.PageOf | src/modules/audit/audit.service.ts:62-74 | a page holds exactly the next rows; hasNext and the cursor say exactly whether more follow |
| AuditPages.RefusedCursorEndsWalk | src/modules/audit/audit.service.ts:63-64 | a cursor that does not decode shows nothing and ends the walk |
| AuditPages.RequestStep | src/modules/audit/audit.service.ts:62-74 | one request appends exactly the next rows and leaves the cursor right behind them; it ends the walk exactly at the end |
| AuditPages.WalkSeesListing | src/modules/audit/audit.service.ts:62-74 | after n requests exactly the first n * limit rows have been seen, in order |
| AuditPages.WalkIsComplete | src/modules/audit/audit.service.ts:62-74 | with the service's own cursors the walk ends and has shown every matching row exactly once, newest first |
| TtlCache.SmallerIsIncluded | src/utils/ttl-cache.util.ts:62-91 | on every timed trace the smaller cache is a subsequence of the larger one with a bounded size gap and no more hits |
| TtlCache.HitsAreShared | src/utils/ttl-cache.util.ts:62-79 | every hit in the smaller cache is the same hit in the larger one |
| TtlCache.CacheAgrees | src/utils/ttl-cache.util.ts:10-13 | the size never exceeds the maximum, and every entry is the one last stored under its key |
| TtlCache.HitIsLatestAndFresh | src/utils/ttl-cache.util.ts:61-79 | a hit returns the value last stored and not deleted since, before its deadline |
| TtlCache.RoomyCacheIsExact | src/utils/ttl-cache.util.ts:61-91 | a get hits exactly on a fresh stored entry, as long as fewer distinct keys than there is room for were stored or hit since the key was |
| TtlCache.FreshEntryIsKept | src/utils/ttl-cache.util.ts:81-91 | such an entry is still in the cache |
| TtlCache.OrderIsRecency | src/utils/ttl-cache.util.ts:74-91 | entries are ordered by last store or hit, so the one evicted is the least recently used |
| TtlCache.CountersAreLookups | src/utils/ttl-cache.util.ts:61-140 | hits and misses are the numbers of lookups so answered since the last clear |
| TtlCache.TtlCache.constructor | src/utils/ttl-cache.util.ts:44-59 | an empty cache with the given ttl and capacity |
| TtlCache.TtlCache.Get | src/utils/ttl-cache.util.ts:61-79 | the get step of the trace semantics |
| TtlCache.TtlCache.Set | src/utils/ttl-cache.util.ts:81-91 | the set step, with the cache's own ttl unless one is given |
| TtlCache.TtlCache.EvictOldest | src/utils/ttl-cache.util.ts:86-90 | deleting first keys until the cache fits leaves exactly the newest entries |
| TtlCache.TtlCache.Delete | src/utils/ttl-cache.util.ts:121-124 | the delete step, and whether the key was present |
| TtlCache.TtlCache.Clear | src/utils/ttl-cache.util.ts:126-131 | the clear step |
| CircuitBreaker.BreakerInvariant | src/common/circuit-breaker/circuit-breaker.ts:85-230 | over every interleaving: CLOSED exactly when openedAt is null, the failure count is the counted failures since the last success and below the threshold while CLOSED, HALF_OPEN holds one to the maximum number of trials |
| CircuitBreaker.OpensAtThreshold | src/common/circuit-breaker/circuit-breaker.ts:170-191 | from CLOSED the circuit opens exactly on the counted failure that completes the threshold |
| CircuitBreaker.StateDiagram | src/common/circuit-breaker/circuit-breaker.ts:161-230 | what moves the circuit out of each reachable state, and to which instant openedAt is set |
| CircuitBreaker.CallStartsIff | src/common/circuit-breaker/circuit-breaker.ts:124-148 | exactly when a call starts in each reachable state |
| CircuitBreaker.Recovers | src/common/circuit-breaker/circuit-breaker.ts:124-168 | from every reachable OPEN state a call after the timeout is a trial, and whatever calls crowd in, the first success resets the circuit completely and the next call starts |
| CircuitBreaker.FailedTrialReopens | src/common/circuit-breaker/circuit-breaker.ts:170-191 | a counted failure in HALF_OPEN opens the circuit anew from that instant |
| CircuitBreaker.LateSettlementsChangeNothing | src/common/circuit-breaker/circuit-breaker.ts:161-191 | calls that settle while the circuit is OPEN, however many, neither close it nor move openedAt |
| CircuitBreaker.TrialsStayInFlight | src/common/circuit-breaker/circuit-breaker.ts:133-148 | if every error counts, all trials of HALF_OPEN are still in flight and the breaker is never stuck |
| CircuitBreaker.StuckForever | src/common/circuit-breaker/circuit-breaker.ts:133-148 | a stuck breaker refuses every later call |
| CircuitBreaker.StuckIffClassifierSplits | src/common/circuit-breaker/circuit-breaker.ts:170-173 | the breaker can get stuck if and only if the classifier counts some error and passes another |
| CircuitBreaker.ProbeRateBound | src/common/circuit-breaker/circuit-breaker.ts:124-148 | while the circuit does not close, at most halfOpenMaxAttempts * floor(T / resetTimeoutMs) operations begin within T of its opening |
| CircuitBreaker.RetryAfterIsExact | src/common/circuit-breaker/circuit-breaker.ts:150-159 | an OPEN circuit admits a call exactly from the announced instant on |
| CircuitBreaker.HintIsTimeLeft | src/common/circuit-breaker/circuit-breaker.ts:150-159 | whatever refuses a call, the hint is what is left of the timeout and never negative |
| CircuitBreaker.SettlesOnce | src/common/circuit-breaker/circuit-breaker.ts:133-148 | in every run a call settles at most once |
| CircuitBreaker.CircuitBreaker.constructor | src/common/circuit-breaker/circuit-breaker.ts:85-97 | starts CLOSED with no failures |
| CircuitBreaker.CircuitBreaker.BeginCall | src/common/circuit-breaker/circuit-breaker.ts:124-141 | execute up to the await |
| CircuitBreaker.CircuitBreaker.HandleFailFast | src/common/circuit-breaker/circuit-breaker.ts:150-159 | the retry hint of a refused call |
| CircuitBreaker.CircuitBreaker.SettleSuccess | src/common/circuit-breaker/circuit-breaker.ts:161-168 | a resolved call; together with Recovers: it closes a half-open circuit and resets it, and only clears the count otherwise |
| CircuitBreaker.CircuitBreaker.SettleFailure | src/common/circuit-breaker/circuit-breaker.ts:170-191 | a rejected call, counted or not |
| CircuitBreaker.CircuitBreaker.TransitionTo | src/common/circuit-breaker/circuit-breaker.ts:193-230 | the fields after each transition |
| SlidingWindow.AdmitKeepsBound | src/common/throttler/sliding-window.store.ts:13-18 | admitting keeps every window within the limit |
| SlidingWindow.HitReports | src/common/throttler/sliding-window.store.ts:39-53 | count is the number of requests admitted in the window that ends now, and resetAt the instant the oldest of them leaves it |
| SlidingWindow.ResetAtIsExact | src/common/throttler/sliding-window.store.ts:39-53 | after a rejection a request is admitted exactly from resetAt on |
| SlidingWindow.FirstAdmissionAtReset | src/common/throttler/sliding-window.store.ts:39-53 | however many requests follow a rejection, the first admitted one is the first at or after resetAt |
| SlidingWindow.FirstAdmissionOnStores | src/common/throttler/sliding-window.store.ts:34-120 | on a trace of many keys both stores admit the first request of a rejected key at or after the announced resetAt and none before |
| SlidingWindow.ScriptRefines | src/common/throttler/sliding-window.store.ts:34-58 | one run of the script answers like the history specification and stays in agreement with it, key expiry included |
| SlidingWindow.SweepAgrees | src/common/throttler/sliding-window.store.ts:127-139 | the sweep drops nothing that still counts |
| SlidingWindow.TrackedKeysAreRecent | src/common/throttler/sliding-window.store.ts:127-139 | after every request of every trace, each key the in-memory store tracks had a request admitted less than two windows ago |
| SlidingWindow.IdleKeyIsGone | src/common/throttler/sliding-window.store.ts:53-58 | in Redis a key is gone once more than a window has passed since its last request, and served in full until then |
| SlidingWindow.MemoryRefines | src/common/throttler/sliding-window.store.ts:97-120 | one hit on the memory store answers like the specification and stays in agreement for every key |
| SlidingWindow.StoresAgree | src/common/throttler/sliding-window.store.ts:34-139 | on every trace in time order both stores give the specification's allowed, count and resetAt |
| SlidingWindow.StoresAreBounded | src/common/throttler/sliding-window.store.ts:13-18 | neither store admits more than the largest limit in any window |
| SlidingWindow.RedisSlidingWindowStore.Record | src/common/throttler/sliding-window.store.ts:34-85 | the script, command by command |
| SlidingWindow.MemorySlidingWindowStore.Record | src/common/throttler/sliding-window.store.ts:97-120 | the in-memory hit |
| SlidingWindow.MemorySlidingWindowStore.SweepOnce | src/common/throttler/sliding-window.store.ts:127-139 | the sweep loop |
| FailoverGuard.StepKeepsCoupling | src/common/guards/public-rate-limit.guard.ts:190-212 | every store keeps agreeing with its own history, whichever store serves the request |
| FailoverGuard.EveryReplyIsAnswered | src/common/guards/public-rate-limit.guard.ts:190-212 | over every run and every pattern of failures each request is answered as the history of the store that serves it calls for |
| FailoverGuard.FailoverBound | src/common/guards/public-rate-limit.guard.ts:190-219 | with N replicas flipping freely, at most (N + 1) * limit requests of a client pass in any window |
| FailoverGuard.PublicRateLimitGuard.constructor | src/common/guards/public-rate-limit.guard.ts:81-94 | a shared Redis store and an empty store of its own |
| FailoverGuard.PublicRateLimitGuard.Record | src/common/guards/public-rate-limit.guard.ts:190-212 | which store answers and which stores change |
| FailoverGuard.PublicRateLimitGuard.EnterFallback | src/common/guards/public-rate-limit.guard.ts:214-219 | the fallback flag |
| FixedWindow.KeyIsTidy | src/common/throttler/redis-throttler.storage.ts:43-80 | with a long block, a live key's blockUntil is 0 or equals its expiry, as long as no passed block was served |
| FixedWindow.NothingDuringBlock | src/common/throttler/redis-throttler.storage.ts:48-50 | nothing is admitted while a block is open, and the key does not change |
| FixedWindow.NeverStaleGivesBound | src/common/throttler/redis-throttler.storage.ts:43-80 | for every window and block length, a run in which no request is served a passed block admits at most twice the limit in any interval of one window length |
| FixedWindow.WindowAdmitsLimit | src/common/throttler/redis-throttler.storage.ts:43-80 | a window that opens on a missing key admits at most the limit |
| FixedWindow.FirstWindow | src/common/throttler/redis-throttler.storage.ts:43-80 | the requests of a window are numbered from one, all are told when it ends, and exactly the one past the limit is refused with the block's length |
| FixedWindow.HintIsExact | src/common/throttler/redis-throttler.storage.ts:43-80 | after every refusal in every run, a request is let through once the announced seconds have passed and refused while a whole second of them is left |
| FixedWindow.SecondsCover | src/common/throttler/redis-throttler.storage.ts:36-41 | the seconds announced are the fewest that cover the milliseconds |
| FixedWindow.StaleAdmitsAll | src/common/throttler/redis-throttler.storage.ts:52-72 | a key served with a passed block admits any number of requests in one instant |
| FixedWindow.BoundedBurstIff | src/common/throttler/redis-throttler.storage.ts:52-55 | however often its last request is repeated, a run stays within twice the limit if and only if that request is not served a passed block |
| FixedWindow.Unlimited | src/common/throttler/redis-throttler.storage.ts:52-72 | with a short block, or a key served in its last millisecond, any number of requests passes in one window |
| FixedWindow.BoundedIff | src/config/throttler.config.ts:70-71 | exactly which configurations are bounded by twice the limit on every run, for a Redis that serves a key in its last millisecond and for one that does not |
| FixedWindow.RedisThrottlerStorage.Increment | src/common/throttler/redis-throttler.storage.ts:30-141 | the script, step by step, and the answer that lets requests pass when Redis is unreachable |
| RedisLock.RunKeepsInv | src/common/locks/redis-lock.util.ts:13-19 | over every run each entry belongs to a granted lock and a handler within its ttl owns its entry |
| RedisLock.AtMostOneWithinTtl | src/common/locks/redis-lock.util.ts:27-38 | at most one handler per key is within its ttl |
| RedisLock.OverlapMeansOutlived | src/common/locks/redis-lock.util.ts:84-106 | handlers on one key overlap only if one of them has outlived its ttl |
| RedisLock.OutlivedCanBeOverlapped | src/common/locks/redis-lock.util.ts:68-75 | a handler that outlived its ttl is overlapped by the next acquire, unless another process already holds the key |
| RedisLock.ReleaseIsOwn | src/common/locks/redis-lock.util.ts:7-19 | a release removes its own live entry and nothing else |
| RedisLock.NoDeadlock | src/common/locks/redis-lock.util.ts:30-33 | once the last holder's ttl has passed, the next acquire succeeds, crashed holder or not |
| RedisLock.AcquireLock | src/common/locks/redis-lock.util.ts:59-82 | the retry loop among other processes: exactly which world it ends in, after which try, and granted exactly at the first try that finds the key free |
| RedisLock.WithLock | src/common/locks/redis-lock.util.ts:93-106 | it runs exactly if some try finds the key free; the handler runs under the lock and stops before the release; afterwards no live entry carries its token |
| StreamSplit.CalculateStreamSplitAllocations | src/utils/stream-split-calculator.util.ts:14-72 | the first failing check, in order, or the fair split with recipients in order |
| StreamSplit.AcceptedIff | src/utils/stream-split-calculator.util.ts:18-37 | a request is split exactly when the total is not negative and the shares are positive whole numbers that sum to 10000 |
| StreamSplit.FairSplitIsUnique | src/utils/stream-split-calculator.util.ts:52-65 | sum, rounding and priority leave exactly one split |
| StreamSplit.WithinOneUnit | src/utils/stream-split-calculator.util.ts:39-50 | each amount differs from the exact share by less than one unit |
| StreamSplit.DustFits | src/utils/stream-split-calculator.util.ts:52-65 | there is dust for fewer units than recipients, and whoever gets one has a remainder |
| StreamSplit.SortByRemainder | src/utils/stream-split-calculator.util.ts:55-60 | the same objects, ordered by remainder and then by index |
| StreamSplit.HandOut | src/utils/stream-split-calculator.util.ts:62-65 | the loop uses up the dust on the first entries of the order, through the shared objects |
| StreamSplit.Allocate | src/utils/stream-split-calculator.util.ts:39-71 | the second half yields the fair split |
| AbiReader.SignedRoundTrip | src/common/exceptions/contract-revert.decoder.ts:558-563 | two's-complement intN is read back, for every width |
| AbiReader.DecodeOne | src/common/exceptions/contract-revert.decoder.ts:531-569 | each argument of an encoding decodes to its value |
| AbiReader.AbiRoundTrip | src/common/exceptions/contract-revert.decoder.ts:483-569 | decoding the head/tail encoding of any list of values under its signature shows exactly those values |
| AbiReader.ErrorStringRoundTrip | src/common/exceptions/contract-revert.decoder.ts:495-511 | an encoded message is read back |
| AbiReader.RenderIsInjective | src/common/exceptions/contract-revert.decoder.ts:552-568 | two values of one type that are shown alike are the same value |
| AbiShown.HexOfBytes | src/common/exceptions/contract-revert.decoder.ts:455-457 | byte strings are shown with two lower-case digits a byte, which read as the big-endian number |
| AbiShown.AddressShown | src/common/exceptions/contract-revert.decoder.ts:552-554 | every address is shown as 0x and exactly 40 digits, which read as its number |
| AbiShown.RenderReads | src/common/exceptions/contract-revert.decoder.ts:531-569 | what is shown of a value of any type reads as that value, by a reader that does not know the printer |
| AbiShown.ShownReads | src/common/exceptions/contract-revert.decoder.ts:483-569 | so does every argument of a decoded encoding |
| AbiShown.PrefixRoundTrip | src/common/exceptions/contract-revert.decoder.ts:483-569 | an encoding cut off anywhere: what is shown of each argument, byte strings as far as they go |
| AbiShown.SpacedRoundTrip | src/common/exceptions/contract-revert.decoder.ts:513-529 | blanks around the types and text after the signature make no difference |
| AbiShown.BadWidth | src/common/exceptions/contract-revert.decoder.ts:558-563 | an intN without a number for its width yields no arguments, and int means int256 |
| FieldEncryption.EnvelopeRoundTrip | src/common/encryption/encryption.service.ts:316-339 | every envelope of hex texts, the empty ciphertext included, prints and parses back |
| FieldEncryption.CurrentIsSerialized | src/common/encryption/encryption.service.ts:316-318 | the current form is what serialize prints |
| FieldEncryption.FormRoundTrip | src/common/encryption/encryption.service.ts:323-360 | the current and both older printed forms read back as the same envelope, with any white space around them |
| FieldEncryption.JsonFormIsRead | src/common/encryption/encryption.service.ts:352-384 | a JSON text is read as a JSON envelope, unless its two colons make it look like three parts |
| FieldEncryption.PrefixIsEncrypted | src/common/encryption/encryption.service.ts:403-405 | any text with the prefix is taken for an envelope |
| FieldEncryption.OlderIsEncryptedIff | src/common/encryption/encryption.service.ts:403-414 | an older form is taken for an envelope exactly when the vector has 12 bytes and the tag 16 |
| FieldEncryption.EncryptTwice | src/common/encryption/encryption.service.ts:425-486 | encrypting twice equals encrypting once, on every tree and whatever the ciphers do |
| FieldEncryption.RoundTripIff | src/common/encryption/encryption.service.ts:425-486 | decrypting an encrypted JSON value gives it back if and only if no sensitive text is JSON or an envelope that opens |
| FieldEncryption.TransformSensitiveFields | src/common/encryption/encryption.service.ts:425-486 | the recursive loop computes the encrypted or decrypted tree |
| Shutdown.RaceEndsFirst | src/common/shutdown/shutdown-coordinator.service.ts:347-362 | a race against a timer ends with whichever comes first, and with which outcome |
| Shutdown.WorkersEndIsLatest | src/common/shutdown/shutdown-coordinator.service.ts:231-266 | the workers are drained when the last of them is, each by its own pause and close |
| Shutdown.ShutdownCoordinator.constructor | src/common/shutdown/shutdown-coordinator.service.ts:78-93 | nothing registered, nothing running |
| Shutdown.ShutdownCoordinator.Register | src/common/shutdown/shutdown-coordinator.service.ts:100-109 | appends, or ignores once resources are closing |
| Shutdown.ShutdownCoordinator.ClosePhase | src/common/shutdown/shutdown-coordinator.service.ts:303-333 | every member of the phase is closed once, together, each ending when its own close does or after 3 s |
| Shutdown.ShutdownCoordinator.CloseResourcePhases | src/common/shutdown/shutdown-coordinator.service.ts:300-308 | every resource is closed exactly once, no phase starts before the earlier ones ended, all within 9 s |
| Shutdown.ShutdownCoordinator.CloseResources | src/common/shutdown/shutdown-coordinator.service.ts:293-298 | later callers share the first run |
| Shutdown.ShutdownCoordinator.DrainHttp | src/common/shutdown/shutdown-coordinator.service.ts:206-229 | over by the deadline, with a failure exactly when requests were cut off |
| Shutdown.ShutdownCoordinator.DrainWorkers | src/common/shutdown/shutdown-coordinator.service.ts:231-266 | over exactly when the last worker's own pause and close, or forced close, is over, within 3 s of the deadline, with a failure exactly when some worker was not clean |
| Shutdown.ShutdownCoordinator.CloseApplication | src/common/shutdown/shutdown-coordinator.service.ts:268-291 | the phases run whether the hooks reach them or not, within 15 s + 9 s |
| Shutdown.ShutdownCoordinator.Run | src/common/shutdown/shutdown-coordinator.service.ts:180-204 | resources start closing only after the server and every worker have ended; exactly when it returns, within grace + 3 s + 15 s + 9 s, and 0 exactly when nothing failed or timed out |
| Shutdown.ShutdownCoordinator.ShutDown | src/common/shutdown/shutdown-coordinator.service.ts:159-169 | the first call runs the sequence, with the same time bound and exit code, and every other call shares its result |
| Laws.EncryptionLawsCanBeMet | src/common/encryption/encryption.service.ts:425-486 | there are ciphers and a JSON that meet the laws of the field transform |
| Laws.ArchiveLawsCanBeMet | src/modules/audit/audit-archive.service.ts:196-219 | there are a compression and a JSON that lose no row, with any digest |
| Laws.CursorLawsCanBeMet | src/modules/audit/audit-cursor.ts:12-52 | there are dates, a JSON and a UTF-8 that meet the laws of the cursor |
| Laws.IdOrderCanBeMet | src/modules/audit/audit.repository.ts:79 | the order of ids by character codes is a strict total order |
| Laws.Utf8LawCanBeMet | src/common/exceptions/contract-revert.decoder.ts:495-511 | there is an encoding of texts that reads back |

## Left out

- Controllers, modules, decorators, data transfer objects, configuration loading, logging, metrics, and the Prisma, BullMQ and HTTP plumbing: wiring without a property of its own.
- Budgets, policies, approvals, authentication, token refresh, risk and transactions: they rest on services outside these models.
- Ciphers, SHA-256, gzip, UTF-8, JSON text and date printing are parameters with laws; their algorithms are not modelled.
- Clock skew between the service and Redis: one clock is used throughout.
- Mixed window lengths in one sliding-window store: the window is fixed per store, limits may vary per request.
- The order of equal scores in a Redis sorted set: only scores can be observed by the script.
- The audit cleanup job (src/modules/audit/queues/audit-cleanup.queue.ts): it deletes expired rows without archiving them and nothing enqueues it; it is not a step of the archival machine, so NoRowIsLost and the chain theorems are about runs without it.
- Two archival jobs at once, in the chain theorems: the no-loss theorem covers any interleaving of batches, the chain theorems assume one job that cuts batches from the front.
- Rows of one organization with equal creation times: the archiver and the checker order them differently, so the chain theorems assume distinct times.
- Changes to several fields of a row at once: fields are joined without escaping, so two changes may cancel out in the text; single fields are covered, and the commitment theorem compares whole texts.
- `getOrSet` and `has` of the cache, `verifyEntryIntegrity`, the archive listing, CSV and stream export: single-branch additions to what is modelled.
- `SlidingWindowThrottlerGuard`, CIDR and address parsing, memo and asset validators, offset pagination, fee estimates: short facts that would only add easy members.
- A JSON key named `__proto__`: assigning it in the transform sets the prototype of the result, while the model keeps it as a key.
- FixedWindow.BoundedBurstIff: asks for a block of at least one millisecond; without one, FixedWindow.Unlimited applies.
- Revert data other than ABI arguments (host error text, base64 and hex sniffing, panic codes): text matching.
- AbiReader.AbiRoundTrip: type texts with a non-decimal width (such as `int0x10`) are not numbers in the model, and the encoded size is below 2^256 bytes, as offsets are 256-bit words.
- RedisLock.AcquireLock: the delay between attempts is the steps other processes take meanwhile; real timers are not modelled.
- Sorting is modelled by an insertion sort with the source's comparator.
