/**
 * The tamper-evident hash chain of the audit log: the canonical payload, the integrity check that walks the
 * live rows from an anchor, and what the last hash of a verified chain commits to.
 */
module AuditChain {
  import opened Dates
  import opened Text
  import opened Wrappers

  /** One audit row. `oldValue` and `newValue` are held as their JSON text. */
  datatype Row = Row(
    id: string,
    organizationId: string,
    userId: Option<string>,
    action: string,
    entity: string,
    entityId: Option<string>,
    oldValue: Option<string>,
    newValue: Option<string>,
    ipAddress: Option<string>,
    device: Option<string>,
    requestId: Option<string>,
    sourceEventId: Option<string>,
    previousHash: Option<string>,
    hash: Option<string>,
    createdAt: Time)

  predicate DistinctIds(rows: seq<Row>) {
    forall i, j :: 0 <= i < j < |rows| ==> rows[i].id != rows[j].id
  }

  /** The library functions the chain rests on: SHA-256 as hex text, and `Date.toISOString`. */
  datatype Digest = Digest(sha256: string -> string, iso: Time -> string)

  predicate IsHexDigit(c: char) {
    '0' <= c <= '9' || 'a' <= c <= 'f'
  }

  predicate IsHash(s: string) {
    |s| == 64 && forall i :: 0 <= i < |s| ==> IsHexDigit(s[i])
  }

  /** No two different texts of `texts` share a digest. */
  ghost predicate CollisionFree(sha256: string -> string, texts: set<string>) {
    forall x, y :: x in texts && y in texts && sha256(x) == sha256(y) ==> x == y
  }

  // ----- canonical payload -----

  function OrEmpty(o: Option<string>): string {
    match o case None => "" case Some(s) => s
  }

  function PayloadFields(r: Row): seq<string> {
    ["org:" + r.organizationId,
     "user:" + OrEmpty(r.userId),
     "action:" + r.action,
     "entity:" + r.entity,
     "entityId:" + OrEmpty(r.entityId),
     "old:" + (if r.oldValue.Some? then r.oldValue.value else "null"),
     "new:" + (if r.newValue.Some? then r.newValue.value else "null"),
     "ip:" + OrEmpty(r.ipAddress),
     "device:" + OrEmpty(r.device)]
  }

  function PrevText(prev: Option<string>): string {
    if prev.Some? then prev.value else "GENESIS"
  }

  /** `buildCanonicalPayload`, with the timestamp that is hashed passed explicitly. */
  function Payload(d: Digest, r: Row, at: Time, prev: Option<string>): string {
    Join(PayloadFields(r) + ["ts:" + d.iso(at), "prev:" + PrevText(prev)], "|")
  }

  function EntryHash(d: Digest, r: Row, at: Time, prev: Option<string>): string {
    d.sha256(Payload(d, r, at, prev))
  }

  /** The text whose digest a stored row carries. */
  function StoredText(d: Digest, r: Row): string {
    Payload(d, r, r.createdAt, r.previousHash)
  }

  /** The text before the timestamp. */
  function PayloadHead(r: Row): string {
    Join(PayloadFields(r), "|") + "|ts:"
  }

  /** The text after the timestamp. */
  function PayloadTail(prev: Option<string>): string {
    "|prev:" + PrevText(prev)
  }

  lemma PayloadShape(d: Digest, r: Row, at: Time, prev: Option<string>)
    ensures Payload(d, r, at, prev) == PayloadHead(r) + d.iso(at) + PayloadTail(prev)
  {
    JoinTwo(PayloadFields(r), d.iso(at), PrevText(prev));
  }

  lemma JoinTwo(fields: seq<string>, ts: string, pv: string)
    requires fields != []
    ensures Join(fields + ["ts:" + ts, "prev:" + pv], "|") == Join(fields, "|") + "|ts:" + ts + ("|prev:" + pv)
  {
    JoinSnoc(fields, "ts:" + ts, "|");
    JoinSnoc(fields + ["ts:" + ts], "prev:" + pv, "|");
    assert fields + ["ts:" + ts, "prev:" + pv] == fields + ["ts:" + ts] + ["prev:" + pv];
    assert "|" + ("ts:" + ts) == "|ts:" + ts;
    assert "|" + ("prev:" + pv) == "|prev:" + pv;
  }

  function Bar(x: string, y: string): string {
    x + "|" + y
  }

  lemma JoinBar(x: string, rest: seq<string>)
    requires rest != []
    ensures Join([x] + rest, "|") == Bar(x, Join(rest, "|"))
  {
    assert ([x] + rest)[1..] == rest;
  }

  function NullIsEmpty(o: Option<string>): string {
    if o.None? then "" else o.value
  }

  function NullIsNull(o: Option<string>): string {
    if o.None? then "null" else o.value
  }

  /** The text of an entry, spelled out: eleven labelled fields in this order, with bars between them. */
  lemma PayloadSpelledOut(d: Digest, r: Row, at: Time, prev: Option<string>)
    ensures Payload(d, r, at, prev) ==
      Bar("org:" + r.organizationId, Bar("user:" + NullIsEmpty(r.userId), Bar("action:" + r.action,
      Bar("entity:" + r.entity, Bar("entityId:" + NullIsEmpty(r.entityId),
      Bar("old:" + NullIsNull(r.oldValue), Bar("new:" + NullIsNull(r.newValue),
      Bar("ip:" + NullIsEmpty(r.ipAddress), Bar("device:" + NullIsEmpty(r.device),
      Bar("ts:" + d.iso(at), "prev:" + (if prev.None? then "GENESIS" else prev.value)))))))))))
  {
    var ts, pv := "ts:" + d.iso(at), "prev:" + PrevText(prev);
    var p := PayloadFields(r);
    assert |p| == 9 && p + [ts, pv] == [p[0], p[1], p[2], p[3]] + ([p[4], p[5], p[6], p[7]] + [p[8], ts, pv]);
    BarsOf(p[0], p[1], p[2], p[3], [p[4], p[5], p[6], p[7]] + [p[8], ts, pv]);
    BarsOf(p[4], p[5], p[6], p[7], [p[8], ts, pv]);
    LastBars(p[8], ts, pv);
  }

  lemma BarsOf(a: string, b: string, c: string, e: string, rest: seq<string>)
    requires rest != []
    ensures Join([a, b, c, e] + rest, "|") == Bar(a, Bar(b, Bar(c, Bar(e, Join(rest, "|")))))
  {
    TwoBars(c, e, rest);
    TwoBars(a, b, [c, e] + rest);
    assert [a, b, c, e] + rest == [a, b] + ([c, e] + rest);
  }

  lemma TwoBars(a: string, b: string, rest: seq<string>)
    requires rest != []
    ensures Join([a, b] + rest, "|") == Bar(a, Bar(b, Join(rest, "|")))
  {
    JoinBar(b, rest);
    JoinBar(a, [b] + rest);
    assert [a, b] + rest == [a] + ([b] + rest);
  }

  lemma LastBars(a: string, b: string, c: string)
    ensures Join([a, b, c], "|") == Bar(a, Bar(b, c))
  {
    JoinBar(b, [c]);
    JoinBar(a, [b] + [c]);
    assert [a, b, c] == [a] + ([b] + [c]);
  }

  /** The timestamp is read back from the payload, the other fields being equal. */
  lemma TimeDecidesPayload(d: Digest, r: Row, x: Time, y: Time, prev: Option<string>)
    ensures Payload(d, r, x, prev) == Payload(d, r, y, prev) <==> d.iso(x) == d.iso(y)
  {
    PayloadShape(d, r, x, prev);
    PayloadShape(d, r, y, prev);
    MiddleDecides(PayloadHead(r), d.iso(x), d.iso(y), PayloadTail(prev));
  }

  /** The fields of a row that its payload covers, the timestamp and the links apart. */
  datatype Field = Organization | User | Action | Entity | EntityId | OldValue | NewValue | IpAddress | Device

  /** What the payload shows of a field: a missing value prints as nothing, or as `null` where the value is JSON. */
  function Printed(r: Row, f: Field): string {
    match f
    case Organization => r.organizationId
    case User => NullIsEmpty(r.userId)
    case Action => r.action
    case Entity => r.entity
    case EntityId => NullIsEmpty(r.entityId)
    case OldValue => NullIsNull(r.oldValue)
    case NewValue => NullIsNull(r.newValue)
    case IpAddress => NullIsEmpty(r.ipAddress)
    case Device => NullIsEmpty(r.device)
  }

  predicate DiffersOnlyIn(a: Row, b: Row, f: Field) {
    match f
    case Organization => b == a.(organizationId := b.organizationId)
    case User => b == a.(userId := b.userId)
    case Action => b == a.(action := b.action)
    case Entity => b == a.(entity := b.entity)
    case EntityId => b == a.(entityId := b.entityId)
    case OldValue => b == a.(oldValue := b.oldValue)
    case NewValue => b == a.(newValue := b.newValue)
    case IpAddress => b == a.(ipAddress := b.ipAddress)
    case Device => b == a.(device := b.device)
  }

  function Position(f: Field): nat {
    match f
    case Organization => 0 case User => 1 case Action => 2 case Entity => 3 case EntityId => 4
    case OldValue => 5 case NewValue => 6 case IpAddress => 7 case Device => 8
  }

  function Label(f: Field): string {
    match f
    case Organization => "org:" case User => "user:" case Action => "action:" case Entity => "entity:"
    case EntityId => "entityId:" case OldValue => "old:" case NewValue => "new:" case IpAddress => "ip:"
    case Device => "device:"
  }

  lemma FieldAt(r: Row, f: Field)
    ensures |PayloadFields(r)| == 9 && Position(f) < 9 && PayloadFields(r)[Position(f)] == Label(f) + Printed(r, f)
  {
  }

  lemma OtherFieldsAgree(a: Row, b: Row, f: Field, g: Field)
    requires DiffersOnlyIn(a, b, f) && f != g
    ensures Printed(a, g) == Printed(b, g)
  {
  }

  function FieldOf(k: nat): Field
    requires k < 9
  {
    match k
    case 0 => Organization case 1 => User case 2 => Action case 3 => Entity case 4 => EntityId
    case 5 => OldValue case 6 => NewValue case 7 => IpAddress case _ => Device
  }

  /**
   * Every field counts: of two rows that differ in one field only, the payloads are equal exactly when that field
   * prints alike.
   */
  lemma FieldDecidesPayload(d: Digest, a: Row, b: Row, f: Field, at: Time, prev: Option<string>)
    requires DiffersOnlyIn(a, b, f)
    ensures Payload(d, a, at, prev) == Payload(d, b, at, prev) <==> Printed(a, f) == Printed(b, f)
  {
    var rest := ["ts:" + d.iso(at), "prev:" + PrevText(prev)];
    var p, q, k := PayloadFields(a) + rest, PayloadFields(b) + rest, Position(f);
    FieldAt(a, f);
    FieldAt(b, f);
    forall j | 0 <= j < |p| && j != k ensures p[j] == q[j] {
      if j < 9 {
        assert Position(FieldOf(j)) == j;
        FieldAt(a, FieldOf(j));
        FieldAt(b, FieldOf(j));
        OtherFieldsAgree(a, b, f, FieldOf(j));
      }
    }
    PartDecides(p, q, k, "|");
    RestDecides(Label(f), Printed(a, f), Printed(b, f));
  }

  /**
   * The previous hash can be read back from the payload text, although the fields before it are unescaped and
   * may themselves contain "|prev:".
   */
  lemma PrevRecoverable(d: Digest, a: Row, b: Row, atA: Time, atB: Time, p: Option<string>, q: Option<string>)
    requires p.Some? ==> IsHash(p.value)
    requires q.Some? ==> IsHash(q.value)
    requires Payload(d, a, atA, p) == Payload(d, b, atB, q)
    ensures p == q
  {
    PayloadShape(d, a, atA, p);
    PayloadShape(d, b, atB, q);
    TailDecides(PayloadHead(a) + d.iso(atA), PayloadHead(b) + d.iso(atB), p, q);
  }

  lemma TailDecides(x: string, y: string, p: Option<string>, q: Option<string>)
    requires p.Some? ==> IsHash(p.value)
    requires q.Some? ==> IsHash(q.value)
    requires x + PayloadTail(p) == y + PayloadTail(q)
    ensures p == q
  {
    var t := x + PayloadTail(p);
    var n, m := |PrevText(p)|, |PrevText(q)|;
    assert PrevText(p) == t[|t| - n..];
    assert PrevText(q) == t[|t| - m..];
    assert PrevText(p)[n - 1] == t[|t| - 1] == PrevText(q)[m - 1];
    assert p.None? <==> !IsHexDigit(PrevText(p)[n - 1]);
    assert q.None? <==> !IsHexDigit(PrevText(q)[m - 1]);
  }

  // ----- the chain -----

  /**
   * How rows are digested: the text of a stored row, and the digest of a text. The chain lemmas hold for every
   * such scheme; the service uses `SchemeOf`.
   */
  datatype Scheme = Scheme(sha256: string -> string, text: Row -> string)

  function SchemeOf(d: Digest): Scheme {
    Scheme(d.sha256, r => StoredText(d, r))
  }

  ghost predicate HexDigest(sha256: string -> string) {
    forall t :: IsHash(sha256(t))
  }

  /** The hash a row points at can be read back from the row's text. */
  ghost predicate PrevReadable(s: Scheme) {
    forall q, r ::
      s.text(q) == s.text(r) && IsHashOrNull(q.previousHash) && IsHashOrNull(r.previousHash)
      ==> q.previousHash == r.previousHash
  }

  predicate IsHashOrNull(h: Option<string>) {
    h.Some? ==> IsHash(h.value)
  }

  lemma CanonicalPayloadIsPrevReadable(d: Digest)
    ensures PrevReadable(SchemeOf(d))
  {
    var s := SchemeOf(d);
    forall q, r | s.text(q) == s.text(r) && IsHashOrNull(q.previousHash) && IsHashOrNull(r.previousHash)
      ensures q.previousHash == r.previousHash
    {
      PrevRecoverable(d, q, r, q.createdAt, r.createdAt, q.previousHash, r.previousHash);
    }
  }

  /** The row's stored links are right when `expected` is the hash before it. */
  predicate Linked(s: Scheme, r: Row, expected: Option<string>)
    requires r.hash.Some?
  {
    && r.previousHash == expected
    && s.sha256(s.text(r)) == r.hash.value
  }

  /** Every hashed row links to the hashed row before it, the first one to `anchor`. */
  predicate ChainFrom(s: Scheme, rows: seq<Row>, anchor: Option<string>) {
    if rows == [] then true
    else if rows[0].hash.None? then ChainFrom(s, rows[1..], anchor)
    else Linked(s, rows[0], anchor) && ChainFrom(s, rows[1..], rows[0].hash)
  }

  /** The hash the row after `rows` has to point at. */
  function Boundary(rows: seq<Row>, anchor: Option<string>): Option<string> {
    if rows == [] then anchor
    else Boundary(rows[1..], if rows[0].hash.Some? then rows[0].hash else anchor)
  }

  predicate AllUnhashed(rows: seq<Row>) {
    forall i :: 0 <= i < |rows| ==> rows[i].hash.None?
  }

  function Hashed(rows: seq<Row>): (r: seq<Row>)
    ensures forall i :: 0 <= i < |r| ==> r[i].hash.Some?
    ensures r == [] <==> AllUnhashed(rows)
  {
    if rows == [] then []
    else if rows[0].hash.Some? then [rows[0]] + Hashed(rows[1..])
    else Hashed(rows[1..])
  }

  /** Cutting a chain: the back half chains from the boundary of the front half. */
  lemma {:induction false} ChainSplit(s: Scheme, a: seq<Row>, b: seq<Row>, anchor: Option<string>)
    ensures ChainFrom(s, a + b, anchor) <==> ChainFrom(s, a, anchor) && ChainFrom(s, b, Boundary(a, anchor))
    ensures Boundary(a + b, anchor) == Boundary(b, Boundary(a, anchor))
  {
    if a == [] {
      assert a + b == b;
    } else {
      assert (a + b)[1..] == a[1..] + b;
      ChainSplit(s, a[1..], b, if a[0].hash.Some? then a[0].hash else anchor);
    }
  }

  lemma {:induction false} UnhashedIsTransparent(s: Scheme, rows: seq<Row>, anchor: Option<string>)
    requires AllUnhashed(rows)
    ensures ChainFrom(s, rows, anchor) && Boundary(rows, anchor) == anchor
  {
    if rows == [] {
    } else {
      UnhashedIsTransparent(s, rows[1..], anchor);
    }
  }

  /** Once a row of the list is hashed, the anchor no longer decides the boundary; a chain fits one anchor only. */
  lemma {:induction false} AnchorDetermined(s: Scheme, rows: seq<Row>, x: Option<string>, y: Option<string>)
    requires !AllUnhashed(rows)
    ensures Boundary(rows, x) == Boundary(rows, y) && Boundary(rows, x).Some?
    ensures ChainFrom(s, rows, x) && ChainFrom(s, rows, y) ==> x == y
  {
    if rows[0].hash.None? {
      assert !AllUnhashed(rows[1..]);
      AnchorDetermined(s, rows[1..], x, y);
    } else {
      BoundarySome(rows[1..], rows[0].hash);
    }
  }

  lemma {:induction false} BoundarySome(rows: seq<Row>, anchor: Option<string>)
    requires anchor.Some?
    ensures Boundary(rows, anchor).Some?
  {
    if rows == [] {
    } else {
      BoundarySome(rows[1..], if rows[0].hash.Some? then rows[0].hash else anchor);
    }
  }

  /** Rows that predate the hash chain change neither the verdict nor the boundary. */
  lemma {:induction false} ChainOfHashed(s: Scheme, rows: seq<Row>, anchor: Option<string>)
    ensures ChainFrom(s, rows, anchor) <==> ChainFrom(s, Hashed(rows), anchor)
    ensures Boundary(rows, anchor) == Boundary(Hashed(rows), anchor)
  {
    if rows == [] {
    } else {
      if rows[0].hash.Some? {
        ChainOfHashed(s, rows[1..], rows[0].hash);
        assert Hashed(rows)[1..] == Hashed(rows[1..]);
      } else {
        ChainOfHashed(s, rows[1..], anchor);
      }
    }
  }

  lemma {:induction false} BoundaryIsHash(s: Scheme, rows: seq<Row>, anchor: Option<string>)
    requires HexDigest(s.sha256)
    requires ChainFrom(s, rows, anchor)
    requires anchor.Some? ==> IsHash(anchor.value)
    ensures var b := Boundary(rows, anchor); b.Some? ==> IsHash(b.value)
  {
    if rows == [] {
    } else {
      BoundaryIsHash(s, rows[1..], if rows[0].hash.Some? then rows[0].hash else anchor);
    }
  }

  // ----- the integrity check -----

  datatype IntegrityResult = IntegrityResult(
    valid: bool,
    totalChecked: nat,
    brokenAtEntryId: Option<string>,
    brokenAtIndex: Option<nat>)

  /** `verifyChainIntegrity` over the rows of one organization, oldest first. */
  method VerifyChainIntegrity(d: Digest, entries: seq<Row>, archiveAnchor: Option<string>)
    returns (r: IntegrityResult)
    ensures r.valid <==> ChainFrom(SchemeOf(d), entries, archiveAnchor)
    ensures r.valid ==> r == IntegrityResult(true, |entries|, None, None)
    ensures !r.valid ==>
      && r.brokenAtIndex == Some(r.totalChecked)
      && r.totalChecked < |entries|
      && r.brokenAtEntryId == Some(entries[r.totalChecked].id)
      && ChainFrom(SchemeOf(d), entries[..r.totalChecked], archiveAnchor)
      && !ChainFrom(SchemeOf(d), entries[..r.totalChecked + 1], archiveAnchor)
  {
    var expectedPreviousHash := archiveAnchor;
    var i := 0;
    while i < |entries|
      invariant 0 <= i <= |entries|
      invariant ChainFrom(SchemeOf(d), entries[..i], archiveAnchor)
      invariant expectedPreviousHash == Boundary(entries[..i], archiveAnchor)
    {
      var entry := entries[i];
      StepOfChain(SchemeOf(d), entries, i, archiveAnchor);
      if entry.hash.None? {
        i := i + 1;
        continue;
      }
      if entry.previousHash != expectedPreviousHash {
        return IntegrityResult(false, i, Some(entry.id), Some(i));
      }
      var computed := EntryHash(d, entry, entry.createdAt, entry.previousHash);
      if computed != entry.hash.value {
        return IntegrityResult(false, i, Some(entry.id), Some(i));
      }
      expectedPreviousHash := entry.hash;
      i := i + 1;
    }
    assert entries[..i] == entries;
    return IntegrityResult(true, |entries|, None, None);
  }

  lemma StepOfChain(s: Scheme, entries: seq<Row>, i: nat, anchor: Option<string>)
    requires i < |entries|
    requires ChainFrom(s, entries[..i], anchor)
    ensures var expected := Boundary(entries[..i], anchor);
      && (entries[i].hash.None? ==>
            ChainFrom(s, entries[..i + 1], anchor) && Boundary(entries[..i + 1], anchor) == expected)
      && (entries[i].hash.Some? ==>
            && (ChainFrom(s, entries[..i + 1], anchor) <==> Linked(s, entries[i], expected))
            && Boundary(entries[..i + 1], anchor) == entries[i].hash)
    ensures ChainFrom(s, entries, anchor) ==> ChainFrom(s, entries[..i + 1], anchor)
  {
    var e := entries[i];
    assert entries[..i + 1] == entries[..i] + [e];
    ChainSplit(s, entries[..i], [e], anchor);
    assert [e][1..] == [];
    assert entries == entries[..i + 1] + entries[i + 1..];
    ChainSplit(s, entries[..i + 1], entries[i + 1..], anchor);
  }

  // ----- tamper evidence -----

  /** A row that no longer has the digest it carries, or no longer the right link, breaks the chain right there. */
  lemma BrokenRowBreaksChain(s: Scheme, rows: seq<Row>, anchor: Option<string>, i: nat, b: Row)
    requires ChainFrom(s, rows, anchor) && i < |rows| && b.hash.Some?
    requires !Linked(s, b, Boundary(rows[..i], anchor))
    ensures ChainFrom(s, rows[i := b][..i], anchor) && !ChainFrom(s, rows[i := b][..i + 1], anchor)
    ensures !ChainFrom(s, rows[i := b], anchor)
  {
    var changed := rows[i := b];
    assert rows == rows[..i] + rows[i..];
    ChainSplit(s, rows[..i], rows[i..], anchor);
    assert changed[..i] == rows[..i];
    StepOfChain(s, changed, i, anchor);
  }

  lemma IntactLink(s: Scheme, rows: seq<Row>, anchor: Option<string>, i: nat)
    requires ChainFrom(s, rows, anchor) && i < |rows| && rows[i].hash.Some?
    ensures Linked(s, rows[i], Boundary(rows[..i], anchor))
  {
    assert rows == rows[..i] + rows[i..];
    ChainSplit(s, rows[..i], rows[i..], anchor);
    StepOfChain(s, rows, i, anchor);
  }

  /**
   * Tamper evidence: in a verified log, changing any one covered field of a hashed row so that it prints differently
   * is found, and found at that row, unless the two texts of that row collide.
   */
  lemma ChangedFieldIsFound(d: Digest, rows: seq<Row>, anchor: Option<string>, i: nat, b: Row, f: Field)
    requires ChainFrom(SchemeOf(d), rows, anchor) && i < |rows| && rows[i].hash.Some?
    requires DiffersOnlyIn(rows[i], b, f) && Printed(rows[i], f) != Printed(b, f)
    requires CollisionFree(d.sha256, {StoredText(d, rows[i]), StoredText(d, b)})
    ensures ChainFrom(SchemeOf(d), rows[i := b][..i], anchor) && !ChainFrom(SchemeOf(d), rows[i := b][..i + 1], anchor)
    ensures !ChainFrom(SchemeOf(d), rows[i := b], anchor)
  {
    LinksSurvive(rows[i], b, f);
    FieldDecidesPayload(d, rows[i], b, f, b.createdAt, b.previousHash);
    IntactLink(SchemeOf(d), rows, anchor, i);
    BrokenRowBreaksChain(SchemeOf(d), rows, anchor, i, b);
  }

  lemma LinksSurvive(a: Row, b: Row, f: Field)
    requires DiffersOnlyIn(a, b, f)
    ensures b.hash == a.hash && b.previousHash == a.previousHash && b.createdAt == a.createdAt
  {
  }

  /** The same for the timestamp. */
  lemma ChangedTimeIsFound(d: Digest, rows: seq<Row>, anchor: Option<string>, i: nat, at: Time)
    requires ChainFrom(SchemeOf(d), rows, anchor) && i < |rows| && rows[i].hash.Some?
    requires d.iso(at) != d.iso(rows[i].createdAt)
    requires CollisionFree(d.sha256, {StoredText(d, rows[i]), StoredText(d, rows[i].(createdAt := at))})
    ensures var changed := rows[i := rows[i].(createdAt := at)];
      ChainFrom(SchemeOf(d), changed[..i], anchor) && !ChainFrom(SchemeOf(d), changed[..i + 1], anchor)
  {
    var b := rows[i].(createdAt := at);
    assert PayloadFields(b) == PayloadFields(rows[i]);
    TimeDecidesPayload(d, rows[i], rows[i].createdAt, at, b.previousHash);
    IntactLink(SchemeOf(d), rows, anchor, i);
    BrokenRowBreaksChain(SchemeOf(d), rows, anchor, i, b);
  }

  /** The same for the links themselves, and there without any proviso. */
  lemma ChangedLinkIsFound(d: Digest, rows: seq<Row>, anchor: Option<string>, i: nat, b: Row)
    requires ChainFrom(SchemeOf(d), rows, anchor) && i < |rows| && rows[i].hash.Some? && b.hash.Some? && b != rows[i]
    requires b == rows[i].(hash := b.hash) || b == rows[i].(previousHash := b.previousHash)
    ensures ChainFrom(SchemeOf(d), rows[i := b][..i], anchor) && !ChainFrom(SchemeOf(d), rows[i := b][..i + 1], anchor)
  {
    IntactLink(SchemeOf(d), rows, anchor, i);
    assert PayloadFields(b) == PayloadFields(rows[i]);
    BrokenRowBreaksChain(SchemeOf(d), rows, anchor, i, b);
  }

  // ----- what the last hash commits to -----

  /** The texts of the hashed rows, in chain order. */
  function Texts(s: Scheme, rows: seq<Row>): (r: seq<string>)
    ensures |r| == |Hashed(rows)|
    ensures forall i :: 0 <= i < |r| ==> r[i] == s.text(Hashed(rows)[i])
  {
    seq(|Hashed(rows)|, i requires 0 <= i < |Hashed(rows)| => s.text(Hashed(rows)[i]))
  }

  function TextSet(s: Scheme, rows: seq<Row>): set<string> {
    set t | t in Texts(s, rows)
  }

  /**
   * Two histories that verify from an empty archive and end in the same hash hold the same texts, entry by
   * entry, unless two of those very texts collide.
   */
  lemma LastHashCommitsToHistory(s: Scheme, a: seq<Row>, b: seq<Row>)
    requires HexDigest(s.sha256) && PrevReadable(s)
    requires ChainFrom(s, a, None) && ChainFrom(s, b, None)
    requires Boundary(a, None) == Boundary(b, None)
    requires CollisionFree(s.sha256, TextSet(s, a) + TextSet(s, b))
    ensures |Hashed(a)| == |Hashed(b)|
    ensures Texts(s, a) == Texts(s, b)
  {
    ChainOfHashed(s, a, None);
    ChainOfHashed(s, b, None);
    var texts := TextSet(s, a) + TextSet(s, b);
    forall i | 0 <= i < |Hashed(a)| ensures s.text(Hashed(a)[i]) in texts {
      assert Texts(s, a)[i] in TextSet(s, a);
    }
    forall i | 0 <= i < |Hashed(b)| ensures s.text(Hashed(b)[i]) in texts {
      assert Texts(s, b)[i] in TextSet(s, b);
    }
    SameHashSameTexts(s, Hashed(a), Hashed(b), texts);
  }

  /** Walking both chains back from the shared hash: equal digests, equal texts, equal hashes before. */
  lemma {:induction false} SameHashSameTexts(s: Scheme, a: seq<Row>, b: seq<Row>, texts: set<string>)
    requires HexDigest(s.sha256) && PrevReadable(s) && CollisionFree(s.sha256, texts)
    requires forall i :: 0 <= i < |a| ==> a[i].hash.Some? && s.text(a[i]) in texts
    requires forall i :: 0 <= i < |b| ==> b[i].hash.Some? && s.text(b[i]) in texts
    requires ChainFrom(s, a, None) && ChainFrom(s, b, None)
    requires Boundary(a, None) == Boundary(b, None)
    ensures |a| == |b|
    ensures forall i :: 0 <= i < |a| ==> s.text(a[i]) == s.text(b[i])
    decreases |a|
  {
    if a == [] || b == [] {
      if a != [] { AnchorDetermined(s, a, None, None); }
      if b != [] { AnchorDetermined(s, b, None, None); }
    } else {
      StepBack(s, a, b, texts);
      SameHashSameTexts(s, a[..|a| - 1], b[..|b| - 1], texts);
    }
  }

  lemma StepBack(s: Scheme, a: seq<Row>, b: seq<Row>, texts: set<string>)
    requires HexDigest(s.sha256) && PrevReadable(s) && CollisionFree(s.sha256, texts)
    requires a != [] && a[|a| - 1].hash.Some? && s.text(a[|a| - 1]) in texts
    requires b != [] && b[|b| - 1].hash.Some? && s.text(b[|b| - 1]) in texts
    requires ChainFrom(s, a, None) && ChainFrom(s, b, None)
    requires Boundary(a, None) == Boundary(b, None)
    ensures var n, m := |a| - 1, |b| - 1;
      && s.text(a[n]) == s.text(b[m])
      && ChainFrom(s, a[..n], None) && ChainFrom(s, b[..m], None)
      && Boundary(a[..n], None) == Boundary(b[..m], None)
  {
    LastLink(s, a);
    LastLink(s, b);
    BoundaryIsHash(s, a[..|a| - 1], None);
    BoundaryIsHash(s, b[..|b| - 1], None);
  }

  lemma LastLink(s: Scheme, a: seq<Row>)
    requires |a| > 0 && a[|a| - 1].hash.Some? && ChainFrom(s, a, None)
    ensures ChainFrom(s, a[..|a| - 1], None)
    ensures Boundary(a, None) == a[|a| - 1].hash
    ensures a[|a| - 1].previousHash == Boundary(a[..|a| - 1], None)
    ensures s.sha256(s.text(a[|a| - 1])) == a[|a| - 1].hash.value
  {
    var n := |a| - 1;
    assert a == a[..n] + [a[n]];
    ChainSplit(s, a[..n], [a[n]], None);
    assert [a[n]][1..] == [];
  }

  /** Extending a verified chain always changes its last hash. */
  lemma LongerChainEndsElsewhere(s: Scheme, log: seq<Row>, lo: nat, hi: nat)
    requires HexDigest(s.sha256) && PrevReadable(s) && ChainFrom(s, log, None)
    requires CollisionFree(s.sha256, TextSet(s, log))
    requires lo <= hi <= |log| && !AllUnhashed(log[lo..hi])
    ensures Boundary(log[..lo], None) != Boundary(log[..hi], None)
  {
    PrefixOfLog(s, log, lo);
    PrefixOfLog(s, log, hi);
    HashedGrows(log, lo, hi);
    if Boundary(log[..lo], None) == Boundary(log[..hi], None) {
      LastHashCommitsToHistory(s, log[..lo], log[..hi]);
      assert false;
    }
  }

  lemma PrefixOfLog(s: Scheme, log: seq<Row>, k: nat)
    requires k <= |log| && ChainFrom(s, log, None)
    ensures ChainFrom(s, log[..k], None) && TextSet(s, log[..k]) <= TextSet(s, log)
  {
    assert log == log[..k] + log[k..];
    ChainSplit(s, log[..k], log[k..], None);
    HashedConcat(log[..k], log[k..]);
    TextSetOfPrefix(s, log[..k], log);
  }

  lemma HashedGrows(log: seq<Row>, lo: nat, hi: nat)
    requires lo <= hi <= |log| && !AllUnhashed(log[lo..hi])
    ensures |Hashed(log[..lo])| < |Hashed(log[..hi])|
  {
    assert log[..hi] == log[..lo] + log[lo..hi];
    HashedConcat(log[..lo], log[lo..hi]);
  }

  lemma {:induction false} HashedConcat(a: seq<Row>, b: seq<Row>)
    ensures Hashed(a + b) == Hashed(a) + Hashed(b)
  {
    if a == [] {
      assert a + b == b;
    } else {
      assert (a + b)[1..] == a[1..] + b;
      HashedConcat(a[1..], b);
    }
  }

  lemma TextSetOfPrefix(s: Scheme, a: seq<Row>, log: seq<Row>)
    requires Hashed(a) <= Hashed(log)
    ensures TextSet(s, a) <= TextSet(s, log)
  {
    forall t | t in TextSet(s, a) ensures t in TextSet(s, log) {
      var i :| 0 <= i < |Texts(s, a)| && t == Texts(s, a)[i];
      assert t == Texts(s, log)[i];
    }
  }

  // ----- the latest live hash -----

  /** `getLatestHash`: the newest non-null hash among the live rows only. */
  function GetLatestHash(live: seq<Row>): Option<string> {
    if live == [] then None
    else if live[|live| - 1].hash.Some? then live[|live| - 1].hash
    else GetLatestHash(live[..|live| - 1])
  }

  lemma {:induction false} LatestHashIsBoundary(live: seq<Row>)
    ensures GetLatestHash(live) == Boundary(live, None)
  {
    if live == [] {
    } else {
      var n := |live| - 1;
      LatestHashIsBoundary(live[..n]);
      assert live == live[..n] + [live[n]];
      ChainSplit(Scheme(t => t, _ => ""), live[..n], [live[n]], None);
      assert [live[n]][1..] == [];
    }
  }

  /** A new hashed row keeps a chain exactly when it points at the boundary and carries the digest of its own text. */
  lemma AppendKeepsChainIff(s: Scheme, live: seq<Row>, r: Row, anchor: Option<string>)
    requires ChainFrom(s, live, anchor) && r.hash.Some?
    ensures ChainFrom(s, live + [r], anchor) <==>
      r.previousHash == Boundary(live, anchor) && s.sha256(s.text(r)) == r.hash.value
  {
    ChainSplit(s, live, [r], anchor);
    assert [r][1..] == [];
  }

  /** The latest live hash is the boundary exactly when some live row is hashed or there is no anchor. */
  lemma LatestIsBoundaryIff(live: seq<Row>, anchor: Option<string>)
    ensures GetLatestHash(live) == Boundary(live, anchor) <==> anchor.None? || !AllUnhashed(live)
  {
    var s := Scheme(t => t, _ => "");
    LatestHashIsBoundary(live);
    if AllUnhashed(live) {
      UnhashedIsTransparent(s, live, anchor);
      UnhashedIsTransparent(s, live, None);
    } else {
      AnchorDetermined(s, live, anchor, None);
    }
  }
}
