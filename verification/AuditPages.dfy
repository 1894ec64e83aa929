/**
 * Keyset pagination of the audit log: newest first by creation time and id, one page at a time, each page
 * continuing below the cursor of the page before.
 */
module AuditPages {
  import opened Wrappers
  import opened AuditChain
  import opened AuditCursor

  /** The database's order on ids; any strict total order will do. */
  type IdOrder = (string, string) -> bool

  ghost predicate StrictTotal(lt: IdOrder) {
    && (forall a :: !lt(a, a))
    && (forall a, b, c :: lt(a, b) && lt(b, c) ==> lt(a, c))
    && (forall a, b :: a != b ==> lt(a, b) || lt(b, a))
  }

  predicate Newer(lt: IdOrder, a: Row, b: Row) {
    a.createdAt > b.createdAt || (a.createdAt == b.createdAt && lt(b.id, a.id))
  }

  /** The keyset predicate of `findPage`. */
  predicate BelowCursor(lt: IdOrder, row: Row, cursor: Option<Cursor>) {
    cursor.Some? ==>
      row.createdAt < cursor.value.createdAt ||
      (row.createdAt == cursor.value.createdAt && lt(row.id, cursor.value.id))
  }

  // ----- the query -----

  function Select(lt: IdOrder, table: seq<Row>, where: Row -> bool, cursor: Option<Cursor>): seq<Row> {
    if table == [] then []
    else if where(table[0]) && BelowCursor(lt, table[0], cursor) then [table[0]] + Select(lt, table[1..], where, cursor)
    else Select(lt, table[1..], where, cursor)
  }

  function InsertSorted(lt: IdOrder, sorted: seq<Row>, row: Row): seq<Row> {
    if sorted == [] || Newer(lt, row, sorted[0]) then [row] + sorted
    else [sorted[0]] + InsertSorted(lt, sorted[1..], row)
  }

  function SortNewestFirst(lt: IdOrder, rows: seq<Row>): seq<Row> {
    if rows == [] then [] else InsertSorted(lt, SortNewestFirst(lt, rows[1..]), rows[0])
  }

  /** `findPage`: filter, order, take. */
  function FindPage(lt: IdOrder, table: seq<Row>, where: Row -> bool, cursor: Option<Cursor>, take: nat): seq<Row> {
    var sorted := SortNewestFirst(lt, Select(lt, table, where, cursor));
    if |sorted| > take then sorted[..take] else sorted
  }

  datatype Page = Page(items: seq<Row>, hasNext: bool, nextCursor: Option<string>)

  /** `list`: one row more than the limit is fetched to learn whether there is a next page. */
  function ListPage(codec: Codec, lt: IdOrder, table: seq<Row>, where: Row -> bool, cursor: Option<Cursor>, limit: nat): Page {
    PageFrom(codec, FindPage(lt, table, where, cursor, limit + 1), limit)
  }

  function PageFrom(codec: Codec, rows: seq<Row>, limit: nat): Page {
    var hasNext := |rows| > limit;
    var items := if hasNext then rows[..limit] else rows;
    Page(items, hasNext,
         if hasNext && items != []
         then Some(codec.encode(Cursor(items[|items| - 1].createdAt, items[|items| - 1].id))) else None)
  }

  // ----- listings -----

  ghost predicate NewestFirst(lt: IdOrder, rows: seq<Row>) {
    forall i, j :: 0 <= i < j < |rows| ==> Newer(lt, rows[i], rows[j])
  }

  lemma {:induction false} InsertMembers(lt: IdOrder, sorted: seq<Row>, row: Row)
    ensures forall x :: x in InsertSorted(lt, sorted, row) <==> x in sorted || x == row
  {
    if sorted == [] || Newer(lt, row, sorted[0]) {
    } else {
      InsertMembers(lt, sorted[1..], row);
    }
  }

  lemma {:induction false} InsertKeepsOrder(lt: IdOrder, sorted: seq<Row>, row: Row)
    requires StrictTotal(lt) && NewestFirst(lt, sorted)
    requires forall x :: x in sorted ==> x.id != row.id
    ensures NewestFirst(lt, InsertSorted(lt, sorted, row))
  {
    if sorted == [] {
    } else if Newer(lt, row, sorted[0]) {
      forall j | 0 <= j < |sorted| ensures Newer(lt, row, sorted[j]) {
        if j > 0 { assert Newer(lt, sorted[0], sorted[j]); }
      }
    } else {
      assert sorted[0] in sorted;
      InsertKeepsOrder(lt, sorted[1..], row);
      InsertMembers(lt, sorted[1..], row);
      var rest := InsertSorted(lt, sorted[1..], row);
      forall j | 0 <= j < |rest| ensures Newer(lt, sorted[0], rest[j]) {
        assert rest[j] in rest;
      }
    }
  }

  lemma {:induction false} SortProps(lt: IdOrder, rows: seq<Row>)
    requires StrictTotal(lt) && DistinctIds(rows)
    ensures NewestFirst(lt, SortNewestFirst(lt, rows))
    ensures forall x :: x in SortNewestFirst(lt, rows) <==> x in rows
  {
    if rows == [] {
    } else {
      SortProps(lt, rows[1..]);
      var rest := SortNewestFirst(lt, rows[1..]);
      forall x | x in rest ensures x.id != rows[0].id {
        assert x in rows[1..];
      }
      InsertKeepsOrder(lt, rest, rows[0]);
      InsertMembers(lt, rest, rows[0]);
    }
  }

  lemma {:induction false} SelectProps(lt: IdOrder, table: seq<Row>, where: Row -> bool, cursor: Option<Cursor>)
    requires DistinctIds(table)
    ensures DistinctIds(Select(lt, table, where, cursor))
    ensures forall x :: x in Select(lt, table, where, cursor) <==> x in table && where(x) && BelowCursor(lt, x, cursor)
  {
    if table == [] {
    } else {
      SelectProps(lt, table[1..], where, cursor);
      var rest := Select(lt, table[1..], where, cursor);
      forall x | x in rest ensures x.id != table[0].id {
        assert x in table[1..];
      }
    }
  }

  lemma SameNewest(lt: IdOrder, a: seq<Row>, b: seq<Row>)
    requires StrictTotal(lt) && NewestFirst(lt, a) && NewestFirst(lt, b)
    requires a != [] && b != [] && a[0] in b && b[0] in a
    ensures a[0] == b[0]
  {
    HeadIsNewest(lt, a, b[0]);
    HeadIsNewest(lt, b, a[0]);
  }

  lemma HeadIsNewest(lt: IdOrder, a: seq<Row>, x: Row)
    requires NewestFirst(lt, a) && x in a
    ensures x == a[0] || Newer(lt, a[0], x)
  {
    var i :| 0 <= i < |a| && a[i] == x;
  }

  /** A listing is determined by its rows. */
  lemma {:induction false} ListingIsUnique(lt: IdOrder, a: seq<Row>, b: seq<Row>)
    requires StrictTotal(lt) && NewestFirst(lt, a) && NewestFirst(lt, b)
    requires forall x :: x in a <==> x in b
    ensures a == b
    decreases |a|
  {
    if a == [] {
    } else {
      assert a[0] in b;
    }
    if b == [] {
    } else {
      assert b[0] in a;
    }
    if a == [] {
    } else {
      SameNewest(lt, a, b);
      forall x ensures x in a[1..] <==> x in b[1..] {
        TailMembers(lt, a, x);
        TailMembers(lt, b, x);
      }
      ListingIsUnique(lt, a[1..], b[1..]);
    }
  }

  lemma TailMembers(lt: IdOrder, a: seq<Row>, x: Row)
    requires StrictTotal(lt) && NewestFirst(lt, a) && a != []
    ensures x in a[1..] <==> x in a && x != a[0]
  {
    if x in a[1..] {
      var i :| 0 <= i < |a[1..]| && a[1..][i] == x;
      assert Newer(lt, a[0], a[i + 1]);
    }
  }

  /** The complete listing of the rows that match, newest first. */
  function Listing(lt: IdOrder, table: seq<Row>, where: Row -> bool): seq<Row> {
    SortNewestFirst(lt, Select(lt, table, where, None))
  }

  /** The rows of a listing below the row at position `n - 1` are exactly those from position `n` on. */
  lemma BelowIsRest(lt: IdOrder, all: seq<Row>, n: nat, x: Row)
    requires StrictTotal(lt) && NewestFirst(lt, all) && n <= |all|
    ensures var cursor := CursorAfter(all, n);
      x in all[n..] <==> x in all && BelowCursor(lt, x, cursor)
  {
    if x in all {
      var i :| 0 <= i < |all| && all[i] == x;
      if n > 0 {
        if i >= n {
          assert Newer(lt, all[n - 1], all[i]);
          assert all[n..][i - n] == x;
        } else if i < n - 1 {
          assert Newer(lt, all[i], all[n - 1]);
        }
        if x in all[n..] {
          var j :| 0 <= j < |all[n..]| && all[n..][j] == x;
          assert Newer(lt, all[n - 1], all[n + j]);
        }
      }
    }
  }

  /** The cursor behind the first `n` rows. */
  function CursorAfter(all: seq<Row>, n: nat): Option<Cursor>
    requires n <= |all|
  {
    if n == 0 then None else Some(Cursor(all[n - 1].createdAt, all[n - 1].id))
  }

  /** Below the cursor, the table of this request holds the same matching rows as the first table did. */
  ghost predicate SameBelow(lt: IdOrder, first: seq<Row>, table: seq<Row>, where: Row -> bool, cursor: Option<Cursor>) {
    forall x :: where(x) && BelowCursor(lt, x, cursor) ==> (x in first <==> x in table)
  }

  /** What a page query returns when it continues after `n` rows of the first listing. */
  lemma PageContinues(lt: IdOrder, first: seq<Row>, table: seq<Row>, where: Row -> bool, n: nat, take: nat)
    requires StrictTotal(lt) && DistinctIds(first) && DistinctIds(table)
    requires n <= |Listing(lt, first, where)|
    requires SameBelow(lt, first, table, where, CursorAfter(Listing(lt, first, where), n))
    ensures var all := Listing(lt, first, where);
      FindPage(lt, table, where, CursorAfter(all, n), take) ==
        if |all| - n > take then all[n..n + take] else all[n..]
  {
    var all := Listing(lt, first, where);
    var cursor := CursorAfter(all, n);
    SelectProps(lt, first, where, None);
    SortProps(lt, Select(lt, first, where, None));
    SelectProps(lt, table, where, cursor);
    SortProps(lt, Select(lt, table, where, cursor));
    var sorted := SortNewestFirst(lt, Select(lt, table, where, cursor));
    forall x ensures x in sorted <==> x in all[n..] {
      BelowIsRest(lt, all, n, x);
    }
    ListingIsUnique(lt, sorted, all[n..]);
  }

  // ----- the walk -----

  /** A client following `nextCursor`: the rows seen, the cursor to send next, and whether the walk has ended. */
  datatype Walk = Walk(seen: seq<Row>, cursor: Option<string>, ended: bool)

  /** One request against the table as it is then; a cursor that does not decode ends the walk. */
  function Request(codec: Codec, lt: IdOrder, table: seq<Row>, where: Row -> bool, limit: nat, w: Walk): Walk {
    if w.ended then w
    else
      var cursor := if w.cursor.None? then None else codec.decode(w.cursor.value);
      if w.cursor.Some? && cursor.None? then w.(ended := true)
      else
        var page := ListPage(codec, lt, table, where, cursor, limit);
        Walk(w.seen + page.items, page.nextCursor, page.nextCursor.None?)
  }

  /** The walk after `n` requests; request `k` meets the table `tables(k)`. */
  function After(codec: Codec, lt: IdOrder, tables: nat -> seq<Row>, where: Row -> bool, limit: nat, n: nat): Walk {
    if n == 0 then Walk([], None, false)
    else Request(codec, lt, tables(n - 1), where, limit, After(codec, lt, tables, where, limit, n - 1))
  }

  /** A cursor that does not decode shows nothing more and ends the walk. */
  lemma RefusedCursorEndsWalk(codec: Codec, lt: IdOrder, table: seq<Row>, where: Row -> bool, limit: nat, w: Walk)
    requires w.cursor.Some? && codec.decode(w.cursor.value).None?
    ensures var v := Request(codec, lt, table, where, limit, w); v.ended && v.seen == w.seen
  {
  }

  /** Between requests, rows may appear or vanish above the position reached, not below it. */
  ghost predicate Undisturbed(codec: Codec, lt: IdOrder, tables: nat -> seq<Row>, where: Row -> bool, limit: nat) {
    && (forall k :: DistinctIds(tables(k)))
    && (forall k, x :: x in tables(k) ==> ValidId(x.id))
    && forall k: nat :: UndisturbedAt(codec, lt, tables, where, limit, k)
  }

  ghost predicate UndisturbedAt(
    codec: Codec, lt: IdOrder, tables: nat -> seq<Row>, where: Row -> bool, limit: nat, k: nat)
  {
    var n := |After(codec, lt, tables, where, limit, k).seen|;
    n <= |Listing(lt, tables(0), where)| ==>
      SameBelow(lt, tables(0), tables(k), where, CursorAfter(Listing(lt, tables(0), where), n))
  }

  function Min(a: int, b: int): int {
    if a < b then a else b
  }

  /** The client has seen the first `seen` rows of the listing, and its cursor sits right behind them. */
  ghost predicate OnTrack(codec: Codec, all: seq<Row>, w: Walk, seen: int) {
    && 0 <= seen <= |all| && w.seen == all[..seen]
    && (!w.ended ==>
          if seen == 0 then w.cursor.None?
          else w.cursor.Some? && codec.decode(w.cursor.value) == CursorAfter(all, seen))
  }

  /** The page behind the first `n` rows of the listing. */
  lemma PageOf(codec: Codec, lt: IdOrder, first: seq<Row>, table: seq<Row>, where: Row -> bool, n: nat, limit: nat)
    requires StrictTotal(lt) && DistinctIds(first) && DistinctIds(table) && limit >= 1
    requires n <= |Listing(lt, first, where)|
    requires SameBelow(lt, first, table, where, CursorAfter(Listing(lt, first, where), n))
    ensures var all := Listing(lt, first, where);
      var page := ListPage(codec, lt, table, where, CursorAfter(all, n), limit);
      var end := Min(n + limit, |all|);
      && page.items == all[n..end] && (page.hasNext <==> end < |all|)
      && (end == |all| ==> page.nextCursor.None?)
      && (end < |all| ==> page.nextCursor == Some(codec.encode(CursorAfter(all, end).value)))
  {
    PageContinues(lt, first, table, where, n, limit + 1);
    CutPage(codec, Listing(lt, first, where), n, limit);
  }

  lemma CutPage(codec: Codec, all: seq<Row>, n: nat, limit: nat)
    requires n <= |all| && limit >= 1
    ensures var page := PageFrom(codec, if |all| - n > limit + 1 then all[n..n + (limit + 1)] else all[n..], limit);
      var end := Min(n + limit, |all|);
      && page.items == all[n..end] && (page.hasNext <==> end < |all|)
      && (end == |all| ==> page.nextCursor.None?)
      && (end < |all| ==> page.nextCursor == Some(codec.encode(CursorAfter(all, end).value)))
  {
    var rows := if |all| - n > limit + 1 then all[n..n + (limit + 1)] else all[n..];
    if |all| - n > limit {
      assert rows[..limit] == all[n..n + limit];
    }
  }

  lemma RequestStep(
    codec: Codec, lt: IdOrder, first: seq<Row>, table: seq<Row>, where: Row -> bool, limit: nat, w: Walk, n: nat)
    requires Faithful(codec) && StrictTotal(lt) && DistinctIds(first) && DistinctIds(table) && limit >= 1
    requires forall x :: x in Listing(lt, first, where) ==> ValidId(x.id)
    requires OnTrack(codec, Listing(lt, first, where), w, n) && !w.ended
    requires SameBelow(lt, first, table, where, CursorAfter(Listing(lt, first, where), n))
    ensures var all, v := Listing(lt, first, where), Request(codec, lt, table, where, limit, w);
      var end := Min(n + limit, |all|);
      OnTrack(codec, all, v, end) && (v.ended <==> end == |all|)
  {
    var all := Listing(lt, first, where);
    var end := Min(n + limit, |all|);
    PageOf(codec, lt, first, table, where, n, limit);
    StepOnTrack(codec, all, w, ListPage(codec, lt, table, where, CursorAfter(all, n), limit), n, end);
  }

  lemma StepOnTrack(codec: Codec, all: seq<Row>, w: Walk, page: Page, n: nat, end: nat)
    requires Faithful(codec) && OnTrack(codec, all, w, n) && n <= end <= |all| && (end < |all| ==> n < end)
    requires forall x :: x in all ==> ValidId(x.id)
    requires page.items == all[n..end] && (end == |all| ==> page.nextCursor.None?)
    requires end < |all| ==> page.nextCursor == Some(codec.encode(CursorAfter(all, end).value))
    ensures var v := Walk(w.seen + page.items, page.nextCursor, page.nextCursor.None?);
      OnTrack(codec, all, v, end) && (v.ended <==> end == |all|)
  {
    assert all[..n] + all[n..end] == all[..end];
    if end < |all| {
      assert all[end - 1] in all;
    }
  }

  /** How many of `total` rows `n` pages of `limit` rows show. */
  function Shown(n: nat, limit: nat, total: nat): (r: nat)
    ensures r <= total
  {
    if n == 0 then 0 else Min(Shown(n - 1, limit, total) + limit, total)
  }

  lemma {:induction false} ShownIs(n: nat, limit: nat, total: nat)
    ensures Shown(n, limit, total) == Min(n * limit, total)
  {
    if n == 0 {
    } else {
      ShownIs(n - 1, limit, total);
      assert n * limit == (n - 1) * limit + limit;
      assert (n - 1) * limit >= 0;
    }
  }

  /**
   * After `n` requests the client has seen exactly the first `n * limit` rows of the listing it started from,
   * in order and without repetition, and the walk has ended exactly when that is all of them.
   */
  lemma WalkSeesListing(
    codec: Codec, lt: IdOrder, tables: nat -> seq<Row>, where: Row -> bool, limit: nat, n: nat)
    requires Faithful(codec) && StrictTotal(lt) && limit >= 1 && Undisturbed(codec, lt, tables, where, limit)
    ensures var all, w := Listing(lt, tables(0), where), After(codec, lt, tables, where, limit, n);
      var seen := Min(n * limit, |all|);
      && 0 <= seen <= |all| && w.seen == all[..seen]
      && (w.ended <==> n >= 1 && seen == |all|)
  {
    var all := Listing(lt, tables(0), where);
    var walks := (k: nat) => After(codec, lt, tables, where, limit, k);
    forall k: nat ensures AdvancesAt(codec, all, limit, walks, k) {
      AdvanceOnce(codec, lt, tables, where, limit, k);
    }
    StaysOnTrack(codec, all, limit, walks, n);
    ShownIs(n, limit, |all|);
  }

  /** One request moves a client that is on track by one page, or finds it already at the end. */
  ghost predicate Advances(codec: Codec, all: seq<Row>, limit: nat, w: Walk, v: Walk) {
    if w.ended then v == w
    else forall seen :: OnTrack(codec, all, w, seen) ==>
      var end := Min(seen + limit, |all|);
      OnTrack(codec, all, v, end) && (v.ended <==> end == |all|)
  }

  ghost predicate AdvancesAt(codec: Codec, all: seq<Row>, limit: nat, walks: nat -> Walk, k: nat) {
    Advances(codec, all, limit, walks(k), walks(k + 1))
  }

  lemma {:induction false} StaysOnTrack(codec: Codec, all: seq<Row>, limit: nat, walks: nat -> Walk, n: nat)
    requires walks(0) == Walk([], None, false) && limit >= 1
    requires forall k: nat :: AdvancesAt(codec, all, limit, walks, k)
    ensures var seen := Shown(n, limit, |all|);
      OnTrack(codec, all, walks(n), seen) && (walks(n).ended <==> n >= 1 && seen == |all|)
  {
    if n == 0 {
    } else {
      StaysOnTrack(codec, all, limit, walks, n - 1);
      assert AdvancesAt(codec, all, limit, walks, n - 1);
    }
  }

  lemma AdvanceOnce(codec: Codec, lt: IdOrder, tables: nat -> seq<Row>, where: Row -> bool, limit: nat, k: nat)
    requires Faithful(codec) && StrictTotal(lt) && limit >= 1 && Undisturbed(codec, lt, tables, where, limit)
    ensures Advances(codec, Listing(lt, tables(0), where), limit,
      After(codec, lt, tables, where, limit, k), After(codec, lt, tables, where, limit, k + 1))
  {
    var all := Listing(lt, tables(0), where);
    var w := After(codec, lt, tables, where, limit, k);
    if !w.ended {
      forall seen | OnTrack(codec, all, w, seen)
        ensures var v, end := After(codec, lt, tables, where, limit, k + 1), Min(seen + limit, |all|);
          OnTrack(codec, all, v, end) && (v.ended <==> end == |all|)
      {
        NextRequest(codec, lt, tables, where, limit, k, seen);
      }
    }
  }

  lemma NextRequest(
    codec: Codec, lt: IdOrder, tables: nat -> seq<Row>, where: Row -> bool, limit: nat, k: nat, seen: nat)
    requires Faithful(codec) && StrictTotal(lt) && limit >= 1 && Undisturbed(codec, lt, tables, where, limit)
    requires OnTrack(codec, Listing(lt, tables(0), where), After(codec, lt, tables, where, limit, k), seen)
    requires !After(codec, lt, tables, where, limit, k).ended
    ensures var all, v := Listing(lt, tables(0), where), After(codec, lt, tables, where, limit, k + 1);
      var end := Min(seen + limit, |all|);
      OnTrack(codec, all, v, end) && (v.ended <==> end == |all|)
  {
    var w := After(codec, lt, tables, where, limit, k);
    assert |w.seen| == seen;
    assert UndisturbedAt(codec, lt, tables, where, limit, k);
    assert SameBelow(lt, tables(0), tables(k), where, CursorAfter(Listing(lt, tables(0), where), seen));
    ListedIsValid(codec, lt, tables, where, limit);
    RequestStep(codec, lt, tables(0), tables(k), where, limit, w, seen);
  }

  lemma ListedIsValid(codec: Codec, lt: IdOrder, tables: nat -> seq<Row>, where: Row -> bool, limit: nat)
    requires StrictTotal(lt) && Undisturbed(codec, lt, tables, where, limit)
    ensures forall x :: x in Listing(lt, tables(0), where) ==> ValidId(x.id)
  {
    ListingProps(lt, tables(0), where);
  }

  lemma ListingProps(lt: IdOrder, table: seq<Row>, where: Row -> bool)
    requires StrictTotal(lt) && DistinctIds(table)
    ensures NewestFirst(lt, Listing(lt, table, where))
    ensures forall x :: x in Listing(lt, table, where) <==> x in table && where(x)
  {
    SelectProps(lt, table, where, None);
    SortProps(lt, Select(lt, table, where, None));
  }

  /**
   * With the service's own cursors the walk ends, and by then it has shown every matching row exactly once,
   * newest first.
   */
  lemma WalkIsComplete(rt: Runtime, lt: IdOrder, tables: nat -> seq<Row>, where: Row -> bool, limit: nat)
    requires Sound(rt) && StrictTotal(lt) && limit >= 1 && Undisturbed(CodecOf(rt), lt, tables, where, limit)
    ensures var w := After(CodecOf(rt), lt, tables, where, limit, |Listing(lt, tables(0), where)| + 1);
      && w.ended && NewestFirst(lt, w.seen)
      && (forall x :: x in w.seen <==> x in tables(0) && where(x))
  {
    CodecIsFaithful(rt);
    FaithfulWalkIsComplete(CodecOf(rt), lt, tables, where, limit);
  }

  lemma FaithfulWalkIsComplete(codec: Codec, lt: IdOrder, tables: nat -> seq<Row>, where: Row -> bool, limit: nat)
    requires Faithful(codec) && StrictTotal(lt) && limit >= 1 && Undisturbed(codec, lt, tables, where, limit)
    ensures var w := After(codec, lt, tables, where, limit, |Listing(lt, tables(0), where)| + 1);
      && w.ended && NewestFirst(lt, w.seen)
      && (forall x :: x in w.seen <==> x in tables(0) && where(x))
  {
    var all := Listing(lt, tables(0), where);
    var n := |all| + 1;
    WalkSeesListing(codec, lt, tables, where, limit, n);
    assert n * limit >= n by { AtLeast(n, limit); }
    assert all[..|all|] == all;
    ListingProps(lt, tables(0), where);
  }

  lemma AtLeast(n: nat, limit: nat)
    requires limit >= 1
    ensures n * limit >= n
  {
  }
}
