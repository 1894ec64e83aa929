/**
 * The laws that the theorems ask of library functions can be met: for each set of laws, one value that meets it.
 * The values are plain codes, not the real algorithms; they only show that no theorem holds for want of a case.
 */
module Laws {
  import opened Dates
  import opened Text
  import opened Wrappers
  import AbiReader
  import AuditArchive
  import AuditChain
  import AuditCursor
  import AuditPages
  import FieldEncryption

  // ----- codes that can be read off the front of a text -----

  function Quote(s: string): (r: string)
    ensures |r| == 2 * |s| + 1
  {
    if s == "" then "." else ['\'', s[0]] + Quote(s[1..])
  }

  lemma {:induction false} QuotePrefix(s: string, t: string, x: string, y: string)
    requires Quote(s) + x == Quote(t) + y
    ensures s == t && x == y
  {
    var a, b := Quote(s) + x, Quote(t) + y;
    assert a[0] == b[0];
    if s == "" {
      assert a[1..] == x && b[1..] == y;
    } else {
      assert a[1] == b[1];
      assert a[2..] == Quote(s[1..]) + x && b[2..] == Quote(t[1..]) + y;
      QuotePrefix(s[1..], t[1..], x, y);
    }
  }

  function Mark(c: char, s: string): string {
    [c] + s
  }

  lemma Peel(c: char, d: char, s: string, t: string, x: string, y: string)
    requires Mark(c, s) + x == Mark(d, t) + y
    ensures c == d && s + x == t + y
  {
    var a, b := Mark(c, s) + x, Mark(d, t) + y;
    assert a[0] == c && b[0] == d;
    assert a[1..] == s + x && b[1..] == t + y;
  }

  lemma Regroup(s: string, t: string, x: string)
    ensures (s + t) + x == s + (t + x)
  {
  }

  function Unary(n: nat): (r: string)
    ensures |r| == n + 1
  {
    if n == 0 then "b" else "a" + Unary(n - 1)
  }

  lemma {:induction false} UnaryPrefix(m: nat, n: nat, x: string, y: string)
    requires Unary(m) + x == Unary(n) + y
    ensures m == n && x == y
  {
    var a, b := Unary(m) + x, Unary(n) + y;
    assert a[0] == b[0];
    if m == 0 {
      assert a[1..] == x && b[1..] == y;
    } else {
      assert a[1..] == Unary(m - 1) + x && b[1..] == Unary(n - 1) + y;
      UnaryPrefix(m - 1, n - 1, x, y);
    }
  }

  // ----- ciphers -----

  function HexOf(t: string): string {
    if t == "" then "" else Unary(t[0] as int) + HexOf(t[1..])
  }

  lemma {:induction false} UnaryIsHex(n: nat)
    ensures FieldEncryption.IsHexText(Unary(n))
  {
    if n == 0 {
    } else {
      UnaryIsHex(n - 1);
    }
  }

  lemma {:induction false} HexOfShape(t: string)
    ensures FieldEncryption.IsHexText(HexOf(t)) && |t| <= |HexOf(t)|
  {
    if t == "" {
    } else {
      UnaryIsHex(t[0] as int);
      HexOfShape(t[1..]);
    }
  }

  lemma {:induction false} HexOfInjective(s: string, t: string)
    requires HexOf(s) == HexOf(t)
    ensures s == t
  {
    if s == "" || t == "" {
    } else {
      UnaryPrefix(s[0] as int, t[0] as int, HexOf(s[1..]), HexOf(t[1..]));
      HexOfInjective(s[1..], t[1..]);
      assert s == [s[0]] + s[1..] && t == [t[0]] + t[1..];
    }
  }

  ghost function Unseal(e: FieldEncryption.Envelope): Option<string> {
    if exists t :: HexOf(t) == e.ciphertext then
      var t :| HexOf(t) == e.ciphertext;
      Some(t)
    else None
  }

  // ----- JSON -----

  function Show(j: FieldEncryption.Json): string
    decreases j, 2, 0
  {
    Mark(ShowMark(j), ShowRest(j))
  }

  function ShowItems(j: FieldEncryption.Json, i: nat): string
    requires j.Arr? && i <= |j.items|
    decreases j, 0, |j.items| - i
  {
    if i == |j.items| then Mark(']', "") else Mark(',', Show(j.items[i]) + ShowItems(j, i + 1))
  }

  function ShowEntries(j: FieldEncryption.Json, i: nat): string
    requires j.Obj? && i <= |j.entries|
    decreases j, 0, |j.entries| - i
  {
    if i == |j.entries| then Mark('}', "")
    else Mark(',', Quote(j.entries[i].key) + (Show(j.entries[i].value) + ShowEntries(j, i + 1)))
  }

  function ShowMark(j: FieldEncryption.Json): char {
    match j
    case Null => 'n'
    case Bool(b) => if b then 't' else 'f'
    case Num(_) => '#'
    case Str(_) => '$'
    case Arr(_) => '['
    case Obj(_) => '{'
  }

  function ShowRest(j: FieldEncryption.Json): string
    decreases j, 1
  {
    match j
    case Null => ""
    case Bool(_) => ""
    case Num(n) => Quote(n)
    case Str(s) => Quote(s)
    case Arr(_) => ShowItems(j, 0)
    case Obj(_) => ShowEntries(j, 0)
  }

  lemma {:induction false} ShowPrefix(j: FieldEncryption.Json, k: FieldEncryption.Json, x: string, y: string)
    requires Show(j) + x == Show(k) + y
    ensures j == k && x == y
    decreases j, 2, 0
  {
    Peel(ShowMark(j), ShowMark(k), ShowRest(j), ShowRest(k), x, y);
    match j {
      case Null => assert ShowRest(j) + x == x && ShowRest(k) + y == y;
      case Bool(_) => assert ShowRest(j) + x == x && ShowRest(k) + y == y;
      case Num(n) => QuotePrefix(n, k.number, x, y);
      case Str(s) => QuotePrefix(s, k.text, x, y);
      case Arr(items) =>
        ItemsPrefix(j, k, 0, x, y);
        assert items == items[0..] && k.items == k.items[0..];
      case Obj(entries) =>
        EntriesPrefix(j, k, 0, x, y);
        assert entries == entries[0..] && k.entries == k.entries[0..];
    }
  }

  lemma {:induction false} ItemsPrefix(
    j: FieldEncryption.Json, k: FieldEncryption.Json, i: nat, x: string, y: string)
    requires j.Arr? && k.Arr? && i <= |j.items| && i <= |k.items|
    requires ShowItems(j, i) + x == ShowItems(k, i) + y
    ensures j.items[i..] == k.items[i..] && x == y
    decreases j, 0, |j.items| - i
  {
    var n, m := |j.items|, |k.items|;
    var s := if i == n then "" else Show(j.items[i]) + ShowItems(j, i + 1);
    var t := if i == m then "" else Show(k.items[i]) + ShowItems(k, i + 1);
    Peel(if i == n then ']' else ',', if i == m then ']' else ',', s, t, x, y);
    if i == n {
      assert s + x == x && t + y == y;
    } else {
      Regroup(Show(j.items[i]), ShowItems(j, i + 1), x);
      Regroup(Show(k.items[i]), ShowItems(k, i + 1), y);
      ShowPrefix(j.items[i], k.items[i], ShowItems(j, i + 1) + x, ShowItems(k, i + 1) + y);
      ItemsPrefix(j, k, i + 1, x, y);
      assert j.items[i..] == [j.items[i]] + j.items[i + 1..] && k.items[i..] == [k.items[i]] + k.items[i + 1..];
    }
  }

  lemma {:induction false} EntriesPrefix(
    j: FieldEncryption.Json, k: FieldEncryption.Json, i: nat, x: string, y: string)
    requires j.Obj? && k.Obj? && i <= |j.entries| && i <= |k.entries|
    requires ShowEntries(j, i) + x == ShowEntries(k, i) + y
    ensures j.entries[i..] == k.entries[i..] && x == y
    decreases j, 0, |j.entries| - i
  {
    var n, m := |j.entries|, |k.entries|;
    var s := if i == n then "" else Quote(j.entries[i].key) + (Show(j.entries[i].value) + ShowEntries(j, i + 1));
    var t := if i == m then "" else Quote(k.entries[i].key) + (Show(k.entries[i].value) + ShowEntries(k, i + 1));
    Peel(if i == n then '}' else ',', if i == m then '}' else ',', s, t, x, y);
    if i == n {
      assert s + x == x && t + y == y;
    } else {
      EntryPrefix(j.entries[i], k.entries[i], ShowEntries(j, i + 1), ShowEntries(k, i + 1), x, y);
      ShowPrefix(j.entries[i].value, k.entries[i].value, ShowEntries(j, i + 1) + x, ShowEntries(k, i + 1) + y);
      EntriesPrefix(j, k, i + 1, x, y);
      assert j.entries[i..] == [j.entries[i]] + j.entries[i + 1..];
      assert k.entries[i..] == [k.entries[i]] + k.entries[i + 1..];
    }
  }

  lemma EntryPrefix(e: FieldEncryption.Entry, f: FieldEncryption.Entry, s: string, t: string, x: string, y: string)
    requires Quote(e.key) + (Show(e.value) + s) + x == Quote(f.key) + (Show(f.value) + t) + y
    ensures e.key == f.key && Show(e.value) + (s + x) == Show(f.value) + (t + y)
  {
    Regroup(Quote(e.key), Show(e.value) + s, x);
    Regroup(Quote(f.key), Show(f.value) + t, y);
    QuotePrefix(e.key, f.key, (Show(e.value) + s) + x, (Show(f.value) + t) + y);
    Regroup(Show(e.value), s, x);
    Regroup(Show(f.value), t, y);
  }

  ghost function Parse(t: string): Option<FieldEncryption.Json> {
    if exists j :: Show(j) == t then
      var j :| Show(j) == t;
      Some(j)
    else None
  }

  lemma ParseShow(j: FieldEncryption.Json)
    ensures Parse(Show(j)) == Some(j)
  {
    var k := Parse(Show(j)).value;
    assert Show(j) + "" == Show(k) + "";
    ShowPrefix(j, k, "", "");
  }

  /** Ciphers and JSON that meet both sets of laws of the field transform. */
  lemma EncryptionLawsCanBeMet() returns (c: FieldEncryption.Crypto)
    ensures FieldEncryption.CipherLaws(c) && FieldEncryption.JsonLaws(c)
  {
    c := FieldEncryption.Crypto((_, t) => FieldEncryption.Envelope("", "", HexOf(t)), Unseal, _ => true, Show, Parse, _ => None);
    forall p, t ensures c.unseal(c.seal(p, t)) == Some(t) && FieldEncryption.HexEnvelope(c.seal(p, t)) {
      HexOfShape(t);
      HexOfInjective(t, Unseal(c.seal(p, t)).value);
    }
    forall e | c.unseal(e).Some? ensures |c.unseal(e).value| <= |e.ciphertext| {
      HexOfShape(c.unseal(e).value);
    }
    forall j ensures c.parse(c.stringify(j)) == Some(j) {
      ParseShow(j);
    }
    forall t | c.parse(t).Some? && c.parse(t).value.Str? ensures |c.parse(t).value.text| < |t| {
      assert t == Show(Parse(t).value) == Mark('$', Quote(Parse(t).value.text));
    }
  }

  // ----- archived rows -----

  function OptionText(o: Option<string>): string {
    match o case None => "" case Some(s) => "+" + s
  }

  function TimeText(t: Time): string {
    if t < 0 then "-" + Unary(-t) else "+" + Unary(t)
  }

  function Fields(r: AuditChain.Row): (f: seq<string>)
    ensures |f| == 15
  {
    [r.id, r.organizationId, OptionText(r.userId), r.action, r.entity, OptionText(r.entityId),
     OptionText(r.oldValue), OptionText(r.newValue), OptionText(r.ipAddress), OptionText(r.device),
     OptionText(r.requestId), OptionText(r.sourceEventId), OptionText(r.previousHash), OptionText(r.hash),
     TimeText(r.createdAt)]
  }

  lemma OptionTextInjective(a: Option<string>, b: Option<string>)
    requires OptionText(a) == OptionText(b)
    ensures a == b
  {
    if a.Some? && b.Some? {
      assert OptionText(a)[1..] == a.value && OptionText(b)[1..] == b.value;
    }
  }

  lemma TimeTextInjective(a: Time, b: Time)
    requires TimeText(a) == TimeText(b)
    ensures a == b
  {
    assert TimeText(a)[0] == TimeText(b)[0] && |TimeText(a)| == |TimeText(b)|;
  }

  lemma FieldsInjective(a: AuditChain.Row, b: AuditChain.Row)
    requires Fields(a) == Fields(b)
    ensures a == b
  {
    var f, g := Fields(a), Fields(b);
    assert f[0] == g[0] && f[1] == g[1] && f[3] == g[3] && f[4] == g[4];
    assert f[2] == g[2] && f[5] == g[5] && f[6] == g[6] && f[7] == g[7] && f[8] == g[8] && f[9] == g[9];
    assert f[10] == g[10] && f[11] == g[11] && f[12] == g[12] && f[13] == g[13] && f[14] == g[14];
    OptionTextInjective(a.userId, b.userId);
    OptionTextInjective(a.entityId, b.entityId);
    OptionTextInjective(a.oldValue, b.oldValue);
    OptionTextInjective(a.newValue, b.newValue);
    OptionTextInjective(a.ipAddress, b.ipAddress);
    OptionTextInjective(a.device, b.device);
    OptionTextInjective(a.requestId, b.requestId);
    OptionTextInjective(a.sourceEventId, b.sourceEventId);
    OptionTextInjective(a.previousHash, b.previousHash);
    OptionTextInjective(a.hash, b.hash);
    TimeTextInjective(a.createdAt, b.createdAt);
  }

  function QuoteAll(f: seq<string>): string {
    if f == [] then "" else Quote(f[0]) + QuoteAll(f[1..])
  }

  lemma {:induction false} QuoteAllPrefix(f: seq<string>, g: seq<string>, x: string, y: string)
    requires |f| == |g| && QuoteAll(f) + x == QuoteAll(g) + y
    ensures f == g && x == y
  {
    if f == [] {
      assert QuoteAll(f) + x == x && QuoteAll(g) + y == y;
    } else {
      assert QuoteAll(f) + x == Quote(f[0]) + (QuoteAll(f[1..]) + x);
      assert QuoteAll(g) + y == Quote(g[0]) + (QuoteAll(g[1..]) + y);
      QuotePrefix(f[0], g[0], QuoteAll(f[1..]) + x, QuoteAll(g[1..]) + y);
      QuoteAllPrefix(f[1..], g[1..], x, y);
      assert f == [f[0]] + f[1..] && g == [g[0]] + g[1..];
    }
  }

  function RowsText(rows: seq<AuditChain.Row>): string {
    if rows == [] then "" else "(" + (QuoteAll(Fields(rows[0])) + RowsText(rows[1..]))
  }

  lemma {:induction false} RowsTextInjective(a: seq<AuditChain.Row>, b: seq<AuditChain.Row>)
    requires RowsText(a) == RowsText(b)
    ensures a == b
  {
    if a == [] || b == [] {
    } else {
      var s, t := RowsText(a), RowsText(b);
      assert s[1..] == QuoteAll(Fields(a[0])) + RowsText(a[1..]);
      assert t[1..] == QuoteAll(Fields(b[0])) + RowsText(b[1..]);
      QuoteAllPrefix(Fields(a[0]), Fields(b[0]), RowsText(a[1..]), RowsText(b[1..]));
      FieldsInjective(a[0], b[0]);
      RowsTextInjective(a[1..], b[1..]);
      assert a == [a[0]] + a[1..] && b == [b[0]] + b[1..];
    }
  }

  ghost function ParseRows(t: string): Option<seq<AuditChain.Row>> {
    if exists rows :: RowsText(rows) == t then
      var rows :| RowsText(rows) == t;
      Some(rows)
    else None
  }

  /** Compression and JSON that lose nothing, with any digest whatever. */
  lemma ArchiveLawsCanBeMet(sha256: string -> string) returns (c: AuditArchive.Library)
    ensures AuditArchive.Lossless(c) && c.sha256 == sha256
  {
    c := AuditArchive.Library(sha256, t => t, t => Some(t), RowsText, ParseRows);
    forall rows ensures c.parse(c.stringify(rows)) == Some(rows) {
      RowsTextInjective(rows, ParseRows(RowsText(rows)).value);
    }
  }

  // ----- cursors -----

  function Pow10(k: nat): (r: nat)
    ensures r >= 1
  {
    if k == 0 then 1 else 10 * Pow10(k - 1)
  }

  function Digits(n: nat, k: nat): (r: string)
    ensures |r| == k
  {
    if k == 0 then "" else Digits(n / 10, k - 1) + ['0' + (n % 10) as char]
  }

  lemma {:induction false} DigitsInjective(m: nat, n: nat, k: nat)
    requires m < Pow10(k) && n < Pow10(k) && Digits(m, k) == Digits(n, k)
    ensures m == n
  {
    if k == 0 {
    } else {
      var s, t := Digits(m, k), Digits(n, k);
      assert s[..k - 1] == Digits(m / 10, k - 1) && t[..k - 1] == Digits(n / 10, k - 1);
      assert s[k - 1] == t[k - 1];
      DigitsInjective(m / 10, n / 10, k - 1);
    }
  }

  lemma {:induction false} DigitsAreDigits(n: nat, k: nat)
    ensures forall i :: 0 <= i < k ==> '0' <= Digits(n, k)[i] <= '9'
  {
    if k == 0 {
    } else {
      DigitsAreDigits(n / 10, k - 1);
    }
  }

  /** Seventeen digits for every time in range. */
  function DateDigits(t: Time): (r: string)
    ensures |r| == 17
  {
    Digits(t + 8_640_000_000_000_000, 17)
  }

  lemma DateDigitsInjective(s: Time, t: Time)
    requires DateDigits(s) == DateDigits(t)
    ensures s == t
  {
    assert Pow10(2) == 100 && Pow10(4) == 10_000;
    assert Pow10(6) == 1_000_000 && Pow10(8) == 100_000_000;
    assert Pow10(10) == 10_000_000_000 && Pow10(12) == 1_000_000_000_000;
    assert Pow10(14) == 100_000_000_000_000 && Pow10(16) == 10_000_000_000_000_000;
    DigitsInjective(s + 8_640_000_000_000_000, t + 8_640_000_000_000_000, 17);
  }

  ghost function FromDigits(s: string): Option<Time> {
    if exists t: Time :: DateDigits(t) == s then
      var t: Time :| DateDigits(t) == s;
      Some(t)
    else None
  }

  function ParseCursor(s: string): Option<AuditCursor.Parsed> {
    if |s| < 47 then None else Some(AuditCursor.Parsed(1, s[20..37], s[45..|s| - 2]))
  }

  lemma ParseCursorJson(iso: string, id: string)
    requires |iso| == 17
    ensures ParseCursor(AuditCursor.CursorJson(iso, id)) == Some(AuditCursor.Parsed(1, iso, id))
  {
    var s := AuditCursor.CursorJson(iso, id);
    assert |s| == 47 + |id|;
    assert s[20..37] == iso;
    assert s[45..|s| - 2] == id;
  }

  function FromAscii(b: Bytes): (r: string)
    ensures |r| == |b| && forall i :: 0 <= i < |b| ==> r[i] == b[i] as char
  {
    seq(|b|, i requires 0 <= i < |b| => b[i] as char)
  }

  lemma AsciiBack(s: string)
    requires AuditCursor.IsAscii(s)
    ensures FromAscii(AuditCursor.AsciiBytes(s)) == s
  {
  }

  /** Dates, JSON and UTF-8 that meet the laws of the cursor. */
  lemma CursorLawsCanBeMet() returns (rt: AuditCursor.Runtime)
    ensures AuditCursor.Sound(rt)
  {
    rt := AuditCursor.Runtime(DateDigits, FromDigits, ParseCursor, FromAscii);
    forall t: Time ensures AuditCursor.DateText(rt.iso(t)) && rt.fromIso(rt.iso(t)) == Some(t) {
      DigitsAreDigits(t + 8_640_000_000_000_000, 17);
      DateDigitsInjective(t, FromDigits(DateDigits(t)).value);
    }
    forall t: Time, id | AuditCursor.ValidId(id)
      ensures rt.parse(AuditCursor.CursorJson(rt.iso(t), id)) == Some(AuditCursor.Parsed(1, rt.iso(t), id))
    {
      ParseCursorJson(DateDigits(t), id);
    }
    forall s | AuditCursor.IsAscii(s) ensures rt.utf8(AuditCursor.AsciiBytes(s)) == s {
      AsciiBack(s);
    }
  }

  /** The order of ids by character codes is one the listing may use. */
  lemma IdOrderCanBeMet()
    ensures AuditPages.StrictTotal(AuditArchive.Below)
  {
    forall a, b, c
      ensures !AuditArchive.Below(a, a)
      ensures AuditArchive.Below(a, b) && AuditArchive.Below(b, c) ==> AuditArchive.Below(a, c)
      ensures a != b ==> AuditArchive.Below(a, b) || AuditArchive.Below(b, a)
    {
      AuditArchive.BelowIsOrder(a, b, c);
    }
  }

  // ----- UTF-8 -----

  function Wide(s: string): Bytes {
    if s == "" then [] else AbiReader.ToBytes(s[0] as int, 3) + Wide(s[1..])
  }

  lemma {:induction false} WideInjective(s: string, t: string)
    requires Wide(s) == Wide(t)
    ensures s == t
  {
    if s == "" || t == "" {
    } else {
      var a, b := Wide(s), Wide(t);
      assert a[..3] == AbiReader.ToBytes(s[0] as int, 3) && b[..3] == AbiReader.ToBytes(t[0] as int, 3);
      assert a[3..] == Wide(s[1..]) && b[3..] == Wide(t[1..]);
      WideChar(s[0]);
      WideChar(t[0]);
      WideInjective(s[1..], t[1..]);
      assert s == [s[0]] + s[1..] && t == [t[0]] + t[1..];
    }
  }

  lemma WideChar(c: char)
    ensures AbiReader.BigEndian(AbiReader.ToBytes(c as int, 3)) == c as int
  {
    AbiReader.Pow2Byte(0);
    AbiReader.Pow2Byte(1);
    AbiReader.Pow2Byte(2);
    AbiReader.BytesRoundTrip(c as int, 3);
  }

  ghost function Narrow(b: Bytes): string {
    if exists s :: Wide(s) == b then
      var s :| Wide(s) == b;
      s
    else ""
  }

  /** An encoding of texts as bytes that reads back. */
  lemma Utf8LawCanBeMet() returns (u: AbiReader.Utf8)
    ensures AbiReader.Faithful(u)
  {
    u := AbiReader.Utf8(Wide, Narrow);
    forall s ensures u.decode(u.encode(s)) == s {
      WideInjective(s, Narrow(Wide(s)));
    }
  }
}
