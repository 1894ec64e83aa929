/**
 * Encryption of sensitive fields: the printed envelope, and the recursive transform that encrypts or decrypts
 * the sensitive fields of a JSON tree.
 */
module FieldEncryption {
  import opened Wrappers
  import opened Text

  /** A number is held as the decimal text that prints it. */
  datatype Json =
    | Null
    | Bool(truth: bool)
    | Num(number: string)
    | Str(text: string)
    | Arr(items: seq<Json>)
    | Obj(entries: seq<Entry>)

  datatype Entry = Entry(key: string, value: Json)

  /** Hex texts of the initialization vector, the authentication tag and the ciphertext. */
  datatype Envelope = Envelope(iv: string, authTag: string, ciphertext: string)

  /**
   * AES-256-GCM, JSON and the JSON envelope format. Every encryption draws a fresh vector: `seal` takes the
   * place of the field as well, so that equal texts in different fields may be sealed differently. `numeral`
   * says which texts print a number.
   */
  datatype Crypto = Crypto(
    seal: (seq<nat>, string) -> Envelope,
    unseal: Envelope -> Option<string>,
    numeral: string -> bool,
    stringify: Json -> string,
    parse: string -> Option<Json>,
    jsonEnvelope: string -> Option<Envelope>)

  predicate IsHexText(s: string) {
    forall i :: 0 <= i < |s| ==> '0' <= s[i] <= '9' || 'a' <= s[i] <= 'f' || 'A' <= s[i] <= 'F'
  }

  predicate HexEnvelope(e: Envelope) {
    IsHexText(e.iv) && IsHexText(e.authTag) && IsHexText(e.ciphertext)
  }

  /** What is sealed opens to the same text, and no plaintext is longer than its hex ciphertext. */
  ghost predicate CipherLaws(c: Crypto) {
    && (forall p, t :: c.unseal(c.seal(p, t)) == Some(t) && HexEnvelope(c.seal(p, t)))
    && (forall e :: c.unseal(e).Some? ==> |c.unseal(e).value| <= |e.ciphertext|)
  }

  /** JSON values print and parse back, and the JSON text of a string is longer than the string. */
  ghost predicate JsonLaws(c: Crypto) {
    && (forall j :: IsValue(c, j) ==> c.parse(c.stringify(j)) == Some(j))
    && (forall t :: c.parse(t).Some? && c.parse(t).value.Str? ==> |c.parse(t).value.text| < |t|)
  }

  // ----- JSON values as the runtime holds them -----

  predicate Before(a: string, b: string) {
    a != "" && b != "" && (a[0] < b[0] || (a[0] == b[0] && Before(a[1..], b[1..])))
  }

  predicate IndexBelow(a: string, b: string) {
    |a| < |b| || (|a| == |b| && Before(a, b))
  }

  /** Keys that print an array index: an object lists them first, in ascending order. */
  predicate IsIndex(key: string) {
    && key != "" && (forall i :: 0 <= i < |key| ==> '0' <= key[i] <= '9')
    && (key == "0" || key[0] != '0') && IndexBelow(key, "4294967295")
  }

  predicate PropertyOrder(entries: seq<Entry>) {
    forall i, j :: 0 <= i < j < |entries| && IsIndex(entries[j].key) ==>
      IsIndex(entries[i].key) && IndexBelow(entries[i].key, entries[j].key)
  }

  predicate DistinctKeys(entries: seq<Entry>) {
    forall i, j :: 0 <= i < j < |entries| ==> entries[i].key != entries[j].key
  }

  /** A tree that is the value of some JSON text: printed numbers, and objects with distinct keys in property order. */
  predicate IsValue(c: Crypto, j: Json) {
    match j
    case Num(number) => c.numeral(number)
    case Arr(items) => forall i :: 0 <= i < |items| ==> IsValue(c, items[i])
    case Obj(entries) =>
      && DistinctKeys(entries) && PropertyOrder(entries)
      && forall i :: 0 <= i < |entries| ==> IsValue(c, entries[i].value)
    case _ => true
  }

  // ----- the envelope -----

  const ENCRYPTED_PREFIX := "enc:v1"

  function Serialize(e: Envelope): string {
    ENCRYPTED_PREFIX + ":" + e.iv + ":" + e.authTag + ":" + e.ciphertext
  }

  function Deserialize(c: Crypto, serialized: string): Option<Envelope> {
    if Trim(serialized) == "" then None
    else
      var parts := Split(Trim(serialized), ':');
      if |parts| == 5 && parts[0] == "enc" && parts[1] == "v1" then Some(Envelope(parts[2], parts[3], parts[4]))
      else if |parts| == 4 && parts[0] == "v1" then Some(Envelope(parts[1], parts[2], parts[3]))
      else if |parts| == 3 then Some(Envelope(parts[0], parts[1], parts[2]))
      else if "{" <= serialized && serialized[|serialized| - 1] == '}' then c.jsonEnvelope(serialized)
      else None
  }

  predicate HexOfLength(s: string, n: nat) {
    |s| == n && IsHexText(s)
  }

  /** `isEncrypted` of a string. */
  predicate IsEncrypted(s: string) {
    || ENCRYPTED_PREFIX <= s
    || var parts := Split(s, ':');
       || (|parts| == 3 && HexOfLength(parts[0], 24) && HexOfLength(parts[1], 32))
       || (|parts| == 4 && parts[0] == "v1" && HexOfLength(parts[1], 24) && HexOfLength(parts[2], 32))
  }

  lemma HexHasNoColon(s: string)
    requires IsHexText(s)
    ensures ':' !in s
  {
  }

  /** Any envelope of hex texts, the empty ciphertext included, prints and parses back. */
  lemma EnvelopeRoundTrip(c: Crypto, e: Envelope)
    requires HexEnvelope(e)
    ensures Deserialize(c, Serialize(e)) == Some(e)
    ensures IsEncrypted(Serialize(e))
  {
    SerializedIsEncrypted(e);
    var s := Serialize(e);
    var parts := ["enc", "v1", e.iv, e.authTag, e.ciphertext];
    HexHasNoColon(e.iv);
    HexHasNoColon(e.authTag);
    HexHasNoColon(e.ciphertext);
    SplitJoin(parts, ':');
    SerializeIsJoin(e);
    assert s[0] == 'e';
    if e.ciphertext == "" {
      assert s[|s| - 1] == ':';
    } else {
      assert s[|s| - 1] == e.ciphertext[|e.ciphertext| - 1];
    }
    TrimKeeps(s);
  }

  lemma SerializeIsJoin(e: Envelope)
    ensures Serialize(e) == Join(["enc", "v1", e.iv, e.authTag, e.ciphertext], ":")
  {
    var a, b, d := e.iv, e.authTag, e.ciphertext;
    JoinThree(a, b, d);
    var rest := a + ":" + b + ":" + d;
    assert ["v1", a, b, d][1..] == [a, b, d];
    assert ["enc", "v1", a, b, d][1..] == ["v1", a, b, d];
    assert Join(["v1", a, b, d], ":") == "v1" + ":" + rest;
    assert Serialize(e) == "enc" + ":" + ("v1" + ":" + rest);
  }

  lemma JoinThree(a: string, b: string, d: string)
    ensures Join([a, b, d], ":") == a + ":" + b + ":" + d
  {
    assert [a, b, d][1..] == [b, d] && [b, d][1..] == [d];
    assert Join([b, d], ":") == b + ":" + d;
  }

  // ----- the older printed forms -----

  /** The printed forms an envelope may be stored in, the last one without any version. */
  datatype Form = Current | Versioned | Bare

  function PartsOf(form: Form, e: Envelope): seq<string> {
    match form
    case Current => ["enc", "v1", e.iv, e.authTag, e.ciphertext]
    case Versioned => ["v1", e.iv, e.authTag, e.ciphertext]
    case Bare => [e.iv, e.authTag, e.ciphertext]
  }

  function Printed(form: Form, e: Envelope): string {
    Join(PartsOf(form, e), ":")
  }

  lemma PartsHaveNoColon(form: Form, e: Envelope)
    requires HexEnvelope(e)
    ensures forall i :: 0 <= i < |PartsOf(form, e)| ==> ':' !in PartsOf(form, e)[i]
    ensures Split(Printed(form, e), ':') == PartsOf(form, e)
  {
    HexHasNoColon(e.iv);
    HexHasNoColon(e.authTag);
    HexHasNoColon(e.ciphertext);
    SplitJoin(PartsOf(form, e), ':');
  }

  /** The characters an envelope is printed with. */
  predicate EnvelopeChar(c: char) {
    '0' <= c <= '9' || 'a' <= c <= 'f' || 'A' <= c <= 'F' || c == ':' || c == 'v' || c == 'n'
  }

  lemma {:induction false} JoinChars(parts: seq<string>)
    requires forall i, k :: 0 <= i < |parts| && 0 <= k < |parts[i]| ==> EnvelopeChar(parts[i][k])
    ensures forall k :: 0 <= k < |Join(parts, ":")| ==> EnvelopeChar(Join(parts, ":")[k])
    ensures |parts| >= 2 ==> Join(parts, ":") != ""
  {
    if |parts| <= 1 {
    } else {
      JoinChars(parts[1..]);
    }
  }

  lemma PartsAreEnvelopeChars(form: Form, e: Envelope)
    requires HexEnvelope(e)
    ensures Printed(form, e) != "" && forall k :: 0 <= k < |Printed(form, e)| ==> EnvelopeChar(Printed(form, e)[k])
  {
    JoinChars(PartsOf(form, e));
  }

  /** Every form reads back as the same envelope, with any white space around it. */
  lemma FormRoundTrip(c: Crypto, form: Form, e: Envelope, left: string, right: string)
    requires HexEnvelope(e) && Blank(left) && Blank(right)
    ensures Deserialize(c, left + Printed(form, e) + right) == Some(e)
  {
    PartsAreEnvelopeChars(form, e);
    TrimPadded(left, Printed(form, e), right);
    PartsHaveNoColon(form, e);
  }

  /** The current form is what `serialize` prints. */
  lemma CurrentIsSerialized(e: Envelope)
    ensures Printed(Current, e) == Serialize(e)
  {
    SerializeIsJoin(e);
  }

  /** A JSON text is read as a JSON envelope, unless it has exactly two colons and so looks like three parts. */
  lemma JsonFormIsRead(c: Crypto, body: string)
    ensures var s := "{" + body + "}";
      Deserialize(c, s) ==
        if |Split(s, ':')| == 3 then Some(Envelope(Split(s, ':')[0], Split(s, ':')[1], Split(s, ':')[2]))
        else c.jsonEnvelope(s)
  {
    var s := "{" + body + "}";
    assert s[0] == '{' && s[|s| - 1] == '}';
    TrimKeeps(s);
    FirstPart(s);
  }

  /** Any text with the prefix is taken for an envelope, well formed or not. */
  lemma PrefixIsEncrypted(rest: string)
    ensures IsEncrypted("enc:v1" + rest)
  {
    assert "enc:v1" <= "enc:v1" + rest;
  }

  /** An older form is taken for an envelope exactly when the vector has 12 bytes and the tag 16. */
  lemma OlderIsEncryptedIff(form: Form, e: Envelope)
    requires HexEnvelope(e) && form != Current
    ensures IsEncrypted(Printed(form, e)) <==> |e.iv| == 24 && |e.authTag| == 32
  {
    PartsHaveNoColon(form, e);
    NotPrefixed(form, e);
  }

  lemma NotPrefixed(form: Form, e: Envelope)
    requires HexEnvelope(e) && form != Current
    ensures !(ENCRYPTED_PREFIX <= Printed(form, e))
  {
    var s := Printed(form, e);
    if form == Bare {
      JoinThree(e.iv, e.authTag, e.ciphertext);
      assert s[|e.iv|] == ':';
      assert |e.iv| >= 2 ==> s[1] == e.iv[1];
    } else {
      assert s[0] == 'v';
    }
  }

  function Encrypt(c: Crypto, path: seq<nat>, text: string): string {
    Serialize(c.seal(path, text))
  }

  function Decrypt(c: Crypto, text: string): Option<string> {
    var e := Deserialize(c, text);
    if e.None? then None else c.unseal(e.value)
  }

  lemma DecryptEncrypt(c: Crypto, path: seq<nat>, text: string)
    requires CipherLaws(c)
    ensures Decrypt(c, Encrypt(c, path, text)) == Some(text)
  {
    EnvelopeRoundTrip(c, c.seal(path, text));
  }

  // ----- the transform -----

  function EncryptField(c: Crypto, path: seq<nat>, value: Json): Json {
    match value
    case Str(s) => if IsEncrypted(s) then value else Str(Encrypt(c, path, s))
    case _ => Str(Encrypt(c, path, c.stringify(value)))
  }

  /** A decrypted text is shown as the JSON value it prints, or as the text itself. */
  function Reveal(c: Crypto, s: string): Json {
    match Decrypt(c, s)
    case None => Str(s)
    case Some(t) => match c.parse(t) case Some(j) => j case None => Str(t)
  }

  /** `transformSensitiveFields(data, 'encrypt')`. */
  function EncryptTree(c: Crypto, sensitive: string -> bool, j: Json, path: seq<nat>): Json {
    match j
    case Arr(items) =>
      Arr(seq(|items|, i requires 0 <= i < |items| => EncryptTree(c, sensitive, items[i], path + [i])))
    case Obj(entries) =>
      Obj(seq(|entries|, i requires 0 <= i < |entries| =>
        Entry(entries[i].key,
          if sensitive(entries[i].key) && !entries[i].value.Null? then EncryptField(c, path + [i], entries[i].value)
          else EncryptTree(c, sensitive, entries[i].value, path + [i]))))
    case _ => j
  }

  /** `transformSensitiveFields(data, 'decrypt')`. */
  function DecryptTree(c: Crypto, sensitive: string -> bool, j: Json): Json {
    match j
    case Arr(items) =>
      Arr(seq(|items|, i requires 0 <= i < |items| => DecryptTree(c, sensitive, items[i])))
    case Obj(entries) =>
      Obj(seq(|entries|, i requires 0 <= i < |entries| =>
        Entry(entries[i].key,
          if sensitive(entries[i].key) && entries[i].value.Str? && IsEncrypted(entries[i].value.text)
          then Reveal(c, entries[i].value.text)
          else DecryptTree(c, sensitive, entries[i].value))))
    case _ => j
  }

  // ----- encrypting twice -----

  lemma SerializedIsEncrypted(e: Envelope)
    ensures IsEncrypted(Serialize(e))
  {
    assert ENCRYPTED_PREFIX <= Serialize(e);
  }

  lemma FieldIsEncrypted(c: Crypto, path: seq<nat>, value: Json)
    ensures EncryptField(c, path, value).Str? && IsEncrypted(EncryptField(c, path, value).text)
  {
    match value {
      case Str(s) => SerializedIsEncrypted(c.seal(path, s));
      case _ => SerializedIsEncrypted(c.seal(path, c.stringify(value)));
    }
  }

  /** Encrypting an encrypted tree changes nothing, whatever the ciphers do and whichever vectors they draw. */
  lemma {:induction false} EncryptTwice(c: Crypto, later: Crypto, sensitive: string -> bool, j: Json, path: seq<nat>, path': seq<nat>)
    ensures EncryptTree(later, sensitive, EncryptTree(c, sensitive, j, path), path') == EncryptTree(c, sensitive, j, path)
    decreases j
  {
    match j {
      case Arr(items) =>
        var once := EncryptTree(c, sensitive, j, path);
        var twice := EncryptTree(later, sensitive, once, path');
        forall i | 0 <= i < |items| ensures twice.items[i] == once.items[i] {
          EncryptTwice(c, later, sensitive, items[i], path + [i], path' + [i]);
        }
        assert twice.items == once.items;
      case Obj(entries) =>
        var once := EncryptTree(c, sensitive, j, path);
        var twice := EncryptTree(later, sensitive, once, path');
        forall i | 0 <= i < |entries| ensures twice.entries[i] == once.entries[i] {
          var e := entries[i];
          if sensitive(e.key) && !e.value.Null? {
            FieldIsEncrypted(c, path + [i], e.value);
          } else {
            EncryptTwice(c, later, sensitive, e.value, path + [i], path' + [i]);
            NullStays(c, sensitive, e.value, path + [i]);
          }
        }
        assert twice.entries == once.entries;
      case _ =>
    }
  }

  lemma NullStays(c: Crypto, sensitive: string -> bool, j: Json, path: seq<nat>)
    ensures EncryptTree(c, sensitive, j, path).Null? <==> j.Null?
  {
  }

  // ----- decrypting what was encrypted -----

  /** A sensitive field that comes back: a text must not be JSON, nor already an envelope that opens. */
  predicate FieldRestores(c: Crypto, value: Json) {
    value.Str? ==>
      if IsEncrypted(value.text) then Decrypt(c, value.text).None? else c.parse(value.text).None?
  }

  predicate Restores(c: Crypto, sensitive: string -> bool, j: Json) {
    match j
    case Arr(items) => forall i :: 0 <= i < |items| ==> Restores(c, sensitive, items[i])
    case Obj(entries) =>
      forall i :: 0 <= i < |entries| ==>
        if sensitive(entries[i].key) && !entries[i].value.Null? then FieldRestores(c, entries[i].value)
        else Restores(c, sensitive, entries[i].value)
    case _ => true
  }

  /** An envelope that opens never opens to itself. */
  lemma EnvelopeOpensToLess(c: Crypto, s: string)
    requires CipherLaws(c) && JsonLaws(c) && IsEncrypted(s) && Decrypt(c, s).Some?
    ensures Reveal(c, s) != Str(s)
  {
    var e := Deserialize(c, s).value;
    var t := c.unseal(e).value;
    TrimShortens(s);
    var parts := Split(Trim(s), ':');
    EncryptedIsNotJson(s);
    SplitShortens(Trim(s), ':', |parts| - 1);
    assert |e.ciphertext| < |s|;
    assert |t| <= |e.ciphertext|;
  }

  lemma EncryptedIsNotJson(s: string)
    requires IsEncrypted(s)
    ensures !("{" <= s)
  {
    if s != "" && s[0] != ':' {
      FirstPart(s);
    }
  }

  lemma FirstPart(s: string)
    requires s != "" && s[0] != ':'
    ensures Split(s, ':')[0] != "" && Split(s, ':')[0][0] == s[0]
  {
  }

  lemma FieldRoundTrip(c: Crypto, path: seq<nat>, value: Json)
    requires CipherLaws(c) && JsonLaws(c) && IsValue(c, value) && !value.Null?
    ensures Reveal(c, EncryptField(c, path, value).text) == value <==> FieldRestores(c, value)
  {
    match value {
      case Str(s) =>
        if IsEncrypted(s) {
          if Decrypt(c, s).Some? { EnvelopeOpensToLess(c, s); }
        } else {
          DecryptEncrypt(c, path, s);
        }
      case _ => DecryptEncrypt(c, path, c.stringify(value));
    }
  }

  /**
   * Decrypting an encrypted JSON value gives the value back if and only if no sensitive text in it is itself JSON
   * text or an envelope that opens.
   */
  lemma {:induction false} RoundTripIff(c: Crypto, sensitive: string -> bool, j: Json, path: seq<nat>)
    requires CipherLaws(c) && JsonLaws(c) && IsValue(c, j)
    ensures DecryptTree(c, sensitive, EncryptTree(c, sensitive, j, path)) == j <==> Restores(c, sensitive, j)
    decreases j
  {
    match j {
      case Arr(items) =>
        var back := DecryptTree(c, sensitive, EncryptTree(c, sensitive, j, path));
        forall i | 0 <= i < |items| ensures back.items[i] == items[i] <==> Restores(c, sensitive, items[i]) {
          RoundTripIff(c, sensitive, items[i], path + [i]);
        }
        assert back.items == items <==> forall i :: 0 <= i < |items| ==> back.items[i] == items[i];
      case Obj(entries) =>
        var enc := EncryptTree(c, sensitive, j, path);
        var back := DecryptTree(c, sensitive, enc);
        forall i | 0 <= i < |entries|
          ensures back.entries[i] == entries[i] <==>
            if sensitive(entries[i].key) && !entries[i].value.Null? then FieldRestores(c, entries[i].value)
            else Restores(c, sensitive, entries[i].value)
        {
          EntryRoundTrip(c, sensitive, entries, i, path);
          if !(sensitive(entries[i].key) && !entries[i].value.Null?) {
            RoundTripIff(c, sensitive, entries[i].value, path + [i]);
          }
        }
        assert back.entries == entries <==> forall i :: 0 <= i < |entries| ==> back.entries[i] == entries[i];
      case _ =>
    }
  }

  /** What happens to one entry on the way there and back. */
  lemma EntryRoundTrip(c: Crypto, sensitive: string -> bool, entries: seq<Entry>, i: nat, path: seq<nat>)
    requires CipherLaws(c) && JsonLaws(c) && i < |entries| && IsValue(c, entries[i].value)
    ensures var e := entries[i];
      var back := DecryptTree(c, sensitive, EncryptTree(c, sensitive, Obj(entries), path)).entries[i];
      && back.key == e.key
      && (if sensitive(e.key) && !e.value.Null? then back.value == e.value <==> FieldRestores(c, e.value)
          else back.value == DecryptTree(c, sensitive, EncryptTree(c, sensitive, e.value, path + [i])))
  {
    var e := entries[i];
    if sensitive(e.key) && !e.value.Null? {
      FieldIsEncrypted(c, path + [i], e.value);
      FieldRoundTrip(c, path + [i], e.value);
    } else if sensitive(e.key) {
      assert EncryptTree(c, sensitive, e.value, path + [i]) == Null;
    }
  }

  // ----- the transform as the service runs it -----

  datatype Mode = ToEncrypt | ToDecrypt

  function Transformed(c: Crypto, sensitive: string -> bool, mode: Mode, j: Json, path: seq<nat>): Json {
    if mode == ToEncrypt then EncryptTree(c, sensitive, j, path) else DecryptTree(c, sensitive, j)
  }

  /** `transformSensitiveFields`: the result object is filled entry by entry. */
  method TransformSensitiveFields(c: Crypto, sensitive: string -> bool, data: Json, mode: Mode, path: seq<nat>)
    returns (r: Json)
    ensures r == Transformed(c, sensitive, mode, data, path)
    decreases data
  {
    match data {
      case Arr(items) =>
        var result: seq<Json> := [];
        for i := 0 to |items|
          invariant |result| == i
          invariant forall k :: 0 <= k < i ==> result[k] == Transformed(c, sensitive, mode, items[k], path + [k])
        {
          var item := TransformSensitiveFields(c, sensitive, items[i], mode, path + [i]);
          result := result + [item];
        }
        assert result == Transformed(c, sensitive, mode, data, path).items;
        r := Arr(result);
      case Obj(entries) =>
        var result: seq<Entry> := [];
        for i := 0 to |entries|
          invariant |result| == i
          invariant forall k :: 0 <= k < i ==> result[k] == Transformed(c, sensitive, mode, data, path).entries[k]
        {
          var key, value := entries[i].key, entries[i].value;
          var out: Json;
          if sensitive(key) && !value.Null? && mode == ToEncrypt {
            if value.Str? {
              out := if IsEncrypted(value.text) then value else Str(Encrypt(c, path + [i], value.text));
            } else {
              out := Str(Encrypt(c, path + [i], c.stringify(value)));
            }
          } else if sensitive(key) && value.Str? && IsEncrypted(value.text) && mode == ToDecrypt {
            var decrypted := Decrypt(c, value.text);
            if decrypted.None? {
              out := value;
            } else {
              var parsed := c.parse(decrypted.value);
              out := if parsed.Some? then parsed.value else Str(decrypted.value);
            }
          } else {
            out := TransformSensitiveFields(c, sensitive, value, mode, path + [i]);
          }
          result := result + [Entry(key, out)];
        }
        assert result == Transformed(c, sensitive, mode, data, path).entries;
        r := Obj(result);
      case _ =>
        r := data;
    }
  }
}
