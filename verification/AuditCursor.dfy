/** The opaque cursor of the audit listing: a JSON tuple in base64url, section 5 of RFC 4648, without padding. */
module AuditCursor {
  import opened Dates
  import opened Text
  import opened Wrappers

  datatype Cursor = Cursor(createdAt: Time, id: string)

  /** The parsed JSON of a cursor, as far as the decoder looks at it. */
  datatype Parsed = Parsed(v: int, createdAt: string, id: string)

  /** Dates, JSON and UTF-8 as the runtime provides them. */
  datatype Runtime = Runtime(
    iso: Time -> string,
    fromIso: string -> Option<Time>,
    parse: string -> Option<Parsed>,
    utf8: Bytes -> string)

  // ----- base64url -----

  function Digit(v: nat): char
    requires v < 64
  {
    if v < 26 then 'A' + v as char
    else if v < 52 then 'a' + (v - 26) as char
    else if v < 62 then '0' + (v - 52) as char
    else if v == 62 then '-' else '_'
  }

  predicate InAlphabet(c: char) {
    'A' <= c <= 'Z' || 'a' <= c <= 'z' || '0' <= c <= '9' || c == '-' || c == '_'
  }

  function DigitValue(c: char): (r: nat)
    ensures r < 64
  {
    if 'A' <= c <= 'Z' then c as int - 'A' as int
    else if 'a' <= c <= 'z' then c as int - 'a' as int + 26
    else if '0' <= c <= '9' then c as int - '0' as int + 52
    else if c == '-' then 62 else 63
  }

  lemma DigitRoundTrip(v: nat)
    requires v < 64
    ensures DigitValue(Digit(v)) == v && InAlphabet(Digit(v))
  {
  }

  function EncodeBytes(b: Bytes): string {
    if |b| == 0 then ""
    else if |b| == 1 then [Digit(b[0] / 4), Digit(b[0] % 4 * 16)]
    else if |b| == 2 then [Digit(b[0] / 4), Digit(b[0] % 4 * 16 + b[1] / 16), Digit(b[1] % 16 * 4)]
    else [Digit(b[0] / 4), Digit(b[0] % 4 * 16 + b[1] / 16), Digit(b[1] % 16 * 4 + b[2] / 64), Digit(b[2] % 64)]
         + EncodeBytes(b[3..])
  }

  /** Two digits make a byte, three make two, four make three; a single digit left over is dropped. */
  function DecodeBytes(s: string): Bytes {
    if |s| < 2 then []
    else
      var p, q := DigitValue(s[0]), DigitValue(s[1]);
      var first := (p * 4 + q / 16) % 256;
      if |s| == 2 then [first]
      else
        var r := DigitValue(s[2]);
        var second := (q % 16 * 16 + r / 4) % 256;
        if |s| == 3 then [first, second]
        else [first, second, (r % 4 * 64 + DigitValue(s[3])) % 256] + DecodeBytes(s[4..])
  }

  lemma {:induction false} BytesRoundTrip(b: Bytes)
    ensures DecodeBytes(EncodeBytes(b)) == b
  {
    if |b| == 1 {
      OneByte(b[0]);
    } else if |b| == 2 {
      TwoBytes(b[0], b[1]);
    } else if |b| >= 3 {
      BytesRoundTrip(b[3..]);
      GroupRoundTrip(b[0], b[1], b[2], b[3..]);
      assert b == [b[0], b[1], b[2]] + b[3..];
    }
  }

  lemma GroupRoundTrip(x: Byte, y: Byte, z: Byte, rest: Bytes)
    requires DecodeBytes(EncodeBytes(rest)) == rest
    ensures DecodeBytes(EncodeBytes([x, y, z] + rest)) == [x, y, z] + rest
  {
    EncodeGroup(x, y, z, rest);
    ThreeBytes(x, y, z, EncodeBytes(rest));
  }

  lemma EncodeGroup(x: Byte, y: Byte, z: Byte, rest: Bytes)
    ensures EncodeBytes([x, y, z] + rest) ==
      [Digit(x / 4), Digit(x % 4 * 16 + y / 16), Digit(y % 16 * 4 + z / 64), Digit(z % 64)] + EncodeBytes(rest)
  {
    assert ([x, y, z] + rest)[3..] == rest;
  }

  lemma OneByte(x: Byte)
    ensures DecodeBytes([Digit(x / 4), Digit(x % 4 * 16)]) == [x]
  {
    DigitRoundTrip(x / 4);
    DigitRoundTrip(x % 4 * 16);
  }

  lemma TwoBytes(x: Byte, y: Byte)
    ensures DecodeBytes([Digit(x / 4), Digit(x % 4 * 16 + y / 16), Digit(y % 16 * 4)]) == [x, y]
  {
    DigitRoundTrip(x / 4);
    DigitRoundTrip(x % 4 * 16 + y / 16);
    DigitRoundTrip(y % 16 * 4);
    FirstByte(x, y);
    SecondByte(x, y, 0);
  }

  lemma ThreeBytes(x: Byte, y: Byte, z: Byte, rest: string)
    ensures DecodeBytes([Digit(x / 4), Digit(x % 4 * 16 + y / 16), Digit(y % 16 * 4 + z / 64), Digit(z % 64)] + rest)
         == [x, y, z] + DecodeBytes(rest)
  {
    DigitRoundTrip(x / 4);
    DigitRoundTrip(x % 4 * 16 + y / 16);
    DigitRoundTrip(y % 16 * 4 + z / 64);
    DigitRoundTrip(z % 64);
    FirstByte(x, y);
    SecondByte(x, y, z);
    ThirdByte(y, z);
    var s := [Digit(x / 4), Digit(x % 4 * 16 + y / 16), Digit(y % 16 * 4 + z / 64), Digit(z % 64)] + rest;
    assert s[4..] == rest;
  }

  lemma FirstByte(x: Byte, y: Byte)
    ensures (x / 4 * 4 + (x % 4 * 16 + y / 16) / 16) % 256 == x
  {
  }

  lemma SecondByte(x: Byte, y: Byte, z: Byte)
    ensures ((x % 4 * 16 + y / 16) % 16 * 16 + (y % 16 * 4 + z / 64) / 4) % 256 == y
  {
  }

  lemma ThirdByte(y: Byte, z: Byte)
    ensures ((y % 16 * 4 + z / 64) % 4 * 64 + z % 64) % 256 == z
  {
  }

  /** The alphabet of section 5 of RFC 4648. */
  const UPPER := "ABCDEFGHIJKLMNOPQRSTUVWXYZ"
  const LOWER := "abcdefghijklmnopqrstuvwxyz"
  const OTHERS := "0123456789-_"

  lemma UpperDigits(v: nat)
    requires v < 26
    ensures Digit(v) == UPPER[v]
  {
  }

  lemma LowerDigits(v: nat)
    requires v < 26
    ensures Digit(26 + v) == LOWER[v]
  {
  }

  lemma OtherDigits(v: nat)
    requires v < 12
    ensures Digit(52 + v) == OTHERS[v]
  {
  }

  function ByteAt(b: Bytes, i: nat): nat {
    if i < |b| then b[i] else 0
  }

  function DigitAt(s: string, i: nat): nat {
    if i < |s| then DigitValue(s[i]) else 0
  }

  /** Four digits as one number, and three bytes as one; what is missing at the end counts as zero. */
  function DigitGroup(s: string, g: nat): nat {
    ((DigitAt(s, 4 * g) * 64 + DigitAt(s, 4 * g + 1)) * 64 + DigitAt(s, 4 * g + 2)) * 64 + DigitAt(s, 4 * g + 3)
  }

  function ByteGroup(b: Bytes, g: nat): nat {
    (ByteAt(b, 3 * g) * 256 + ByteAt(b, 3 * g + 1)) * 256 + ByteAt(b, 3 * g + 2)
  }

  lemma GroupDigits(x: Byte, y: Byte, z: Byte)
    ensures ((x / 4 * 64 + (x % 4 * 16 + y / 16)) * 64 + (y % 16 * 4 + z / 64)) * 64 + z % 64 == (x * 256 + y) * 256 + z
  {
  }

  /** The first group of a text whose digits, as far as they go, have these values. */
  lemma ReadGroup(s: string, p: nat, q: nat, r: nat, t: nat)
    requires p < 64 && q < 64 && r < 64 && t < 64 && |s| >= 2 && s[0] == Digit(p) && s[1] == Digit(q)
    requires if |s| >= 3 then s[2] == Digit(r) else r == 0
    requires if |s| >= 4 then s[3] == Digit(t) else t == 0
    ensures DigitGroup(s, 0) == ((p * 64 + q) * 64 + r) * 64 + t
  {
    DigitRoundTrip(p);
    DigitRoundTrip(q);
    DigitRoundTrip(r);
    DigitRoundTrip(t);
  }

  lemma FirstGroup(b: Bytes)
    requires b != []
    ensures DigitGroup(EncodeBytes(b), 0) == ByteGroup(b, 0)
  {
    var x, y, z := b[0], ByteAt(b, 1), ByteAt(b, 2);
    GroupDigits(x, y, z);
    FirstDigits(b, x, y, z);
    ReadGroup(EncodeBytes(b), x / 4, x % 4 * 16 + y / 16, y % 16 * 4 + z / 64, z % 64);
  }

  lemma FirstDigits(b: Bytes, x: Byte, y: Byte, z: Byte)
    requires b != [] && x == b[0] && y == ByteAt(b, 1) && z == ByteAt(b, 2)
    ensures var s, r, t := EncodeBytes(b), y % 16 * 4 + z / 64, z % 64;
      && |s| >= 2 && s[0] == Digit(x / 4) && s[1] == Digit(x % 4 * 16 + y / 16)
      && (if |s| >= 3 then s[2] == Digit(r) else r == 0) && (if |s| >= 4 then s[3] == Digit(t) else t == 0)
  {
  }

  /**
   * The encoding of section 5 of RFC 4648, without padding: each group of 24 bits is the same number in four digits as in
   * three bytes, a last group of one or two bytes filled up with zero bits.
   */
  lemma {:induction false} EncodedGroups(b: Bytes, g: nat)
    requires 3 * g < |b|
    ensures DigitGroup(EncodeBytes(b), g) == ByteGroup(b, g)
  {
    if g == 0 {
      FirstGroup(b);
    } else {
      EncodedGroups(b[3..], g - 1);
      GroupShifts(EncodeBytes(b), b, g);
    }
  }

  lemma GroupShifts(s: string, b: Bytes, g: nat)
    requires g >= 1 && |s| >= 4 && |b| >= 3
    ensures DigitGroup(s, g) == DigitGroup(s[4..], g - 1) && ByteGroup(b, g) == ByteGroup(b[3..], g - 1)
  {
  }

  lemma {:induction false} EncodedShape(b: Bytes)
    ensures |EncodeBytes(b)| == (4 * |b| + 2) / 3
    ensures forall i :: 0 <= i < |EncodeBytes(b)| ==> InAlphabet(EncodeBytes(b)[i])
  {
    if |b| < 3 {
    } else {
      EncodedShape(b[3..]);
    }
  }

  // ----- the cursor -----

  function CursorJson(iso: string, id: string): string {
    "{\"v\":1,\"createdAt\":\"" + iso + "\",\"id\":\"" + id + "\"}"
  }

  function Member(name: string, value: string): string {
    "\"" + name + "\":" + value
  }

  function Quoted(s: string): string {
    "\"" + s + "\""
  }

  /** The text is the JSON of an object with these three members. */
  lemma CursorJsonIsObject(iso: string, id: string)
    ensures CursorJson(iso, id) ==
      "{" + Join([Member("v", "1"), Member("createdAt", Quoted(iso)), Member("id", Quoted(id))], ",") + "}"
  {
    var a, b, c := Member("v", "1"), Member("createdAt", Quoted(iso)), Member("id", Quoted(id));
    assert a == "\"v\":1";
    MemberText("createdAt", "\"createdAt\":\"", iso);
    MemberText("id", "\"id\":\"", id);
    JoinThree(a, b, c);
    assert "{" + a + "," + "\"createdAt\":\"" == "{\"v\":1,\"createdAt\":\"";
    assert "\"" + "," + "\"id\":\"" == "\",\"id\":\"" && "\"" + "}" == "\"}";
    Regroup("{", a, ",", "\"createdAt\":\"", iso, "\"", "\"id\":\"", id, "}");
  }

  lemma JoinThree(a: string, b: string, c: string)
    ensures Join([a, b, c], ",") == a + "," + (b + "," + c)
  {
    assert [a, b, c][1..] == [b, c] && [b, c][1..] == [c];
    assert Join([b, c], ",") == b + "," + c;
  }

  lemma MemberText(name: string, head: string, value: string)
    requires head == "\"" + name + "\":" + "\""
    ensures Member(name, Quoted(value)) == head + value + "\""
  {
  }

  lemma Regroup(
    left: string, a: string, comma: string, b: string, x: string, quote: string, c: string, y: string, right: string)
    ensures left + (a + comma + ((b + x + quote) + comma + (c + y + quote))) + right ==
      (left + a + comma + b) + x + (quote + comma + c) + y + (quote + right)
  {
  }

  function AsciiBytes(s: string): (r: Bytes)
    requires IsAscii(s)
    ensures |r| == |s|
  {
    seq(|s|, i requires 0 <= i < |s| => s[i] as int)
  }

  predicate IsAscii(s: string) {
    forall i :: 0 <= i < |s| ==> s[i] as int < 128
  }

  predicate IdChar(c: char) {
    'A' <= c <= 'Z' || 'a' <= c <= 'z' || '0' <= c <= '9' || c == '.' || c == '_' || c == ':' || c == '-'
  }

  predicate ValidId(id: string) {
    1 <= |id| <= 128 && forall i :: 0 <= i < |id| ==> IdChar(id[i])
  }

  /** Printed dates: 24 characters, or 27 for years past 9999, none of which JSON escapes. */
  predicate DateText(s: string) {
    |s| <= 27 && forall i :: 0 <= i < |s| ==> IdChar(s[i]) || s[i] == '+'
  }

  /** The runtime laws: dates in range print and parse back, and so does the JSON of a cursor. */
  ghost predicate Sound(rt: Runtime) {
    && (forall t: Time :: DateText(rt.iso(t)) && rt.fromIso(rt.iso(t)) == Some(t))
    && (forall t: Time, id :: ValidId(id) ==> rt.parse(CursorJson(rt.iso(t), id)) == Some(Parsed(1, rt.iso(t), id)))
    && (forall s :: IsAscii(s) ==> rt.utf8(AsciiBytes(s)) == s)
  }

  lemma JsonIsAscii(iso: string, id: string)
    requires DateText(iso) && ValidId(id)
    ensures IsAscii(CursorJson(iso, id)) && |CursorJson(iso, id)| == 30 + |iso| + |id|
  {
    var a, b, c := "{\"v\":1,\"createdAt\":\"", "\",\"id\":\"", "\"}";
    assert IsAscii(a) && IsAscii(b) && IsAscii(c);
    assert IsAscii(iso) && IsAscii(id);
  }

  /** `encodeAuditCursor`, for cursors whose JSON is ASCII text. */
  function EncodeCursor(rt: Runtime, c: Cursor): string
    requires IsAscii(CursorJson(rt.iso(c.createdAt), c.id))
  {
    EncodeBytes(AsciiBytes(CursorJson(rt.iso(c.createdAt), c.id)))
  }

  /** `decodeAuditCursor`; every failed check is the same error. */
  function DecodeCursor(rt: Runtime, value: string): Option<Cursor> {
    if !(1 <= |value| <= 256 && forall i :: 0 <= i < |value| ==> InAlphabet(value[i])) then None
    else
      var decoded := DecodeBytes(value);
      if EncodeBytes(decoded) != value then None
      else
        var parsed := rt.parse(rt.utf8(decoded));
        if parsed.None? || parsed.value.v != 1 || !ValidId(parsed.value.id) then None
        else
          var createdAt := rt.fromIso(parsed.value.createdAt);
          if createdAt.None? || rt.iso(createdAt.value) != parsed.value.createdAt then None
          else Some(Cursor(createdAt.value, parsed.value.id))
  }

  /** Every cursor with an id of up to 128 allowed characters fits in 256 characters and decodes back to itself. */
  lemma CursorRoundTrip(rt: Runtime, c: Cursor)
    requires Sound(rt) && ValidId(c.id)
    ensures IsAscii(CursorJson(rt.iso(c.createdAt), c.id))
    ensures 1 <= |EncodeCursor(rt, c)| <= 256
    ensures DecodeCursor(rt, EncodeCursor(rt, c)) == Some(c)
  {
    var iso := rt.iso(c.createdAt);
    JsonIsAscii(iso, c.id);
    var bytes := AsciiBytes(CursorJson(iso, c.id));
    EncodedShape(bytes);
    BytesRoundTrip(bytes);
  }

  /** What decodes has a valid id and a time that prints as it was written; nothing longer than 256 decodes. */
  lemma DecodedIsValid(rt: Runtime, value: string)
    requires DecodeCursor(rt, value).Some?
    ensures ValidId(DecodeCursor(rt, value).value.id) && 1 <= |value| <= 256
    ensures EncodeBytes(DecodeBytes(value)) == value
    ensures var c := DecodeCursor(rt, value).value;
      rt.parse(rt.utf8(DecodeBytes(value))) == Some(Parsed(1, rt.iso(c.createdAt), c.id))
  {
  }

  /**
   * Exactly which texts decode, and to what: one to 256 characters of base64url without padding, for bytes whose
   * text parses to version 1, a valid id and a time as it is printed.
   */
  lemma DecodesIff(rt: Runtime, value: string, c: Cursor)
    requires Sound(rt)
    ensures DecodeCursor(rt, value) == Some(c) <==>
      && 1 <= |value| <= 256 && ValidId(c.id)
      && exists bytes :: value == EncodeBytes(bytes) && rt.parse(rt.utf8(bytes)) == Some(Parsed(1, rt.iso(c.createdAt), c.id))
  {
    if DecodeCursor(rt, value) == Some(c) {
      DecodedIsValid(rt, value);
      assert value == EncodeBytes(DecodeBytes(value));
    }
    forall bytes | value == EncodeBytes(bytes) && rt.parse(rt.utf8(bytes)) == Some(Parsed(1, rt.iso(c.createdAt), c.id))
                   && 1 <= |value| <= 256 && ValidId(c.id)
      ensures DecodeCursor(rt, value) == Some(c)
    {
      EncodedShape(bytes);
      BytesRoundTrip(bytes);
    }
  }

  // ----- the codec the listing uses -----

  datatype Codec = Codec(encode: Cursor -> string, decode: string -> Option<Cursor>)

  function CodecOf(rt: Runtime): Codec {
    Codec((c: Cursor) => if IsAscii(CursorJson(rt.iso(c.createdAt), c.id)) then EncodeCursor(rt, c) else "",
          (s: string) => DecodeCursor(rt, s))
  }

  /** Cursors with valid ids survive the way through the client. */
  ghost predicate Faithful(codec: Codec) {
    forall c: Cursor :: ValidId(c.id) ==> codec.decode(codec.encode(c)) == Some(c)
  }

  lemma CodecIsFaithful(rt: Runtime)
    requires Sound(rt)
    ensures Faithful(CodecOf(rt))
  {
    forall c: Cursor | ValidId(c.id) ensures CodecOf(rt).decode(CodecOf(rt).encode(c)) == Some(c) {
      CursorRoundTrip(rt, c);
    }
  }
}
