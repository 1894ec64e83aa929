/**
 * The ABI reader of the contract-revert decoder, against the head/tail encoding of section "Formal
 * Specification of the Encoding" of the Solidity Contract ABI Specification.
 */
module AbiReader {
  import opened Wrappers
  import opened Text

  /** UTF-8, as the runtime provides it. */
  datatype Utf8 = Utf8(encode: string -> Bytes, decode: Bytes -> string)

  ghost predicate Faithful(u: Utf8) {
    forall s :: u.decode(u.encode(s)) == s
  }

  // ----- numbers and bytes -----

  function Pow2(n: nat): (r: nat)
    ensures r >= 1
  {
    if n == 0 then 1 else 2 * Pow2(n - 1)
  }

  /** The big-endian value of some bytes. */
  function BigEndian(s: Bytes): nat {
    if s == [] then 0 else 256 * BigEndian(s[..|s| - 1]) + s[|s| - 1]
  }

  function ToBytes(v: nat, n: nat): (r: Bytes)
    ensures |r| == n
  {
    if n == 0 then [] else ToBytes(v / 256, n - 1) + [v % 256]
  }

  lemma Pow2Add(a: nat, b: nat)
    ensures Pow2(a + b) == Pow2(a) * Pow2(b)
  {
    if a == 0 {
    } else {
      Pow2Add(a - 1, b);
      assert a + b - 1 == (a - 1) + b;
    }
  }

  lemma Pow2Byte(n: nat)
    ensures Pow2(8 * (n + 1)) == 256 * Pow2(8 * n)
  {
    Pow2Add(8, 8 * n);
    assert Pow2(8) == 256 by {
      assert Pow2(4) == 16;
      Pow2Add(4, 4);
    }
  }

  /** A number that fits in `n` bytes is read back from its big-endian bytes. */
  lemma {:induction false} BytesRoundTrip(v: nat, n: nat)
    requires v < Pow2(8 * n)
    ensures BigEndian(ToBytes(v, n)) == v
  {
    if n == 0 {
    } else {
      Pow2Byte(n - 1);
      BytesRoundTrip(v / 256, n - 1);
      var r := ToBytes(v, n);
      assert r[..n - 1] == ToBytes(v / 256, n - 1);
    }
  }

  // ----- the reader -----

  /** `readWord`, at a byte position; the reader's word index may be fractional, its byte position never is. */
  function ReadWordAt(args: Bytes, start: nat): Option<nat> {
    if |args| < start + 32 then None else Some(BigEndian(args[start..start + 32]))
  }

  /** `args.subarray(from, to)`, which clamps both ends to the buffer. */
  function Subarray(args: Bytes, from: nat, to: nat): Bytes {
    var hi := if to <= |args| then to else |args|;
    if from <= hi then args[from..hi] else []
  }

  function ReadAbiString(u: Utf8, args: Bytes, start: nat): Option<string> {
    var length := ReadWordAt(args, start);
    if length.None? then None
    else
      var body := Subarray(args, start + 32, start + 32 + length.value);
      if |body| != length.value then None else Some(u.decode(body))
  }

  function DecodeAbiString(u: Utf8, args: Bytes): Option<string> {
    var offset := ReadWordAt(args, 0);
    if offset.None? then None else ReadAbiString(u, args, offset.value)
  }

  function HexDigit(n: nat): char
    requires n < 16
  {
    if n < 10 then '0' + n as char else 'a' + (n - 10) as char
  }

  function BytesToHex(s: Bytes): string {
    if s == [] then "" else [HexDigit(s[0] / 16), HexDigit(s[0] % 16)] + BytesToHex(s[1..])
  }

  /** A byte string as the service shows it. */
  function HexText(s: Bytes): string {
    "0x" + BytesToHex(s)
  }

  /** `toString(16)` of a number that is not negative. */
  function ToHex(n: nat): string {
    if n < 16 then [HexDigit(n)] else ToHex(n / 16) + [HexDigit(n % 16)]
  }

  function ToDecimal(n: nat): (r: string)
    ensures |r| >= 1
  {
    if n < 10 then ['0' + n as char] else ToDecimal(n / 10) + ['0' + (n % 10) as char]
  }

  function SignedDecimal(n: int): string {
    if n < 0 then "-" + ToDecimal(-n) else ToDecimal(n)
  }

  function PadStart(s: string, width: nat, c: char): string
    decreases if |s| < width then width - |s| else 0
  {
    if |s| >= width then s else PadStart([c] + s, width, c)
  }

  predicate IsDigit(c: char) {
    '0' <= c <= '9'
  }

  /** `Number(text)` for a text of decimal digits; any other text is not a number here. */
  function ParseDecimal(s: string): Option<nat> {
    if s == "" then None
    else if !IsDigit(s[|s| - 1]) then None
    else
      var last := s[|s| - 1] as int - '0' as int;
      if |s| == 1 then Some(last)
      else match ParseDecimal(s[..|s| - 1]) case None => None case Some(n) => Some(10 * n + last)
  }

  function AsSigned(word: nat, bits: nat): int {
    var unsigned := word % Pow2(bits);
    if bits == 0 then -1
    else if unsigned >= Pow2(bits - 1) then unsigned - Pow2(bits) else unsigned
  }

  /** What the reader makes of a type name; a width or size that is not a number is kept as None. */
  datatype Kind =
    | StringKind
    | BytesKind
    | AddressKind
    | BoolKind
    | SignedKind(bits: Option<nat>)
    | FixedKind(size: Option<nat>)
    | OtherKind

  function KindOf(name: string): Kind {
    if name == "string" then StringKind
    else if name == "bytes" then BytesKind
    else if name == "address" then AddressKind
    else if name == "bool" then BoolKind
    else if "int" <= name then SignedKind(if name == "int" then Some(256) else ParseDecimal(name[3..]))
    else if "bytes" <= name then FixedKind(ParseDecimal(name[5..]))
    else OtherKind
  }

  function StringArg(u: Utf8, args: Bytes, at: nat): string {
    var s := ReadAbiString(u, args, at);
    if s.Some? then s.value else ""
  }

  function BytesArg(args: Bytes, at: nat): string {
    var length := ReadWordAt(args, at);
    if length.None? then "0x" else HexText(Subarray(args, at + 32, at + 32 + length.value))
  }

  function AddressArg(word: nat): string {
    "0x" + PadStart(ToHex(word), 40, '0')
  }

  function SignedArg(word: nat, bits: Option<nat>): Result<string, ()> {
    if bits.None? then Failure(()) else Success(SignedDecimal(AsSigned(word, bits.value)))
  }

  function FixedArg(args: Bytes, at: nat, size: Option<nat>): string {
    HexText(if size.None? then [] else Subarray(args, at, at + size.value))
  }

  function DecodeKind(u: Utf8, args: Bytes, kind: Kind, index: nat): Result<string, ()> {
    var word := ReadWordAt(args, 32 * index);
    if word.None? then Success("0x")
    else match kind
      case StringKind => Success(StringArg(u, args, word.value))
      case BytesKind => Success(BytesArg(args, word.value))
      case AddressKind => Success(AddressArg(word.value))
      case BoolKind => Success(if word.value == 0 then "false" else "true")
      case SignedKind(bits) => SignedArg(word.value, bits)
      case FixedKind(size) => Success(FixedArg(args, 32 * index, size))
      case OtherKind => Success(ToDecimal(word.value))
  }

  /** `decodeAbiArg`; it throws only for an intN whose width is not a number. */
  function DecodeAbiArg(u: Utf8, args: Bytes, name: string, index: nat): Result<string, ()> {
    DecodeKind(u, args, KindOf(name), index)
  }

  function IndexOf(s: string, c: char): int {
    if s == "" then -1
    else if s[0] == c then 0
    else
      var i := IndexOf(s[1..], c);
      if i < 0 then -1 else i + 1
  }

  function LastIndexOf(s: string, c: char): (r: int)
    ensures -1 <= r < |s|
  {
    if s == "" then -1
    else if s[|s| - 1] == c then |s| - 1
    else LastIndexOf(s[..|s| - 1], c)
  }

  function DecodeAll(u: Utf8, args: Bytes, kinds: seq<string>, index: nat): Result<seq<string>, ()> {
    if kinds == [] then Success([])
    else
      var first := DecodeAbiArg(u, args, Trim(kinds[0]), index);
      var rest := DecodeAll(u, args, kinds[1..], index + 1);
      if first.Failure? || rest.Failure? then Failure(()) else Success([first.value] + rest.value)
  }

  /** `decodeAbiArgs`: the types are read off the signature, and a throw yields no arguments at all. */
  function DecodeAbiArgs(u: Utf8, args: Bytes, signature: string): seq<string> {
    var open, close := IndexOf(signature, '('), LastIndexOf(signature, ')');
    if open < 0 || close <= open + 1 then []
    else
      var r := DecodeAll(u, args, Split(signature[open + 1..close], ','), 0);
      if r.Failure? then [] else r.value
  }

  // ----- the encoding -----

  datatype Value =
    | Address(address: nat)
    | Boolean(truth: bool)
    | Uint(bits: nat, number: nat)
    | Int(bits: nat, signed: int)
    | FixedBytes(fixed: Bytes)
    | DynamicBytes(bytes: Bytes)
    | Text(text: string)

  /** The numbers of type intN. */
  predicate InRange(bits: nat, n: int) {
    1 <= bits <= 256 && 0 <= n + Pow2(bits - 1) && n < Pow2(bits - 1)
  }

  predicate Valid(v: Value) {
    match v
    case Address(a) => a < Pow2(160)
    case Boolean(_) => true
    case Uint(bits, n) => 1 <= bits <= 256 && n < Pow2(bits)
    case Int(bits, n) => InRange(bits, n)
    case FixedBytes(s) => 1 <= |s| <= 32
    case DynamicBytes(_) => true
    case Text(_) => true
  }

  function TypeName(v: Value): string {
    match v
    case Address(_) => "address"
    case Boolean(_) => "bool"
    case Uint(bits, _) => "uint" + ToDecimal(bits)
    case Int(bits, _) => "int" + ToDecimal(bits)
    case FixedBytes(s) => "bytes" + ToDecimal(|s|)
    case DynamicBytes(_) => "bytes"
    case Text(_) => "string"
  }

  /** How the service shows a value. */
  function Render(v: Value): string {
    match v
    case Address(a) => AddressArg(a)
    case Boolean(b) => if b then "true" else "false"
    case Uint(_, n) => ToDecimal(n)
    case Int(_, n) => SignedDecimal(n)
    case FixedBytes(s) => HexText(s)
    case DynamicBytes(s) => HexText(s)
    case Text(s) => s
  }

  function Zeros(n: nat): (r: Bytes)
    ensures |r| == n
  {
    seq(n, _ => 0)
  }

  /** The contents of a dynamic value. */
  function Payload(u: Utf8, v: Value): Bytes {
    match v
    case DynamicBytes(s) => s
    case Text(s) => u.encode(s)
    case _ => []
  }

  predicate IsDynamic(v: Value) {
    v.DynamicBytes? || v.Text?
  }

  function Padding(n: nat): nat {
    (32 - n % 32) % 32
  }

  /** Length word, contents, and zeros up to the next multiple of 32. */
  function Tail(u: Utf8, v: Value): Bytes {
    if IsDynamic(v) then
      var s := Payload(u, v);
      ToBytes(|s|, 32) + s + Zeros(Padding(|s|))
    else []
  }

  /** The word a static value is stored as, or the offset of a dynamic value's tail. */
  function Head(v: Value, offset: nat): (r: Bytes)
    requires Valid(v)
    ensures |r| == 32
  {
    match v
    case Address(a) => ToBytes(a, 32)
    case Boolean(b) => ToBytes(if b then 1 else 0, 32)
    case Uint(_, n) => ToBytes(n, 32)
    case Int(bits, n) => ToBytes(WordOf(bits, n), 32)
    case FixedBytes(s) => s + Zeros(32 - |s|)
    case DynamicBytes(_) => ToBytes(offset, 32)
    case Text(_) => ToBytes(offset, 32)
  }

  /** Two's complement in 256 bits. */
  function WordOf(bits: nat, n: int): nat
    requires InRange(bits, n)
  {
    if n < 0 then Pow2Grows(bits - 1, 256); n + Pow2(256) else n
  }

  predicate AllValid(vs: seq<Value>) {
    forall i :: 0 <= i < |vs| ==> Valid(vs[i])
  }

  function Flatten(parts: seq<Bytes>): Bytes {
    if parts == [] then [] else parts[0] + Flatten(parts[1..])
  }

  /** Where part `i` starts in the flattened list. */
  function StartOf(parts: seq<Bytes>, i: nat): nat
    requires i <= |parts|
  {
    if i == 0 then 0 else |parts[0]| + StartOf(parts[1..], i - 1)
  }

  function Tails(u: Utf8, vs: seq<Value>): (r: seq<Bytes>)
    ensures |r| == |vs|
    ensures forall i :: 0 <= i < |vs| ==> r[i] == Tail(u, vs[i])
  {
    seq(|vs|, i requires 0 <= i < |vs| => Tail(u, vs[i]))
  }

  /** Where the tail of value `i` starts: after all heads and the tails before it. */
  function OffsetOf(u: Utf8, vs: seq<Value>, i: nat): nat
    requires i < |vs|
  {
    32 * |vs| + StartOf(Tails(u, vs), i)
  }

  function Heads(u: Utf8, vs: seq<Value>): (r: seq<Bytes>)
    requires AllValid(vs)
    ensures |r| == |vs|
    ensures forall i :: 0 <= i < |vs| ==> r[i] == Head(vs[i], OffsetOf(u, vs, i))
  {
    seq(|vs|, i requires 0 <= i < |vs| => Head(vs[i], OffsetOf(u, vs, i)))
  }

  function Encode(u: Utf8, vs: seq<Value>): Bytes
    requires AllValid(vs)
  {
    Flatten(Heads(u, vs)) + Flatten(Tails(u, vs))
  }

  lemma {:induction false} Pow2Grows(a: nat, b: nat)
    requires a <= b
    ensures Pow2(a) <= Pow2(b)
  {
    if a >= b {
    } else {
      Pow2Grows(a, b - 1);
    }
  }

  // ----- finding heads and tails -----

  lemma {:induction false} PartAt(parts: seq<Bytes>, i: nat)
    requires i < |parts|
    ensures var at, f := StartOf(parts, i), Flatten(parts);
      at + |parts[i]| <= |f| && f[at..at + |parts[i]|] == parts[i]
  {
    if i == 0 {
    } else {
      PartAt(parts[1..], i - 1);
      var b, size, rest := StartOf(parts[1..], i - 1), |parts[i]|, Flatten(parts[1..]);
      var at := |parts[0]| + b;
      assert (parts[0] + rest)[at..at + size] == rest[b..b + size];
    }
  }

  lemma {:induction false} WordParts(parts: seq<Bytes>, i: nat)
    requires i <= |parts| && forall k :: 0 <= k < |parts| ==> |parts[k]| == 32
    ensures StartOf(parts, i) == 32 * i && |Flatten(parts)| == 32 * |parts|
    decreases |parts|
  {
    if parts == [] {
    } else {
      WordParts(parts[1..], if i == 0 then 0 else i - 1);
    }
  }

  /** The encoding shows the head of value `i` in its word and its tail at its offset. */
  lemma EncodedAt(u: Utf8, vs: seq<Value>, i: nat)
    requires AllValid(vs) && i < |vs|
    ensures var e, at := Encode(u, vs), OffsetOf(u, vs, i);
      && 32 * i + 32 <= |e| && e[32 * i..32 * i + 32] == Head(vs[i], at)
      && at + |Tail(u, vs[i])| <= |e| && e[at..at + |Tail(u, vs[i])|] == Tail(u, vs[i])
  {
    PartsAt(Heads(u, vs), Tails(u, vs), i);
  }

  lemma PartsAt(hs: seq<Bytes>, ts: seq<Bytes>, i: nat)
    requires i < |hs| == |ts| && forall k :: 0 <= k < |hs| ==> |hs[k]| == 32
    ensures var e, at := Flatten(hs) + Flatten(ts), 32 * |hs| + StartOf(ts, i);
      && 32 * i + 32 <= |e| && e[32 * i..32 * i + 32] == hs[i]
      && at + |ts[i]| <= |e| && e[at..at + |ts[i]|] == ts[i]
  {
    WordParts(hs, i);
    HeadAt(hs, Flatten(ts), i);
    TailAt(Flatten(hs), ts, i);
  }

  lemma HeadAt(hs: seq<Bytes>, rest: Bytes, i: nat)
    requires i < |hs| && forall k :: 0 <= k < |hs| ==> |hs[k]| == 32
    ensures 32 * i + 32 <= |Flatten(hs)| && (Flatten(hs) + rest)[32 * i..32 * i + 32] == hs[i]
  {
    WordParts(hs, i);
    PartAt(hs, i);
    FrontSlice(Flatten(hs), rest, 32 * i, 32);
  }

  lemma TailAt(front: Bytes, ts: seq<Bytes>, i: nat)
    requires i < |ts|
    ensures var at, e := |front| + StartOf(ts, i), front + Flatten(ts);
      at + |ts[i]| <= |e| && e[at..at + |ts[i]|] == ts[i]
  {
    PartAt(ts, i);
    BackSlice(front, Flatten(ts), StartOf(ts, i), |ts[i]|);
  }

  lemma FrontSlice(a: Bytes, b: Bytes, at: nat, size: nat)
    requires at + size <= |a|
    ensures (a + b)[at..at + size] == a[at..at + size]
  {
  }

  lemma BackSlice(a: Bytes, b: Bytes, at: nat, size: nat)
    requires at + size <= |b|
    ensures (a + b)[|a| + at..|a| + at + size] == b[at..at + size]
  {
  }

  // ----- decoding one value -----

  lemma ModIs(x: int, d: int, k: int)
    requires 0 <= x < d
    ensures (x + d * k) % d == x
  {
    var m := x + d * k;
    var q := m / d;
    assert m == d * q + m % d;
    if q < k {
      MulLe(d, q + 1, k);
    } else if q > k {
      MulLe(d, k + 1, q);
    }
  }

  lemma MulLe(d: int, a: int, b: int)
    requires d >= 0 && a <= b
    ensures d * a <= d * b
  {
  }

  /** Reading the low bits of the 256-bit word gives the signed number back. */
  lemma SignedRoundTrip(bits: nat, n: int)
    requires InRange(bits, n)
    ensures AsSigned(WordOf(bits, n), bits) == n
  {
    if n >= 0 {
      ModIs(n, Pow2(bits), 0);
    } else {
      Pow2Add(bits, 256 - bits);
      TwosComplement(n, Pow2(bits - 1), Pow2(bits), Pow2(256 - bits));
    }
  }

  lemma TwosComplement(n: int, half: int, d: int, k: int)
    requires d == 2 * half && 0 <= n + half && n < 0
    ensures (n + d * k) % d == n + d
  {
    assert d * (k - 1) == d * k - d;
    ModIs(n + d, d, k - 1);
  }

  lemma SignedShown(bits: nat, n: int)
    requires InRange(bits, n)
    ensures SignedArg(WordOf(bits, n), Some(bits)) == Success(SignedDecimal(n))
  {
    SignedRoundTrip(bits, n);
  }

  lemma {:induction false} DecimalRoundTrip(n: nat)
    ensures ParseDecimal(ToDecimal(n)) == Some(n)
    ensures forall i :: 0 <= i < |ToDecimal(n)| ==> IsDigit(ToDecimal(n)[i])
  {
    var s := ToDecimal(n);
    if n < 10 {
    } else {
      DecimalRoundTrip(n / 10);
      assert s[..|s| - 1] == ToDecimal(n / 10);
    }
  }

  /** Following an offset to a length word and the contents after it. */
  predicate Holds(args: Bytes, at: nat, s: Bytes) {
    ReadWordAt(args, at) == Some(|s|) && Subarray(args, at + 32, at + 32 + |s|) == s
  }

  lemma TailRead(u: Utf8, args: Bytes, at: nat, v: Value)
    requires |args| < Pow2(256) && IsDynamic(v)
    requires at + |Tail(u, v)| <= |args| && args[at..at + |Tail(u, v)|] == Tail(u, v)
    ensures Holds(args, at, Payload(u, v))
  {
    TailShape(u, args, at, v);
    WordRead(args, at, |Payload(u, v)|);
  }

  lemma TailShape(u: Utf8, args: Bytes, at: nat, v: Value)
    requires IsDynamic(v) && at + |Tail(u, v)| <= |args| && args[at..at + |Tail(u, v)|] == Tail(u, v)
    ensures var s := Payload(u, v);
      at + 32 + |s| <= |args| && args[at..at + 32] == ToBytes(|s|, 32) && args[at + 32..at + 32 + |s|] == s
  {
    var s, tail := Payload(u, v), Tail(u, v);
    assert tail[0..32] == ToBytes(|s|, 32);
    assert tail[32..32 + |s|] == s;
    SliceOfSlice(args, at, |tail|, 0, 32);
    SliceOfSlice(args, at, |tail|, 32, 32 + |s|);
  }

  lemma SliceOfSlice(args: Bytes, at: nat, size: nat, i: nat, j: nat)
    requires at + size <= |args| && i <= j <= size
    ensures args[at..at + size][i..j] == args[at + i..at + j]
  {
    var x, y := args[at..at + size][i..j], args[at + i..at + j];
    assert |x| == |y| && forall k :: 0 <= k < |x| ==> x[k] == args[at + i + k] == y[k];
  }

  lemma ReadBytes(args: Bytes, at: nat, s: Bytes)
    requires Holds(args, at, s)
    ensures BytesArg(args, at) == HexText(s)
  {
    assert ReadWordAt(args, at).value == |s|;
    assert Subarray(args, at + 32, at + 32 + ReadWordAt(args, at).value) == s;
  }

  lemma ReadText(u: Utf8, args: Bytes, at: nat, text: string)
    requires Faithful(u) && Holds(args, at, u.encode(text))
    ensures ReadAbiString(u, args, at) == Some(text)
  {
  }

  lemma WordRead(args: Bytes, start: nat, n: nat)
    requires start + 32 <= |args| && args[start..start + 32] == ToBytes(n, 32) && n < Pow2(256)
    ensures ReadWordAt(args, start) == Some(n)
  {
    BytesRoundTrip(n, 32);
  }

  /** The word a static value other than bytesN is stored as. */
  function StaticWord(v: Value): nat
    requires Valid(v) && (v.Address? || v.Boolean? || v.Uint? || v.Int?)
  {
    match v
    case Address(a) => a
    case Boolean(b) => if b then 1 else 0
    case Uint(_, n) => n
    case Int(bits, n) => WordOf(bits, n)
  }

  lemma StaticWordFits(v: Value)
    requires Valid(v) && (v.Address? || v.Boolean? || v.Uint? || v.Int?)
    ensures StaticWord(v) < Pow2(256) && Head(v, 0) == ToBytes(StaticWord(v), 32)
  {
    match v {
      case Address(_) => Pow2Grows(160, 256);
      case Boolean(_) => Pow2Grows(1, 256);
      case Uint(bits, _) => Pow2Grows(bits, 256);
      case Int(bits, _) => Pow2Grows(bits - 1, 256);
    }
  }

  lemma DecodeWord(u: Utf8, args: Bytes, index: nat, v: Value)
    requires Valid(v) && (v.Address? || v.Boolean? || v.Uint? || v.Int?)
    requires ReadWordAt(args, 32 * index) == Some(StaticWord(v))
    ensures DecodeKind(u, args, KindFor(v), index) == Success(Render(v))
  {
    if v.Int? {
      SignedShown(v.bits, v.signed);
    }
  }

  lemma FixedSlice(args: Bytes, at: nat, s: Bytes)
    requires |s| <= 32 && at + 32 <= |args| && args[at..at + 32] == s + Zeros(32 - |s|)
    ensures FixedArg(args, at, Some(|s|)) == HexText(s)
  {
    SliceOfSlice(args, at, 32, 0, |s|);
  }

  /** The kind that reads a value back. */
  function KindFor(v: Value): Kind {
    match v
    case Address(_) => AddressKind
    case Boolean(_) => BoolKind
    case Uint(_, _) => OtherKind
    case Int(bits, _) => SignedKind(Some(bits))
    case FixedBytes(s) => FixedKind(Some(|s|))
    case DynamicBytes(_) => BytesKind
    case Text(_) => StringKind
  }

  lemma KindOfName(v: Value)
    ensures KindOf(TypeName(v)) == KindFor(v)
  {
    match v {
      case Address(_) =>
      case Boolean(_) =>
      case Uint(bits, _) => UintName(ToDecimal(bits));
      case Int(bits, _) =>
        IntName(ToDecimal(bits));
        DecimalRoundTrip(bits);
      case FixedBytes(s) =>
        FixedName(ToDecimal(|s|));
        DecimalRoundTrip(|s|);
      case DynamicBytes(_) =>
      case Text(_) =>
    }
  }

  lemma UintName(digits: string)
    ensures KindOf("uint" + digits) == OtherKind
  {
    var s := "uint" + digits;
    assert s[0] == 'u';
  }

  lemma IntName(digits: string)
    requires digits != ""
    ensures KindOf("int" + digits) == SignedKind(ParseDecimal(digits))
  {
    var s := "int" + digits;
    assert s[0] == 'i' && |s| > 3;
    assert "int" <= s && s != "int";
    assert s[3..] == digits;
  }

  lemma FixedName(digits: string)
    requires digits != ""
    ensures KindOf("bytes" + digits) == FixedKind(ParseDecimal(digits))
  {
    var s := "bytes" + digits;
    assert s[0] == 'b' && |s| > 5 && s[1] == 'y';
    assert "bytes" <= s && s != "bytes";
    assert s[5..] == digits;
  }

  lemma DecodeDynamic(u: Utf8, args: Bytes, index: nat, at: nat, v: Value)
    requires Faithful(u) && IsDynamic(v)
    requires ReadWordAt(args, 32 * index) == Some(at) && Holds(args, at, Payload(u, v))
    ensures DecodeKind(u, args, KindFor(v), index) == Success(Render(v))
  {
    if v.Text? {
      ReadText(u, args, at, v.text);
    } else {
      ReadBytes(args, at, v.bytes);
    }
  }

  lemma DecodeStatic(u: Utf8, args: Bytes, index: nat, v: Value)
    requires Valid(v) && !IsDynamic(v)
    requires 32 * index + 32 <= |args| && args[32 * index..32 * index + 32] == Head(v, 0)
    ensures DecodeKind(u, args, KindFor(v), index) == Success(Render(v))
  {
    if v.FixedBytes? {
      FixedSlice(args, 32 * index, v.fixed);
    } else {
      StaticWordFits(v);
      WordRead(args, 32 * index, StaticWord(v));
      DecodeWord(u, args, index, v);
    }
  }

  lemma DynamicAt(u: Utf8, vs: seq<Value>, i: nat)
    requires AllValid(vs) && i < |vs| && IsDynamic(vs[i]) && |Encode(u, vs)| < Pow2(256)
    ensures var args, at := Encode(u, vs), OffsetOf(u, vs, i);
      ReadWordAt(args, 32 * i) == Some(at) && Holds(args, at, Payload(u, vs[i]))
  {
    EncodedAt(u, vs, i);
    OffsetRead(u, Encode(u, vs), i, OffsetOf(u, vs, i), vs[i]);
  }

  lemma OffsetRead(u: Utf8, args: Bytes, index: nat, at: nat, v: Value)
    requires IsDynamic(v) && |args| < Pow2(256)
    requires 32 * index + 32 <= |args| && args[32 * index..32 * index + 32] == ToBytes(at, 32)
    requires at + |Tail(u, v)| <= |args| && args[at..at + |Tail(u, v)|] == Tail(u, v)
    ensures ReadWordAt(args, 32 * index) == Some(at) && Holds(args, at, Payload(u, v))
  {
    WordRead(args, 32 * index, at);
    TailRead(u, args, at, v);
  }

  /** Each value of an encoding is decoded by its own type name. */
  lemma DecodeOne(u: Utf8, vs: seq<Value>, i: nat)
    requires Faithful(u) && AllValid(vs) && i < |vs| && |Encode(u, vs)| < Pow2(256)
    ensures DecodeAbiArg(u, Encode(u, vs), TypeName(vs[i]), i) == Success(Render(vs[i]))
  {
    KindOfName(vs[i]);
    if IsDynamic(vs[i]) {
      DynamicAt(u, vs, i);
      DecodeDynamic(u, Encode(u, vs), i, OffsetOf(u, vs, i), vs[i]);
    } else {
      EncodedAt(u, vs, i);
      DecodeStatic(u, Encode(u, vs), i, vs[i]);
    }
  }

  // ----- the signature -----

  function TypeNames(vs: seq<Value>): (r: seq<string>)
    ensures |r| == |vs|
    ensures forall i :: 0 <= i < |vs| ==> r[i] == TypeName(vs[i])
  {
    seq(|vs|, i requires 0 <= i < |vs| => TypeName(vs[i]))
  }

  function Renders(vs: seq<Value>): (r: seq<string>)
    ensures |r| == |vs|
    ensures forall i :: 0 <= i < |vs| ==> r[i] == Render(vs[i])
  {
    seq(|vs|, i requires 0 <= i < |vs| => Render(vs[i]))
  }

  function Signature(name: string, vs: seq<Value>): string {
    name + "(" + Join(TypeNames(vs), ",") + ")"
  }

  /** Type names are made of lower-case letters and digits, so splitting and trimming leave them alone. */
  predicate Plain(s: string) {
    s != "" && forall i :: 0 <= i < |s| ==> IsDigit(s[i]) || 'a' <= s[i] <= 'z'
  }

  lemma NameIsPlain(v: Value)
    ensures Plain(TypeName(v))
  {
    match v {
      case Uint(bits, _) =>
        DecimalRoundTrip(bits);
        PlainPrefix("uint", ToDecimal(bits));
      case Int(bits, _) =>
        DecimalRoundTrip(bits);
        PlainPrefix("int", ToDecimal(bits));
      case FixedBytes(s) =>
        DecimalRoundTrip(|s|);
        PlainPrefix("bytes", ToDecimal(|s|));
      case Address(_) => PlainLetters("address");
      case Boolean(_) => PlainLetters("bool");
      case DynamicBytes(_) => PlainLetters("bytes");
      case Text(_) => PlainLetters("string");
    }
  }

  predicate LettersFrom(s: string, i: nat)
    decreases |s| - i
  {
    i >= |s| || ('a' <= s[i] <= 'z' && LettersFrom(s, i + 1))
  }

  lemma {:induction false} LettersEverywhere(s: string, i: nat)
    requires LettersFrom(s, i)
    ensures forall k :: i <= k < |s| ==> 'a' <= s[k] <= 'z'
    decreases |s| - i
  {
    if i >= |s| {
    } else {
      LettersEverywhere(s, i + 1);
    }
  }

  lemma PlainLetters(s: string)
    requires s != "" && LettersFrom(s, 0)
    ensures Plain(s)
  {
    LettersEverywhere(s, 0);
  }

  lemma PlainPrefix(s: string, digits: string)
    requires s != "" && LettersFrom(s, 0) && forall i :: 0 <= i < |digits| ==> IsDigit(digits[i])
    ensures Plain(s + digits)
  {
    LettersEverywhere(s, 0);
  }

  lemma PlainSurvives(s: string)
    requires Plain(s)
    ensures Trim(s) == s && ',' !in s
  {
  }

  lemma {:induction false} FirstOpen(name: string, rest: string)
    requires '(' !in name
    ensures IndexOf(name + "(" + rest, '(') == |name|
  {
    var s := name + "(" + rest;
    if name == "" {
    } else {
      assert s[1..] == name[1..] + "(" + rest;
      FirstOpen(name[1..], rest);
    }
  }

  ghost predicate DecodesAt(u: Utf8, args: Bytes, names: seq<string>, shown: seq<string>, i: nat)
    requires i < |names| == |shown|
  {
    DecodeAbiArg(u, args, Trim(names[i]), i) == Success(shown[i])
  }

  lemma {:induction false} DecodeFrom(u: Utf8, args: Bytes, names: seq<string>, shown: seq<string>, i: nat)
    requires |names| == |shown| && i <= |names|
    requires forall k :: 0 <= k < |names| ==> DecodesAt(u, args, names, shown, k)
    ensures DecodeAll(u, args, names[i..], i) == Success(shown[i..])
    decreases |names| - i
  {
    if i >= |names| {
    } else {
      DecodeFrom(u, args, names, shown, i + 1);
      assert DecodesAt(u, args, names, shown, i);
      assert names[i..][1..] == names[i + 1..];
      assert shown[i..] == [shown[i]] + shown[i + 1..];
    }
  }

  lemma DecodeNamed(u: Utf8, vs: seq<Value>)
    requires Faithful(u) && AllValid(vs) && |Encode(u, vs)| < Pow2(256)
    ensures DecodeAll(u, Encode(u, vs), TypeNames(vs), 0) == Success(Renders(vs))
  {
    var args, names, shown := Encode(u, vs), TypeNames(vs), Renders(vs);
    forall k | 0 <= k < |vs| ensures DecodesAt(u, args, names, shown, k) {
      NameIsPlain(vs[k]);
      PlainSurvives(TypeName(vs[k]));
      DecodeOne(u, vs, k);
    }
    DecodeFrom(u, args, names, shown, 0);
    assert names[0..] == names && shown[0..] == shown;
  }

  /**
   * ABI round trip: for every list of values, decoding their head/tail encoding under their signature shows
   * exactly those values.
   */
  lemma AbiRoundTrip(u: Utf8, name: string, vs: seq<Value>)
    requires Faithful(u) && AllValid(vs) && |Encode(u, vs)| < Pow2(256) && '(' !in name
    ensures DecodeAbiArgs(u, Encode(u, vs), Signature(name, vs)) == Renders(vs)
  {
    var types := Join(TypeNames(vs), ",");
    var s := Signature(name, vs);
    assert s == name + "(" + (types + ")");
    FirstOpen(name, types + ")");
    var open, close := |name|, |s| - 1;
    assert LastIndexOf(s, ')') == close;
    if vs == [] {
      assert types == "";
    } else {
      forall i | 0 <= i < |vs| ensures ',' !in TypeNames(vs)[i] {
        NameIsPlain(vs[i]);
        PlainSurvives(TypeName(vs[i]));
      }
      SplitJoin(TypeNames(vs), ',');
      assert s[open + 1..close] == types;
      assert types != "" by { NameIsPlain(vs[0]); }
      DecodeNamed(u, vs);
    }
  }

  /** The `Error(string)` payload decodes to its message. */
  lemma ErrorStringRoundTrip(u: Utf8, message: string)
    requires Faithful(u) && |Encode(u, [Text(message)])| < Pow2(256)
    ensures DecodeAbiString(u, Encode(u, [Text(message)])) == Some(message)
  {
    var vs := [Text(message)];
    DynamicAt(u, vs, 0);
    ReadText(u, Encode(u, vs), OffsetOf(u, vs, 0), message);
  }

  // ----- what is shown determines the value -----

  function HexValue(c: char): nat {
    if '0' <= c <= '9' then c as int - '0' as int
    else if 'a' <= c <= 'f' then c as int - 'a' as int + 10
    else 0
  }

  function ParseHex(s: string): nat {
    if s == "" then 0 else 16 * ParseHex(s[..|s| - 1]) + HexValue(s[|s| - 1])
  }

  lemma {:induction false} HexRoundTrip(n: nat)
    ensures ParseHex(ToHex(n)) == n
  {
    var s := ToHex(n);
    if n >= 16 {
      HexRoundTrip(n / 16);
      assert s[..|s| - 1] == ToHex(n / 16);
    } else {
      assert s[..0] == "";
    }
  }

  lemma {:induction false} ParseHexZero(s: string)
    ensures ParseHex("0" + s) == ParseHex(s)
  {
    var t := "0" + s;
    if s == "" {
      assert t[..0] == "";
    } else {
      assert t[..|t| - 1] == "0" + s[..|s| - 1];
      ParseHexZero(s[..|s| - 1]);
    }
  }

  lemma {:induction false} PaddedHex(s: string, width: nat)
    ensures ParseHex(PadStart(s, width, '0')) == ParseHex(s)
    decreases if |s| < width then width - |s| else 0
  {
    if |s| >= width {
    } else {
      ParseHexZero(s);
      PaddedHex("0" + s, width);
    }
  }

  lemma HexDigitInjective(m: nat, n: nat)
    requires m < 16 && n < 16 && HexDigit(m) == HexDigit(n)
    ensures m == n
  {
    assert HexValue(HexDigit(m)) == m && HexValue(HexDigit(n)) == n;
  }

  lemma {:induction false} HexOfBytesInjective(a: Bytes, b: Bytes)
    requires BytesToHex(a) == BytesToHex(b)
    ensures a == b
  {
    if a == [] || b == [] {
    } else {
      var x, y := BytesToHex(a), BytesToHex(b);
      assert x[0] == y[0] && x[1] == y[1];
      HexDigitInjective(a[0] / 16, b[0] / 16);
      HexDigitInjective(a[0] % 16, b[0] % 16);
      assert x[2..] == BytesToHex(a[1..]) && y[2..] == BytesToHex(b[1..]);
      HexOfBytesInjective(a[1..], b[1..]);
    }
  }

  lemma DecimalInjective(m: nat, n: nat)
    requires ToDecimal(m) == ToDecimal(n)
    ensures m == n
  {
    DecimalRoundTrip(m);
    DecimalRoundTrip(n);
  }

  /** Two values of one type that are shown alike are the same value. */
  lemma RenderIsInjective(v: Value, w: Value)
    requires TypeName(v) == TypeName(w) && Render(v) == Render(w)
    ensures v == w
  {
    KindOfName(v);
    KindOfName(w);
    match v {
      case Address(a) =>
        assert Render(v)[2..] == Render(w)[2..];
        PaddedHex(ToHex(a), 40);
        PaddedHex(ToHex(w.address), 40);
        HexRoundTrip(a);
        HexRoundTrip(w.address);
      case Boolean(b) =>
        assert Render(v)[0] == Render(w)[0];
      case Uint(bits, n) =>
        assert TypeName(v)[4..] == ToDecimal(bits) && TypeName(w)[4..] == ToDecimal(w.bits);
        DecimalInjective(bits, w.bits);
        DecimalInjective(n, w.number);
      case Int(_, n) => SignedInjective(n, w.signed);
      case FixedBytes(s) =>
        assert Render(v)[2..] == Render(w)[2..];
        HexOfBytesInjective(s, w.fixed);
      case DynamicBytes(s) =>
        assert Render(v)[2..] == Render(w)[2..];
        HexOfBytesInjective(s, w.bytes);
      case Text(_) =>
    }
  }

  lemma SignedInjective(m: int, n: int)
    requires SignedDecimal(m) == SignedDecimal(n)
    ensures m == n
  {
    if m < 0 {
      DecimalRoundTrip(if n < 0 then -n else n);
      assert SignedDecimal(m)[0] == '-';
      assert SignedDecimal(m)[1..] == ToDecimal(-m);
      if n < 0 {
        assert SignedDecimal(n)[1..] == ToDecimal(-n);
        DecimalInjective(-m, -n);
      }
    } else if n < 0 {
      SignedInjective(n, m);
    } else {
      DecimalInjective(m, n);
    }
  }
}
