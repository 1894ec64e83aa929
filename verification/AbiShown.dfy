/**
 * What the contract-revert decoder shows: each text against an independent reading of it, encodings that were cut
 * short, and signatures with spaces in them.
 */
module AbiShown {
  import opened AbiReader
  import opened Text
  import opened Wrappers

  // ----- hex -----

  predicate LowerHex(s: string) {
    forall i :: 0 <= i < |s| ==> '0' <= s[i] <= '9' || 'a' <= s[i] <= 'f'
  }

  lemma {:induction false} HexSnoc(s: Bytes, b: Byte)
    ensures BytesToHex(s + [b]) == BytesToHex(s) + [HexDigit(b / 16), HexDigit(b % 16)]
  {
    if s == [] {
      assert s + [b] == [b] && [b][1..] == [];
    } else {
      assert (s + [b])[1..] == s[1..] + [b];
      HexSnoc(s[1..], b);
    }
  }

  lemma TwoDigits(t: string, b: Byte)
    ensures ParseHex(t + [HexDigit(b / 16), HexDigit(b % 16)]) == 256 * ParseHex(t) + b
  {
    var one := t + [HexDigit(b / 16)];
    var two := t + [HexDigit(b / 16), HexDigit(b % 16)];
    assert two[..|two| - 1] == one && one[..|one| - 1] == t;
    assert HexValue(HexDigit(b / 16)) == b / 16 && HexValue(HexDigit(b % 16)) == b % 16;
  }

  /** Two lower-case digits a byte, most significant first: the hex text is the big-endian number. */
  lemma {:induction false} HexOfBytes(s: Bytes)
    ensures |BytesToHex(s)| == 2 * |s| && LowerHex(BytesToHex(s)) && ParseHex(BytesToHex(s)) == BigEndian(s)
  {
    if s == [] {
    } else {
      var front, last := s[..|s| - 1], s[|s| - 1];
      assert s == front + [last];
      HexOfBytes(front);
      HexSnoc(front, last);
      TwoDigits(BytesToHex(front), last);
    }
  }

  lemma {:induction false} HexFits(n: nat, digits: nat)
    requires digits >= 1 && n < Pow2(4 * digits)
    ensures 1 <= |ToHex(n)| <= digits && LowerHex(ToHex(n))
  {
    assert Pow2(4) == 16;
    if digits == 1 || n < 16 {
    } else {
      Pow2Add(4, 4 * (digits - 1));
      HexFits(n / 16, digits - 1);
    }
  }

  lemma {:induction false} PadStartShape(s: string, width: nat)
    requires LowerHex(s) && |s| <= width
    ensures |PadStart(s, width, '0')| == width && LowerHex(PadStart(s, width, '0'))
    decreases width - |s|
  {
    if |s| == width {
    } else {
      PadStartShape(['0'] + s, width);
    }
  }

  /** An address is "0x" and exactly forty hex digits, which are its number. */
  lemma AddressShown(a: nat)
    requires a < Pow2(160)
    ensures var t := AddressArg(a);
      |t| == 42 && t[..2] == "0x" && LowerHex(t[2..]) && ParseHex(t[2..]) == a
  {
    HexFits(a, 40);
    PadStartShape(ToHex(a), 40);
    PaddedHex(ToHex(a), 40);
    HexRoundTrip(a);
    assert AddressArg(a)[2..] == PadStart(ToHex(a), 40, '0');
  }

  lemma HexTextShown(s: Bytes)
    ensures var t := HexText(s);
      |t| == 2 + 2 * |s| && t[..2] == "0x" && LowerHex(t[2..]) && ParseHex(t[2..]) == BigEndian(s)
  {
    HexOfBytes(s);
    assert HexText(s)[2..] == BytesToHex(s);
  }

  // ----- numbers -----

  /** A decimal text without superfluous zeros. */
  predicate Canonical(s: string) {
    && s != "" && (forall i :: 0 <= i < |s| ==> IsDigit(s[i]))
    && (|s| > 1 ==> s[0] != '0')
  }

  lemma {:induction false} DecimalShown(n: nat)
    ensures Canonical(ToDecimal(n)) && ParseDecimal(ToDecimal(n)) == Some(n)
    ensures n > 0 ==> ToDecimal(n)[0] != '0'
  {
    DecimalRoundTrip(n);
    if n < 10 {
    } else {
      DecimalShown(n / 10);
      assert ToDecimal(n)[0] == ToDecimal(n / 10)[0];
    }
  }

  /** A value as its text is read independently of the printer. */
  predicate Reads(v: Value, t: string) {
    match v
    case Address(a) => |t| == 42 && t[..2] == "0x" && LowerHex(t[2..]) && ParseHex(t[2..]) == a
    case Boolean(b) => t == if b then "true" else "false"
    case Uint(_, n) => Canonical(t) && ParseDecimal(t) == Some(n)
    case Int(_, n) =>
      if n >= 0 then Canonical(t) && ParseDecimal(t) == Some(n)
      else t != "" && t[0] == '-' && Canonical(t[1..]) && ParseDecimal(t[1..]) == Some(-n)
    case FixedBytes(s) =>
      |t| == 2 + 2 * |s| && t[..2] == "0x" && LowerHex(t[2..]) && ParseHex(t[2..]) == BigEndian(s)
    case DynamicBytes(s) =>
      |t| == 2 + 2 * |s| && t[..2] == "0x" && LowerHex(t[2..]) && ParseHex(t[2..]) == BigEndian(s)
    case Text(s) => t == s
  }

  /** What the service shows of a value reads as that value. */
  lemma RenderReads(v: Value)
    requires Valid(v)
    ensures Reads(v, Render(v))
  {
    match v {
      case Address(a) => AddressShown(a);
      case Boolean(_) =>
      case Uint(_, n) => DecimalShown(n);
      case Int(_, n) =>
        DecimalShown(if n < 0 then -n else n);
        assert n < 0 ==> SignedDecimal(n)[1..] == ToDecimal(-n);
      case FixedBytes(s) => HexTextShown(s);
      case DynamicBytes(s) => HexTextShown(s);
      case Text(_) =>
    }
  }

  /** Each argument of an encoding is shown as a text that reads as its value. */
  lemma ShownReads(u: Utf8, name: string, vs: seq<Value>, i: nat)
    requires Faithful(u) && AllValid(vs) && |Encode(u, vs)| < Pow2(256) && '(' !in name && i < |vs|
    ensures var shown := DecodeAbiArgs(u, Encode(u, vs), Signature(name, vs)); |shown| == |vs| && Reads(vs[i], shown[i])
  {
    AbiRoundTrip(u, name, vs);
    RenderReads(vs[i]);
  }

  // ----- encodings that were cut short -----

  lemma WordOfPrefix(args: Bytes, k: nat, start: nat)
    requires k <= |args|
    ensures ReadWordAt(args[..k], start) == if start + 32 <= k then ReadWordAt(args, start) else None
  {
    if start + 32 <= k {
      assert args[..k][start..start + 32] == args[start..start + 32];
    }
  }

  /** A dynamic value whose tail starts at `at`, when only the first `k` bytes arrive. */
  function DynamicShown(u: Utf8, v: Value, i: nat, at: nat, k: nat): string
    requires IsDynamic(v)
  {
    if k < 32 * i + 32 then "0x"
    else match v
      case Text(s) => if k < at + 32 + |u.encode(s)| then "" else s
      case DynamicBytes(s) =>
        if k < at + 32 then "0x" else if k < at + 32 + |s| then HexText(s[..k - at - 32]) else HexText(s)
  }

  /** What is shown of value `i` when only the first `k` bytes arrive. */
  function ShownOfPrefix(u: Utf8, vs: seq<Value>, i: nat, k: nat): string
    requires i < |vs|
  {
    if IsDynamic(vs[i]) then DynamicShown(u, vs[i], i, OffsetOf(u, vs, i), k)
    else if k < 32 * i + 32 then "0x" else Render(vs[i])
  }

  /**
   * A payload that was cut short: a value whose word is missing shows as "0x", a text whose contents are incomplete as
   * nothing, byte strings as far as they go, and every other value in full.
   */
  lemma PrefixRoundTrip(u: Utf8, vs: seq<Value>, i: nat, k: nat)
    requires Faithful(u) && AllValid(vs) && i < |vs| && |Encode(u, vs)| < Pow2(256) && k <= |Encode(u, vs)|
    ensures DecodeAbiArg(u, Encode(u, vs)[..k], TypeName(vs[i]), i) == Success(ShownOfPrefix(u, vs, i, k))
  {
    KindOfName(vs[i]);
    if IsDynamic(vs[i]) {
      DynamicAt(u, vs, i);
      DynamicPrefix(u, Encode(u, vs), k, i, OffsetOf(u, vs, i), vs[i]);
    } else {
      EncodedAt(u, vs, i);
      StaticPrefix(u, Encode(u, vs), k, i, vs[i]);
    }
  }

  lemma StaticPrefix(u: Utf8, args: Bytes, k: nat, i: nat, v: Value)
    requires Valid(v) && !IsDynamic(v) && k <= |args|
    requires 32 * i + 32 <= |args| && args[32 * i..32 * i + 32] == Head(v, 0)
    ensures DecodeKind(u, args[..k], KindFor(v), i) == Success(if k < 32 * i + 32 then "0x" else Render(v))
  {
    if k >= 32 * i + 32 {
      assert args[..k][32 * i..32 * i + 32] == args[32 * i..32 * i + 32];
      DecodeStatic(u, args[..k], i, v);
    }
  }

  lemma DynamicPrefix(u: Utf8, args: Bytes, k: nat, i: nat, at: nat, v: Value)
    requires Faithful(u) && IsDynamic(v) && k <= |args|
    requires ReadWordAt(args, 32 * i) == Some(at) && Holds(args, at, Payload(u, v))
    ensures DecodeKind(u, args[..k], KindFor(v), i) == Success(DynamicShown(u, v, i, at, k))
  {
    WordOfPrefix(args, k, 32 * i);
    if v.Text? {
      TextOfPrefix(u, args, k, at, u.encode(v.text));
    } else {
      BytesOfPrefix(args, k, at, v.bytes);
    }
  }

  lemma BodyOfPrefix(args: Bytes, k: nat, at: nat, s: Bytes)
    requires Holds(args, at, s) && at + 32 <= k <= |args|
    ensures Subarray(args[..k], at + 32, at + 32 + |s|) == if k < at + 32 + |s| then s[..k - at - 32] else s
  {
    assert s == args[at + 32..at + 32 + |s|];
    if k < at + 32 + |s| {
      assert args[..k][at + 32..k] == s[..k - at - 32];
    } else {
      assert args[..k][at + 32..at + 32 + |s|] == s;
    }
  }

  lemma TextOfPrefix(u: Utf8, args: Bytes, k: nat, at: nat, s: Bytes)
    requires Holds(args, at, s) && k <= |args|
    ensures ReadAbiString(u, args[..k], at) == if k < at + 32 + |s| then None else Some(u.decode(s))
  {
    WordOfPrefix(args, k, at);
    if at + 32 <= k {
      BodyOfPrefix(args, k, at, s);
    }
  }

  lemma BytesShown(args: Bytes, at: nat, n: nat, body: Bytes)
    requires ReadWordAt(args, at) == Some(n) && Subarray(args, at + 32, at + 32 + n) == body
    ensures BytesArg(args, at) == HexText(body)
  {
  }

  lemma BytesOfPrefix(args: Bytes, k: nat, at: nat, s: Bytes)
    requires Holds(args, at, s) && k <= |args|
    ensures BytesArg(args[..k], at) ==
      if k < at + 32 then "0x" else if k < at + 32 + |s| then HexText(s[..k - at - 32]) else HexText(s)
  {
    WordOfPrefix(args, k, at);
    if at + 32 <= k {
      BodyOfPrefix(args, k, at, s);
      BytesShown(args[..k], at, |s|, if k < at + 32 + |s| then s[..k - at - 32] else s);
    }
  }

  // ----- signatures with spaces -----

  /** A signature with blanks around its types and anything without a closing parenthesis after its own. */
  function SpacedSignature(name: string, names: seq<string>, rest: string): string {
    name + "(" + Join(names, ",") + ")" + rest
  }

  ghost predicate Spaced(vs: seq<Value>, names: seq<string>) {
    |names| == |vs| && forall i :: 0 <= i < |vs| ==> SpacedName(vs[i], names[i])
  }

  ghost predicate SpacedName(v: Value, name: string) {
    exists left, right :: Blank(left) && Blank(right) && name == left + TypeName(v) + right
  }

  lemma NoCommaAround(left: string, s: string, right: string)
    requires Blank(left) && Blank(right) && ',' !in s
    ensures ',' !in left + s + right
  {
    assert forall i :: 0 <= i < |left| ==> left[i] != ',';
    assert forall i :: 0 <= i < |right| ==> right[i] != ',';
  }

  lemma SpacedNameSurvives(v: Value, name: string)
    requires SpacedName(v, name)
    ensures Trim(name) == TypeName(v) && ',' !in name && name != ""
  {
    var left, right :| Blank(left) && Blank(right) && name == left + TypeName(v) + right;
    NameIsPlain(v);
    PlainInBlanks(left, TypeName(v), right);
  }

  lemma PlainInBlanks(left: string, s: string, right: string)
    requires Plain(s) && Blank(left) && Blank(right)
    ensures Trim(left + s + right) == s && ',' !in left + s + right && left + s + right != ""
  {
    PlainSurvives(s);
    TrimPadded(left, s, right);
    NoCommaAround(left, s, right);
  }

  lemma {:induction false} LastClose(front: string, rest: string)
    requires ')' !in rest
    ensures LastIndexOf(front + ")" + rest, ')') == |front|
    decreases |rest|
  {
    var s := front + ")" + rest;
    if rest == "" {
      assert s[|s| - 1] == ')';
    } else {
      assert s[|s| - 1] == rest[|rest| - 1];
      assert s[..|s| - 1] == front + ")" + rest[..|rest| - 1];
      LastClose(front, rest[..|rest| - 1]);
    }
  }

  lemma DecodeSpaced(u: Utf8, vs: seq<Value>, names: seq<string>)
    requires Faithful(u) && AllValid(vs) && |Encode(u, vs)| < Pow2(256) && Spaced(vs, names)
    ensures DecodeAll(u, Encode(u, vs), names, 0) == Success(Renders(vs))
  {
    var args, shown := Encode(u, vs), Renders(vs);
    forall k | 0 <= k < |vs| ensures DecodesAt(u, args, names, shown, k) {
      assert SpacedName(vs[k], names[k]);
      SpacedNameSurvives(vs[k], names[k]);
      DecodeOne(u, vs, k);
    }
    DecodeFrom(u, args, names, shown, 0);
    assert names[0..] == names && shown[0..] == shown;
  }

  lemma SignatureParts(name: string, types: string, rest: string)
    requires '(' !in name && ')' !in rest
    ensures var s := name + "(" + types + ")" + rest;
      && IndexOf(s, '(') == |name| && LastIndexOf(s, ')') == |name| + 1 + |types|
      && s[|name| + 1..|name| + 1 + |types|] == types
  {
    var s := name + "(" + types + ")" + rest;
    assert s == name + "(" + (types + ")" + rest);
    FirstOpen(name, types + ")" + rest);
    LastClose(name + "(" + types, rest);
  }

  lemma SpacedTypes(vs: seq<Value>, names: seq<string>)
    requires Spaced(vs, names) && vs != []
    ensures Split(Join(names, ","), ',') == names && Join(names, ",") != ""
  {
    forall i | 0 <= i < |names| ensures ',' !in names[i] && names[i] != "" {
      assert SpacedName(vs[i], names[i]);
      SpacedNameSurvives(vs[i], names[i]);
    }
    assert "," == [','];
    SplitJoin(names, ',');
    assert names[0] != "";
  }

  lemma DecodeBetween(u: Utf8, args: Bytes, s: string, open: nat, close: nat, names: seq<string>, shown: seq<string>)
    requires open + 1 < close < |s| && IndexOf(s, '(') == open && LastIndexOf(s, ')') == close
    requires Split(s[open + 1..close], ',') == names && DecodeAll(u, args, names, 0) == Success(shown)
    ensures DecodeAbiArgs(u, args, s) == shown
  {
  }

  lemma SplitsAs(name: string, names: seq<string>, rest: string)
    requires '(' !in name && ')' !in rest && Split(Join(names, ","), ',') == names && Join(names, ",") != ""
    ensures var s, open := SpacedSignature(name, names, rest), |name|;
      var close := open + 1 + |Join(names, ",")|;
      && open + 1 < close < |s| && IndexOf(s, '(') == open && LastIndexOf(s, ')') == close
      && Split(s[open + 1..close], ',') == names
  {
    SignatureParts(name, Join(names, ","), rest);
  }

  /** The round trip does not depend on the spacing of the signature, nor on what follows it. */
  lemma SpacedRoundTrip(u: Utf8, name: string, vs: seq<Value>, names: seq<string>, rest: string)
    requires Faithful(u) && AllValid(vs) && |Encode(u, vs)| < Pow2(256) && vs != [] && Spaced(vs, names)
    requires '(' !in name && ')' !in rest
    ensures DecodeAbiArgs(u, Encode(u, vs), SpacedSignature(name, names, rest)) == Renders(vs)
  {
    SpacedTypes(vs, names);
    DecodeSpaced(u, vs, names);
    DecodeNames(u, Encode(u, vs), name, names, rest, Renders(vs));
  }

  lemma DecodeNames(u: Utf8, args: Bytes, name: string, names: seq<string>, rest: string, shown: seq<string>)
    requires '(' !in name && ')' !in rest && Split(Join(names, ","), ',') == names && Join(names, ",") != ""
    requires DecodeAll(u, args, names, 0) == Success(shown)
    ensures DecodeAbiArgs(u, args, SpacedSignature(name, names, rest)) == shown
  {
    SplitsAs(name, names, rest);
    DecodeBetween(u, args, SpacedSignature(name, names, rest), |name|, |name| + 1 + |Join(names, ",")|, names, shown);
  }

  // ----- types that cannot be read -----

  lemma {:induction false} OneFailsAll(u: Utf8, args: Bytes, names: seq<string>, index: nat, k: nat)
    requires k < |names| && DecodeAbiArg(u, args, Trim(names[k]), index + k).Failure?
    ensures DecodeAll(u, args, names, index).Failure?
    decreases k
  {
    if k == 0 {
    } else {
      OneFailsAll(u, args, names[1..], index + 1, k - 1);
    }
  }

  /**
   * A signed type whose width is not a number yields no arguments at all; a missing width means 256 bits, and int0 shows
   * as -1 whatever the word is.
   */
  lemma BadWidth(u: Utf8, args: Bytes, names: seq<string>, k: nat, width: string)
    requires k < |names| && Trim(names[k]) == "int" + width && 32 * k + 32 <= |args|
    ensures width != "" && ParseDecimal(width).None? ==> DecodeAll(u, args, names, 0).Failure?
    ensures width == "" ==>
      DecodeAbiArg(u, args, Trim(names[k]), k) == Success(SignedDecimal(AsSigned(BigEndian(args[32 * k..32 * k + 32]), 256)))
    ensures width == "0" ==> DecodeAbiArg(u, args, Trim(names[k]), k) == Success("-1")
  {
    if width == "" {
      assert "int" + width == "int";
    } else {
      IntName(width);
      if width == "0" {
        assert ParseDecimal(width) == Some(0);
        assert SignedDecimal(-1) == "-1";
      }
      if ParseDecimal(width).None? {
        OneFailsAll(u, args, names, 0, k);
      }
    }
  }
}
