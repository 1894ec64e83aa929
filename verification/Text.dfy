/** Text helpers that follow the JavaScript operations the service uses: `join`, `split` and `trim`. */
module Text {

  type Byte = b: int | 0 <= b < 256
  type Bytes = seq<Byte>

  function Join(parts: seq<string>, separator: string): (r: string)
  {
    if |parts| == 0 then ""
    else if |parts| == 1 then parts[0]
    else parts[0] + separator + Join(parts[1..], separator)
  }

  /** `s.split(c)`: always at least one part, and no part contains the separator. */
  function Split(s: string, c: char): (parts: seq<string>)
    ensures |parts| >= 1
    ensures forall i :: 0 <= i < |parts| ==> c !in parts[i]
  {
    if s == "" then [""]
    else if s[0] == c then [""] + Split(s[1..], c)
    else
      var rest := Split(s[1..], c);
      [[s[0]] + rest[0]] + rest[1..]
  }

  lemma {:induction false} JoinSnoc(parts: seq<string>, last: string, separator: string)
    requires |parts| >= 1
    ensures Join(parts + [last], separator) == Join(parts, separator) + separator + last
  {
    if |parts| == 1 {
    } else {
      JoinSnoc(parts[1..], last, separator);
      assert (parts + [last])[1..] == parts[1..] + [last];
    }
  }

  lemma RestDecides(head: string, x: string, y: string)
    ensures head + x == head + y <==> x == y
  {
    assert (head + x)[|head|..] == x && (head + y)[|head|..] == y;
  }

  lemma MiddleDecides(head: string, x: string, y: string, tail: string)
    ensures head + x + tail == head + y + tail <==> x == y
  {
    var s, t := head + x + tail, head + y + tail;
    assert x == s[|head|..|s| - |tail|];
    assert y == t[|head|..|t| - |tail|];
  }

  /** Two lists that differ at most in one part join to the same text exactly when that part is the same. */
  lemma {:induction false} PartDecides(p: seq<string>, q: seq<string>, k: nat, separator: string)
    requires |p| == |q| && k < |p| && forall j :: 0 <= j < |p| && j != k ==> p[j] == q[j]
    ensures Join(p, separator) == Join(q, separator) <==> p[k] == q[k]
  {
    if |p| == 1 {
    } else if k == 0 {
      assert p[1..] == q[1..];
      var tail := separator + Join(p[1..], separator);
      assert Join(p, separator) == "" + p[0] + tail && Join(q, separator) == "" + q[0] + tail;
      MiddleDecides("", p[0], q[0], tail);
    } else {
      PartDecides(p[1..], q[1..], k - 1, separator);
      RestDecides(p[0] + separator, Join(p[1..], separator), Join(q[1..], separator));
    }
  }

  /** Splitting a separator-free prefix followed by a separator peels off exactly that prefix. */
  lemma {:induction false} SplitPrefix(prefix: string, rest: string, c: char)
    requires c !in prefix
    ensures Split(prefix + [c] + rest, c) == [prefix] + Split(rest, c)
    ensures Split(prefix, c) == [prefix]
  {
    var s := prefix + [c] + rest;
    if prefix != "" {
      SplitPrefix(prefix[1..], rest, c);
      assert s[1..] == prefix[1..] + [c] + rest;
      assert [prefix[0]] + prefix[1..] == prefix;
    } else {
      assert s[1..] == rest;
    }
  }

  /** `split` undoes `join` on every list of parts that avoid the separator. */
  lemma {:induction false} SplitJoin(parts: seq<string>, c: char)
    requires |parts| >= 1
    requires forall i :: 0 <= i < |parts| ==> c !in parts[i]
    ensures Split(Join(parts, [c]), c) == parts
  {
    if |parts| == 1 {
      SplitPrefix(parts[0], "", c);
    } else {
      SplitJoin(parts[1..], c);
      SplitPrefix(parts[0], Join(parts[1..], [c]), c);
      assert [parts[0]] + parts[1..] == parts;
    }
  }

  /** White space and line terminators, as `trim` counts them. */
  predicate IsSpace(c: char) {
    || '\t' <= c <= '\r' || c == ' ' || c == '\U{A0}' || c == '\U{1680}' || '\U{2000}' <= c <= '\U{200A}'
    || c == '\U{2028}' || c == '\U{2029}' || c == '\U{202F}' || c == '\U{205F}' || c == '\U{3000}' || c == '\U{FEFF}'
  }

  /** `s.trim()`. */
  function Trim(s: string): string {
    if s == "" then s
    else if IsSpace(s[0]) then Trim(s[1..])
    else if IsSpace(s[|s| - 1]) then Trim(s[..|s| - 1])
    else s
  }

  lemma TrimKeeps(s: string)
    requires s == "" || (!IsSpace(s[0]) && !IsSpace(s[|s| - 1]))
    ensures Trim(s) == s
  {
  }

  predicate Blank(s: string) {
    forall i :: 0 <= i < |s| ==> IsSpace(s[i])
  }

  lemma {:induction false} TrimPadded(left: string, s: string, right: string)
    requires Blank(left) && Blank(right) && s != "" && !IsSpace(s[0]) && !IsSpace(s[|s| - 1])
    ensures Trim(left + s + right) == s
    decreases |left| + |right|
  {
    var t := left + s + right;
    if left != "" {
      assert t[0] == left[0] && t[1..] == left[1..] + s + right;
      TrimPadded(left[1..], s, right);
    } else if right != "" {
      assert t[0] == s[0] && t[|t| - 1] == right[|right| - 1];
      assert t[..|t| - 1] == left + s + right[..|right| - 1];
      TrimPadded(left, s, right[..|right| - 1]);
    } else {
      assert t == s;
    }
  }

  lemma {:induction false} TrimShortens(s: string)
    ensures |Trim(s)| <= |s|
  {
    if s == "" {
    } else {
      if IsSpace(s[0]) {
        TrimShortens(s[1..]);
      } else if IsSpace(s[|s| - 1]) {
        TrimShortens(s[..|s| - 1]);
      }
    }
  }

  /** Every part is shorter than the text, as soon as there are two parts. */
  lemma {:induction false} SplitShortens(s: string, c: char, i: nat)
    requires i < |Split(s, c)|
    ensures |Split(s, c)[i]| <= |s|
    ensures |Split(s, c)| >= 2 ==> |Split(s, c)[i]| < |s|
  {
    if s == "" {
    } else {
      if s[0] == c {
        if i > 0 { SplitShortens(s[1..], c, i - 1); }
      } else {
        SplitShortens(s[1..], c, i);
      }
    }
  }
}
