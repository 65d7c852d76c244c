/**
 * String handling shared by the backend (Python) and the client (JavaScript):
 * whitespace stripping as each language defines it, ASCII case folding,
 * splitting on a separator, decimal and hexadecimal text.
 */
module Text {
  import opened Wrappers

  type byte = b: int | 0 <= b < 256

  // ---------------------------------------------------------------- whitespace

  /** Whitespace as Python's `str.strip()` and `int()` see it (`str.isspace`). */
  predicate IsPySpace(c: char) {
    var n := c as int;
    (9 <= n <= 13) || (0x1C <= n <= 0x20) || n == 0x85 || n == 0xA0 || n == 0x1680
    || (0x2000 <= n <= 0x200A) || n == 0x2028 || n == 0x2029 || n == 0x202F
    || n == 0x205F || n == 0x3000
  }

  /** Whitespace and line terminators as JavaScript's `String.prototype.trim` sees them. */
  predicate IsJsSpace(c: char) {
    var n := c as int;
    (9 <= n <= 13) || n == 0x20 || n == 0xA0 || n == 0x1680 || (0x2000 <= n <= 0x200A)
    || n == 0x2028 || n == 0x2029 || n == 0x202F || n == 0x205F || n == 0x3000 || n == 0xFEFF
  }

  /** The whitespace `bytes.fromhex` skips between byte pairs (ASCII only). */
  predicate IsAsciiSpace(c: char) {
    c == ' ' || c == '\t' || c == '\n' || c == '\r' || c as int == 0x0B || c as int == 0x0C
  }

  /** The two notions of whitespace the code base strips by. */
  datatype Whitespace = Python | JavaScript

  predicate IsSpace(w: Whitespace, c: char) {
    match w
    case Python => IsPySpace(c)
    case JavaScript => IsJsSpace(c)
  }

  /** Drops the longest prefix made of whitespace characters. */
  function TrimStart(s: string, w: Whitespace): (r: string)
    ensures |r| <= |s|
  {
    if |s| > 0 && IsSpace(w, s[0]) then TrimStart(s[1..], w) else s
  }

  /** Drops the longest suffix made of whitespace characters. */
  function TrimEnd(s: string, w: Whitespace): (r: string)
    ensures |r| <= |s|
  {
    if |s| > 0 && IsSpace(w, s[|s| - 1]) then TrimEnd(s[..|s| - 1], w) else s
  }

  /** Both ends trimmed. */
  function Strip(s: string, w: Whitespace): (r: string)
    ensures |r| <= |s|
  {
    TrimEnd(TrimStart(s, w), w)
  }

  /** Python's `s.strip()`. */
  function PyStrip(s: string): string { Strip(s, Python) }

  /** JavaScript's `s.trim()`. */
  function JsTrim(s: string): string { Strip(s, JavaScript) }

  /** What is left is a suffix starting with a non-space; what was cut is all space. */
  lemma {:induction false} TrimStartFacts(s: string, w: Whitespace)
    ensures var r := TrimStart(s, w);
            r == s[|s| - |r|..]
            && (r == [] || !IsSpace(w, r[0]))
            && (forall i :: 0 <= i < |s| - |r| ==> IsSpace(w, s[i]))
  {
    if |s| > 0 && IsSpace(w, s[0]) {
      TrimStartFacts(s[1..], w);
      var r := TrimStart(s[1..], w);
      assert s[1..][|s| - 1 - |r|..] == s[|s| - |r|..];
      forall i | 0 < i < |s| - |r| ensures IsSpace(w, s[i]) { assert s[i] == s[1..][i - 1]; }
    }
  }

  lemma {:induction false} TrimEndFacts(s: string, w: Whitespace)
    ensures var r := TrimEnd(s, w);
            r == s[..|r|]
            && (r == [] || !IsSpace(w, r[|r| - 1]))
            && (forall i :: |r| <= i < |s| ==> IsSpace(w, s[i]))
  {
    if |s| > 0 && IsSpace(w, s[|s| - 1]) {
      TrimEndFacts(s[..|s| - 1], w);
      var r := TrimEnd(s[..|s| - 1], w);
      assert s[..|s| - 1][..|r|] == s[..|r|];
      forall i | |r| <= i < |s| - 1 ensures IsSpace(w, s[i]) { assert s[i] == s[..|s| - 1][i]; }
    }
  }

  /** Both ends trimmed: a slice of `s` whose ends are not whitespace; everything cut off is. */
  lemma {:induction false} StripFacts(s: string, w: Whitespace)
    ensures var r := Strip(s, w);
            var i := |s| - |TrimStart(s, w)|;
            i + |r| <= |s| && r == s[i..i + |r|]
            && (forall k :: 0 <= k < i ==> IsSpace(w, s[k]))
            && (forall k :: i + |r| <= k < |s| ==> IsSpace(w, s[k]))
            && (r == [] || (!IsSpace(w, r[0]) && !IsSpace(w, r[|r| - 1])))
  {
    var t := TrimStart(s, w);
    TrimStartFacts(s, w);
    TrimEndFacts(t, w);
    var r := TrimEnd(t, w);
    var i := |s| - |t|;
    assert t == s[i..];
    assert r == t[..|r|];
    assert r == s[i..i + |r|];
    forall k | i + |r| <= k < |s| ensures IsSpace(w, s[k]) {
      assert s[k] == t[k - i];
      assert |r| <= k - i < |t|;
    }
  }

  /** Text whose ends are not whitespace is its own strip. */
  lemma StripUnchanged(s: string, w: Whitespace)
    requires s == [] || (!IsSpace(w, s[0]) && !IsSpace(w, s[|s| - 1]))
    ensures Strip(s, w) == s
  {
    assert TrimStart(s, w) == s;
    assert TrimEnd(s, w) == s;
  }

  lemma StripIdempotent(s: string, w: Whitespace)
    ensures Strip(Strip(s, w), w) == Strip(s, w)
  {
    StripFacts(s, w);
    StripUnchanged(Strip(s, w), w);
  }

  // ---------------------------------------------------------------- case

  function LowerChar(c: char): char {
    if 'A' <= c <= 'Z' then (c as int + 32) as char else c
  }

  /** ASCII lower-casing (SQLite's `lower()`; Python's `str.lower` and JavaScript's
      `toLowerCase` on ASCII text). */
  function Lower(s: string): (r: string)
    ensures |r| == |s|
    ensures forall i :: 0 <= i < |s| ==> r[i] == LowerChar(s[i])
  {
    if |s| == 0 then "" else [LowerChar(s[0])] + Lower(s[1..])
  }

  /** Lower-casing twice is lower-casing once. */
  lemma LowerIdempotent(s: string)
    ensures Lower(Lower(s)) == Lower(s)
  {
    assert forall i :: 0 <= i < |s| ==> LowerChar(LowerChar(s[i])) == LowerChar(s[i]);
  }

  // ---------------------------------------------------------------- search

  predicate StartsWith(s: string, prefix: string) {
    |prefix| <= |s| && s[..|prefix|] == prefix
  }

  /** Python's `sub in s`, JavaScript's `s.includes(sub)`. */
  predicate Contains(s: string, sub: string)
    decreases |s|
  {
    StartsWith(s, sub) || (|s| > 0 && Contains(s[1..], sub))
  }

  /** Index of the first `c` in `s`, or `|s|` when there is none. */
  function IndexOf(s: string, c: char): (i: nat)
    ensures i <= |s|
    ensures i < |s| ==> s[i] == c
    ensures c !in s[..i]
    ensures i == |s| <==> c !in s
  {
    if |s| == 0 then 0 else if s[0] == c then 0 else 1 + IndexOf(s[1..], c)
  }

  // ---------------------------------------------------------------- split

  /** Python's `s.split(sep)` for a one-character separator: never empty, and an
      empty string or a trailing separator gives an empty last part. */
  function Split(s: string, sep: char): (parts: seq<string>)
    ensures |parts| >= 1
    ensures forall i :: 0 <= i < |parts| ==> sep !in parts[i]
    decreases |s|
  {
    if |s| == 0 then [""]
    else if s[0] == sep then [""] + Split(s[1..], sep)
    else
      var rest := Split(s[1..], sep);
      [[s[0]] + rest[0]] + rest[1..]
  }

  /** `sep.join(parts)`. */
  function Join(parts: seq<string>, sep: char): string {
    if |parts| == 0 then ""
    else if |parts| == 1 then parts[0]
    else parts[0] + [sep] + Join(parts[1..], sep)
  }

  lemma {:induction false} JoinSplit(s: string, sep: char)
    ensures Join(Split(s, sep), sep) == s
    decreases |s|
  {
    if |s| == 0 {
    } else if s[0] == sep {
      JoinSplit(s[1..], sep);
      assert s == [sep] + s[1..];
    } else {
      JoinSplit(s[1..], sep);
      var rest := Split(s[1..], sep);
      if |rest| == 1 {
      } else {
        assert Join(rest, sep) == rest[0] + [sep] + Join(rest[1..], sep);
        assert s == [s[0]] + s[1..];
      }
    }
  }

  lemma {:induction false} SplitAfter(a: string, rest: string, sep: char)
    requires sep !in a
    ensures Split(a + [sep] + rest, sep) == [a] + Split(rest, sep)
    decreases |a|
  {
    if |a| == 0 {
      assert a + [sep] + rest == [sep] + rest;
    } else {
      SplitAfter(a[1..], rest, sep);
      assert (a + [sep] + rest)[1..] == a[1..] + [sep] + rest;
      assert [a[0]] + a[1..] == a;
    }
  }

  lemma {:induction false} SplitWithout(a: string, sep: char)
    requires sep !in a
    ensures Split(a, sep) == [a]
    decreases |a|
  {
    if |a| > 0 {
      SplitWithout(a[1..], sep);
      assert [a[0]] + a[1..] == a;
    }
  }

  /** Splitting a join gives the parts back when no part holds the separator. */
  lemma {:induction false} SplitJoin(parts: seq<string>, sep: char)
    requires |parts| >= 1
    requires forall i :: 0 <= i < |parts| ==> sep !in parts[i]
    ensures Split(Join(parts, sep), sep) == parts
  {
    if |parts| == 1 {
      SplitWithout(parts[0], sep);
    } else {
      SplitJoin(parts[1..], sep);
      SplitAfter(parts[0], Join(parts[1..], sep), sep);
      assert [parts[0]] + parts[1..] == parts;
    }
  }

  /** The first part of a split is everything before the first separator. */
  lemma {:induction false} SplitFirst(s: string, sep: char)
    ensures Split(s, sep)[0] == s[..IndexOf(s, sep)]
    decreases |s|
  {
    if |s| > 0 && s[0] != sep {
      SplitFirst(s[1..], sep);
    }
  }

  // ---------------------------------------------------------------- decimal

  predicate IsDigit(c: char) { '0' <= c <= '9' }

  function DigitValue(c: char): (d: nat)
    requires IsDigit(c)
    ensures d < 10
  {
    c as int - '0' as int
  }

  function DigitChar(d: nat): (c: char)
    requires d < 10
    ensures IsDigit(c) && DigitValue(c) == d
  {
    ('0' as int + d) as char
  }

  predicate AllDigits(s: string) { forall i :: 0 <= i < |s| ==> IsDigit(s[i]) }

  /** The number a string of decimal digits denotes. */
  function DigitsValue(s: string): nat
    requires AllDigits(s)
  {
    if |s| == 0 then 0 else 10 * DigitsValue(s[..|s| - 1]) + DigitValue(s[|s| - 1])
  }

  /** Python's `str(n)` for a natural number: decimal digits, no leading zero. */
  function NatToDecimal(n: nat): (r: string)
    ensures |r| >= 1 && AllDigits(r)
    ensures r[0] == '0' ==> r == "0"
  {
    if n < 10 then [DigitChar(n)] else NatToDecimal(n / 10) + [DigitChar(n % 10)]
  }

  /** Python's `str(i)` for any integer. */
  function IntToDecimal(i: int): string {
    if i < 0 then "-" + NatToDecimal(-i) else NatToDecimal(i)
  }

  lemma {:induction false} DigitsOfDecimal(n: nat)
    ensures DigitsValue(NatToDecimal(n)) == n
  {
    if n >= 10 {
      DigitsOfDecimal(n / 10);
      var r := NatToDecimal(n);
      assert r[..|r| - 1] == NatToDecimal(n / 10);
    }
  }

  /** The digit text Python's `int()` accepts after the sign: ASCII digits,
      with single underscores allowed between two digits. */
  predicate WellFormedDigits(s: string) {
    |s| > 0 && IsDigit(s[0]) && IsDigit(s[|s| - 1])
    && (forall i :: 0 <= i < |s| ==> IsDigit(s[i]) || s[i] == '_')
    && (forall i :: 0 <= i < |s| - 1 ==> s[i] == '_' ==> s[i + 1] != '_')
  }

  function RemoveUnderscores(s: string): (r: string)
    requires forall i :: 0 <= i < |s| ==> IsDigit(s[i]) || s[i] == '_'
    ensures AllDigits(r)
  {
    if |s| == 0 then "" else (if s[0] == '_' then "" else [s[0]]) + RemoveUnderscores(s[1..])
  }

  /** Python's `int(s)` on a str, or None where it raises ValueError. */
  function ParsePyInt(s: string): Option<int> {
    ParseSigned(PyStrip(s))
  }

  /** An optional sign followed by well-formed digits. */
  function ParseSigned(t: string): Option<int> {
    if |t| > 0 && (t[0] == '+' || t[0] == '-') then
      if WellFormedDigits(t[1..]) then
        var v: int := DigitsValue(RemoveUnderscores(t[1..]));
        Some(if t[0] == '-' then -v else v)
      else None
    else if WellFormedDigits(t) then Some(DigitsValue(RemoveUnderscores(t)))
    else None
  }

  lemma {:induction false} RemoveUnderscoresOfDigits(s: string)
    requires AllDigits(s)
    ensures RemoveUnderscores(s) == s
  {
    if |s| > 0 {
      RemoveUnderscoresOfDigits(s[1..]);
      assert [s[0]] + s[1..] == s;
    }
  }

  /** Plain digits are read as their value. */
  lemma {:induction false} ParseDigits(d: string)
    requires |d| > 0 && AllDigits(d)
    ensures ParsePyInt(d) == Some(DigitsValue(d))
  {
    assert PyStrip(d) == d by { StripUnchanged(d, Python); }
    assert ParseSigned(d) == Some(DigitsValue(d)) by { ParsePlain(d); }
  }

  lemma {:induction false} ParsePlain(d: string)
    requires |d| > 0 && AllDigits(d)
    ensures ParseSigned(d) == Some(DigitsValue(d))
  {
    RemoveUnderscoresOfDigits(d);
  }

  lemma ParseStripped(s: string)
    requires PyStrip(s) == s
    ensures ParsePyInt(s) == ParseSigned(s)
  {
  }

  /** Digits after a minus sign are read as the negated value. */
  lemma {:induction false} ParseMinusDigits(r: string)
    requires |r| > 1 && r[0] == '-' && AllDigits(r[1..])
    ensures ParsePyInt(r) == Some(-(DigitsValue(r[1..]) as int))
  {
    assert PyStrip(r) == r by {
      assert IsDigit(r[1..][|r| - 2]);
      StripUnchanged(r, Python);
    }
    assert ParseSigned(r) == Some(-(DigitsValue(r[1..]) as int)) by {
      RemoveUnderscoresOfDigits(r[1..]);
      ParseMinus(r);
    }
    ParseStripped(r);
  }

  lemma {:induction false} ParseMinus(t: string)
    requires |t| > 0 && t[0] == '-' && WellFormedDigits(t[1..])
    ensures ParseSigned(t) == Some(-(DigitsValue(RemoveUnderscores(t[1..])) as int))
  {
  }

  /** What `str(n)` prints, `int()` reads back. */
  lemma ParseDecimal(n: nat)
    ensures ParsePyInt(NatToDecimal(n)) == Some(n)
  {
    ParseDigits(NatToDecimal(n));
    DigitsOfDecimal(n);
  }

  // ---------------------------------------------------------------- hexadecimal

  predicate IsHexDigit(c: char) { IsDigit(c) || 'a' <= c <= 'f' || 'A' <= c <= 'F' }

  function HexValue(c: char): (d: nat)
    requires IsHexDigit(c)
    ensures d < 16
  {
    if IsDigit(c) then DigitValue(c)
    else if 'a' <= c <= 'f' then c as int - 'a' as int + 10
    else c as int - 'A' as int + 10
  }

  function HexChar(d: nat): (c: char)
    requires d < 16
    ensures IsHexDigit(c) && HexValue(c) == d && !IsAsciiSpace(c)
  {
    if d < 10 then DigitChar(d) else ('a' as int + d - 10) as char
  }

  /** Python's `bytes.hex()`: two lower-case hex digits per byte. */
  function Hex(b: seq<byte>): (r: string)
    ensures |r| == 2 * |b|
    ensures forall i :: 0 <= i < |r| ==> IsHexDigit(r[i]) && !IsAsciiSpace(r[i])
  {
    if |b| == 0 then "" else [HexChar(b[0] / 16), HexChar(b[0] % 16)] + Hex(b[1..])
  }

  /** Python's `bytes.fromhex(s)`: pairs of hex digits of either case, ASCII
      whitespace allowed between pairs; None where it raises ValueError. */
  function FromHex(s: string): Option<seq<byte>>
    decreases |s|
  {
    if |s| == 0 then Some([])
    else if IsAsciiSpace(s[0]) then FromHex(s[1..])
    else if |s| >= 2 && IsHexDigit(s[0]) && IsHexDigit(s[1]) then
      match FromHex(s[2..])
      case None => None
      case Some(rest) => Some([HexValue(s[0]) * 16 + HexValue(s[1])] + rest)
    else None
  }

  lemma {:induction false} FromHexOfHex(b: seq<byte>)
    ensures FromHex(Hex(b)) == Some(b)
  {
    if |b| > 0 {
      FromHexOfHex(b[1..]);
      var r := Hex(b);
      assert r[2..] == Hex(b[1..]);
      assert [b[0]] + b[1..] == b;
    }
  }

  // ---------------------------------------------------------------- distinctness

  predicate Distinct<T(==)>(s: seq<T>) {
    forall i, j :: 0 <= i < j < |s| ==> s[i] != s[j]
  }

  function Elements<T(==)>(s: seq<T>): set<T> { set x | x in s }

  lemma DistinctAppend<T>(s: seq<T>, x: T)
    ensures Distinct(s + [x]) <==> Distinct(s) && x !in s
  {
    var t := s + [x];
    assert forall k :: 0 <= k < |s| ==> t[k] == s[k];
    if !Distinct(s) {
      var i, j :| 0 <= i < j < |s| && s[i] == s[j];
      assert t[i] == t[j];
    }
    if x in s {
      var i :| 0 <= i < |s| && s[i] == x;
      assert t[i] == t[|s|];
    }
  }

  lemma {:induction false} ElementsSize<T>(s: seq<T>)
    ensures |Elements(s)| <= |s|
    ensures |Elements(s)| == |s| <==> Distinct(s)
  {
    if |s| > 0 {
      ElementsSize(s[1..]);
      assert Elements(s) == {s[0]} + Elements(s[1..]);
      if s[0] in s[1..] {
        assert Elements(s) == Elements(s[1..]);
        var j :| 0 <= j < |s[1..]| && s[1..][j] == s[0];
        assert s[0] == s[j + 1];
      } else {
        assert s[0] !in Elements(s[1..]);
        if Distinct(s[1..]) {
          forall i, j | 0 <= i < j < |s| ensures s[i] != s[j] {
            if i > 0 { assert s[i] == s[1..][i - 1] && s[j] == s[1..][j - 1]; }
          }
        }
      }
      if Distinct(s) {
        forall i, j | 0 <= i < j < |s[1..]| ensures s[1..][i] != s[1..][j] {
          assert s[1..][i] == s[i + 1] && s[1..][j] == s[j + 1];
        }
      }
    }
  }

  /** The outputs of `f` on each element of `s`, in order, one after another. */
  function Concat<A, B>(s: seq<A>, f: A -> seq<B>): seq<B> {
    if |s| == 0 then [] else Concat(s[..|s| - 1], f) + f(s[|s| - 1])
  }

  lemma {:induction false} ConcatMembers<A, B>(s: seq<A>, f: A -> seq<B>, x: B)
    ensures x in Concat(s, f) <==> exists i :: 0 <= i < |s| && x in f(s[i])
  {
    if |s| > 0 {
      var init := s[..|s| - 1];
      ConcatMembers(init, f, x);
      if x in Concat(init, f) {
        var i :| 0 <= i < |init| && x in f(init[i]);
        assert s[i] == init[i];
      }
      if exists i :: 0 <= i < |s| && x in f(s[i]) {
        var i :| 0 <= i < |s| && x in f(s[i]);
        if i < |init| { assert init[i] == s[i]; }
      }
    }
  }
}
