/** String helpers shared by the frontend (JavaScript) and ML (Python) models.
    Strings are sequences of Unicode scalar values. */
module Text {

  /** ECMAScript WhiteSpace and LineTerminator code points: what
      `String.prototype.trim` strips. */
  predicate IsJsSpace(c: char) {
    c == ' ' || c == '\t' || c == '\n' || c == '\r' || c == '\U{000B}' || c == '\U{000C}'
    || c == '\U{00A0}' || c == '\U{FEFF}' || c == '\U{1680}'
    || ('\U{2000}' <= c <= '\U{200A}')
    || c == '\U{2028}' || c == '\U{2029}' || c == '\U{202F}' || c == '\U{205F}' || c == '\U{3000}'
  }

  /** Python's Unicode whitespace (`str.isspace`, and `\s` in a `str` pattern). */
  predicate IsPySpace(c: char) {
    ('\t' <= c <= '\r') || ('\U{001C}' <= c <= '\U{001F}') || c == ' '
    || c == '\U{0085}' || c == '\U{00A0}' || c == '\U{1680}'
    || ('\U{2000}' <= c <= '\U{200A}')
    || c == '\U{2028}' || c == '\U{2029}' || c == '\U{202F}' || c == '\U{205F}' || c == '\U{3000}'
  }

  predicate IsAsciiDigit(c: char) { '0' <= c <= '9' }

  predicate StartsWith(s: string, prefix: string) {
    |prefix| <= |s| && s[..|prefix|] == prefix
  }

  /** A string starts with its prefix's first character. */
  lemma StartsWithHead(s: string, prefix: string)
    requires StartsWith(s, prefix) && |prefix| > 0
    ensures s[0] == prefix[0]
  {
    assert s[..|prefix|][0] == s[0];
  }

  // ---------------------------------------------------------------------------
  // Trimming

  /** The number of leading characters of `s` that satisfy `ws`. */
  function Leading(s: string, ws: char -> bool): (k: nat)
    ensures k <= |s|
    ensures forall i :: 0 <= i < k ==> ws(s[i])
    ensures k == |s| || !ws(s[k])
    decreases |s|
  {
    if |s| > 0 && ws(s[0]) then 1 + Leading(s[1..], ws) else 0
  }

  /** The number of trailing characters of `s` that satisfy `ws`. */
  function Trailing(s: string, ws: char -> bool): (k: nat)
    ensures k <= |s|
    ensures forall i :: |s| - k <= i < |s| ==> ws(s[i])
    ensures k == |s| || !ws(s[|s| - k - 1])
    decreases |s|
  {
    if |s| > 0 && ws(s[|s| - 1]) then 1 + Trailing(s[..|s| - 1], ws) else 0
  }

  /** A string every character of which satisfies `ws`. */
  predicate AllSatisfy(s: string, ws: char -> bool) {
    forall i :: 0 <= i < |s| ==> ws(s[i])
  }

  /** `s.trim()` in JavaScript (`ws` = IsJsSpace) or `s.strip()` in Python
      (`ws` = IsPySpace): the middle part of `s` between the maximal runs of
      whitespace at either end. It is empty exactly when `s` is all whitespace. */
  function Strip(s: string, ws: char -> bool): (r: string)
    ensures r == [] <==> AllSatisfy(s, ws)
    ensures r != [] ==> !ws(r[0]) && !ws(r[|r| - 1])
    ensures var k := Leading(s, ws);
      && k + |r| <= |s| && r == s[k..k + |r|]
      && (forall i :: 0 <= i < k ==> ws(s[i]))
      && (forall i :: k + |r| <= i < |s| ==> ws(s[i]))
  {
    var a := Leading(s, ws);
    var t := s[a..];
    var b := Trailing(t, ws);
    assert forall i :: a + |t| - b <= i < |s| ==> s[i] == t[i - a];
    t[..|t| - b]
  }

  /** JavaScript `s.trim()`. */
  function Trim(s: string): string {
    Strip(s, IsJsSpace)
  }

  /** `!s.trim()` in JavaScript: the string is empty or all whitespace. */
  predicate IsBlank(s: string) {
    AllSatisfy(s, IsJsSpace)
  }

  /** Trimming is idempotent, so a trimmed text is never blank unless empty. */
  lemma TrimIdempotent(s: string)
    ensures Trim(Trim(s)) == Trim(s)
  {
    var r := Trim(s);
    if r != [] {
      assert Leading(r, IsJsSpace) == 0;
      assert r[0..] == r;
      assert Trailing(r, IsJsSpace) == 0;
    }
  }

  /** A string with no whitespace at either end is its own trim. */
  lemma TrimUnpadded(s: string)
    requires |s| > 0 ==> !IsJsSpace(s[0]) && !IsJsSpace(s[|s| - 1])
    ensures Trim(s) == s
  {
    var r := Trim(s);
    if |s| > 0 {
      assert Leading(s, IsJsSpace) == 0;
      assert |r| > 0;
      assert s[..|r|] == r;
    }
  }

  // ---------------------------------------------------------------------------
  // Case mapping (ASCII letters only)

  function LowerChar(c: char): char {
    if 'A' <= c <= 'Z' then (c as int + 32) as char else c
  }

  function UpperChar(c: char): char {
    if 'a' <= c <= 'z' then (c as int - 32) as char else c
  }

  function Lower(s: string): (r: string)
    ensures |r| == |s|
  {
    seq(|s|, i requires 0 <= i < |s| => LowerChar(s[i]))
  }

  // ---------------------------------------------------------------------------
  // Joining and splitting on a separator

  /** `parts.join(sep)` / `sep.join(parts)`. */
  function Join(parts: seq<string>, sep: string): string
    decreases |parts|
  {
    if |parts| == 0 then ""
    else if |parts| == 1 then parts[0]
    else parts[0] + sep + Join(parts[1..], sep)
  }

  function IndexOf(s: string, c: char): (i: nat)
    requires c in s
    ensures i < |s| && s[i] == c && c !in s[..i]
  {
    if s[0] == c then 0 else 1 + IndexOf(s[1..], c)
  }

  /** `s.split(c)` on a one-character separator: the pieces between the
      occurrences of `c`, at least one (possibly empty) piece. */
  function Split(s: string, c: char): (r: seq<string>)
    ensures |r| >= 1
    ensures forall k :: 0 <= k < |r| ==> c !in r[k]
    decreases |s|
  {
    if c !in s then [s]
    else
      var i := IndexOf(s, c);
      [s[..i]] + Split(s[i + 1..], c)
  }

  /** Splitting undoes joining when no part contains the separator. */
  lemma {:induction false} SplitJoin(parts: seq<string>, c: char)
    requires |parts| >= 1
    requires forall k :: 0 <= k < |parts| ==> c !in parts[k]
    ensures Split(Join(parts, [c]), c) == parts
    decreases |parts|
  {
    if |parts| > 1 {
      var rest := Join(parts[1..], [c]);
      assert Join(parts, [c]) == parts[0] + [c] + rest;
      SplitAfterFirst(parts[0], c, rest);
      SplitJoin(parts[1..], c);
      assert [parts[0]] + parts[1..] == parts;
    }
  }

  lemma SplitAfterFirst(a: string, c: char, rest: string)
    requires c !in a
    ensures Split(a + [c] + rest, c) == [a] + Split(rest, c)
  {
    var s := a + [c] + rest;
    assert s == a + ([c] + rest);
    IndexOfPrefix(a, c, [c] + rest);
    assert s[..|a|] == a;
    assert s[|a| + 1..] == rest;
  }

  lemma IndexOfPrefix(a: string, c: char, b: string)
    requires c !in a && |b| > 0 && b[0] == c
    ensures c in a + b && IndexOf(a + b, c) == |a|
    decreases |a|
  {
    assert (a + b)[|a|] == c;
    if |a| > 0 {
      assert (a + b)[1..] == a[1..] + b;
      IndexOfPrefix(a[1..], c, b);
    }
  }

  /** Joining undoes splitting. */
  lemma {:induction false} JoinSplit(s: string, c: char)
    ensures Join(Split(s, c), [c]) == s
    decreases |s|
  {
    if c in s {
      var i := IndexOf(s, c);
      JoinSplit(s[i + 1..], c);
      var tail := Split(s[i + 1..], c);
      assert Split(s, c) == [s[..i]] + tail;
      assert ([s[..i]] + tail)[1..] == tail;
      assert s == s[..i] + [c] + s[i + 1..];
    }
  }

  // ---------------------------------------------------------------------------
  // Decimal numerals

  function DigitChar(d: nat): (c: char)
    requires d < 10
    ensures IsAsciiDigit(c)
  {
    "0123456789"[d]
  }

  function DigitValue(c: char): (d: nat)
    requires IsAsciiDigit(c)
    ensures d < 10
  {
    c as int - '0' as int
  }

  predicate AllDigits(s: string) {
    forall i :: 0 <= i < |s| ==> IsAsciiDigit(s[i])
  }

  /** `String(n)` for a non-negative integer: its shortest decimal numeral. */
  function Decimal(n: nat): (r: string)
    ensures |r| >= 1 && AllDigits(r)
    ensures n < 10 <==> |r| == 1
    decreases n
  {
    if n < 10 then [DigitChar(n)] else Decimal(n / 10) + [DigitChar(n % 10)]
  }

  /** The value of a string of decimal digits. */
  function ParseDecimal(s: string): nat
    requires AllDigits(s)
  {
    if |s| == 0 then 0 else 10 * ParseDecimal(s[..|s| - 1]) + DigitValue(s[|s| - 1])
  }

  lemma {:induction false} DecimalRoundTrip(n: nat)
    ensures ParseDecimal(Decimal(n)) == n
    decreases n
  {
    var r := Decimal(n);
    if n >= 10 {
      DecimalRoundTrip(n / 10);
      assert r[..|r| - 1] == Decimal(n / 10);
    }
    assert DigitValue(DigitChar(n % 10)) == n % 10 by {
      var d := n % 10;
      assert "0123456789"[d] as int == '0' as int + d;
    }
  }

  lemma DecimalInjective(a: nat, b: nat)
    requires Decimal(a) == Decimal(b)
    ensures a == b
  {
    DecimalRoundTrip(a);
    DecimalRoundTrip(b);
  }

  /** `String(i)` for an integer. */
  function IntToString(i: int): (r: string)
    ensures |r| >= 1
    ensures i >= 0 ==> r == Decimal(i)
  {
    if i < 0 then "-" + Decimal(-i) else Decimal(i)
  }

  // ---------------------------------------------------------------------------
  // Code-point order, as MongoDB and JavaScript compare strings

  /** `a` sorts before `b`: at the first difference `a` has the smaller code
      point, or `a` is a proper prefix of `b`. */
  predicate LexLess(a: string, b: string)
    decreases |a|
  {
    |b| > 0 && (|a| == 0 || a[0] < b[0] || (a[0] == b[0] && LexLess(a[1..], b[1..])))
  }

  /** One more than the largest code point. */
  const CodePoints: real := 1114112.0

  /** The string read as a fraction in base `CodePoints + 1`, one digit per
      character (the code point plus one): a number in [0, 1) that orders
      strings as `LexLess` does. */
  function CodePointKey(s: string): (k: real)
    ensures 0.0 <= k < 1.0
    ensures |s| > 0 ==> k * (CodePoints + 1.0) >= (s[0] as int + 1) as real
    decreases |s|
  {
    if |s| == 0 then 0.0
    else
      var t := CodePointKey(s[1..]);
      assert s[0] as int < 0x11_0000;
      ((s[0] as int + 1) as real + t) / (CodePoints + 1.0)
  }

  /** The key is strictly monotone in code-point order. */
  lemma {:induction false} LexLessKey(a: string, b: string)
    requires LexLess(a, b)
    ensures CodePointKey(a) < CodePointKey(b)
    decreases |a|
  {
    var base := CodePoints + 1.0;
    if |a| > 0 {
      var ka, kb := CodePointKey(a[1..]), CodePointKey(b[1..]);
      assert CodePointKey(a) == ((a[0] as int + 1) as real + ka) / base;
      assert CodePointKey(b) == ((b[0] as int + 1) as real + kb) / base;
      if a[0] < b[0] {
        assert (a[0] as int + 1) as real + ka < (b[0] as int + 1) as real + kb;
      } else {
        LexLessKey(a[1..], b[1..]);
      }
    }
  }

  /** A string whose key is not below another's does not sort before it. */
  lemma KeyOrder(a: string, b: string)
    requires CodePointKey(b) <= CodePointKey(a)
    ensures !LexLess(a, b)
  {
    if LexLess(a, b) {
      LexLessKey(a, b);
    }
  }
}
