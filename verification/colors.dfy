/** Mood colours for the charts: the fixed colours of the twelve known moods,
    the 32-bit rolling hash that picks a palette entry for any other label, and
    the conversion of `#rrggbb`, `rgb(...)` and `rgba(...)` strings into an
    `rgba(...)` string with a given alpha. JavaScript strings are sequences of
    UTF-16 code units; here a string is a sequence of Unicode scalar values and
    `Utf16` gives its code units. Alpha values arrive already formatted. */
module Colors {
  import opened Common
  import Text

  const MoodColors: map<string, string> := map[
    "joy" := "#4bc0c0", "happiness" := "#22c55e", "sadness" := "#ef4444",
    "anger" := "#f59e0b", "surprise" := "#8b5cf6", "optimism" := "#36a2eb",
    "fear" := "#ff9f40", "anxiety" := "#f97316", "neutral" := "#94a3b8",
    "disgust" := "#84cc16", "trust" := "#0ea5e9", "anticipation" := "#06b6d4"]

  const Palette: seq<string> := [
    "#e11d48", "#10b981", "#3b82f6", "#f59e0b", "#8b5cf6", "#14b8a6",
    "#f97316", "#ef4444", "#22c55e", "#a855f7", "#06b6d4", "#f43f5e"]

  const TwoTo32: int := 0x1_0000_0000

  // ---------------------------------------------------------------------------
  // Label hashing

  /** The UTF-16 code units of a string, as `charCodeAt` reads them. */
  function Utf16(s: string): (units: seq<int>)
    ensures |units| >= |s|
    ensures forall k :: 0 <= k < |units| ==> 0 <= units[k] < 0x1_0000
  {
    if |s| == 0 then []
    else
      var c := s[0] as int;
      var head := if c < 0x1_0000 then [c]
                  else [0xD800 + (c - 0x1_0000) / 0x400, 0xDC00 + (c - 0x1_0000) % 0x400];
      head + Utf16(s[1..])
  }

  /** `hash = (hash * 31 + unit) >>> 0` over the units, starting from 0;
      `>>> 0` reduces modulo 2^32. */
  function HashUnits(units: seq<int>): (h: int)
    requires forall k :: 0 <= k < |units| ==> units[k] >= 0
    ensures 0 <= h < TwoTo32
    decreases |units|
  {
    if |units| == 0 then 0
    else (HashUnits(units[..|units| - 1]) * 31 + units[|units| - 1]) % TwoTo32
  }

  /** A chart label as received: a string, or any non-string JSON value (or
      a missing one). */
  datatype JsLabel = StrLabel(s: string) | NonString

  /** `label?.toLowerCase?.()?.trim?.() || ''`: only strings have those
      methods, so any other label yields the empty key. */
  function LabelKey(name: JsLabel): (key: string)
    ensures name.NonString? ==> key == ""
    ensures forall i :: 0 <= i < |key| ==> !('A' <= key[i] <= 'Z')
    ensures |key| > 0 ==> !Text.IsJsSpace(key[0]) && !Text.IsJsSpace(key[|key| - 1])
  {
    match name
    case StrLabel(s) =>
      TrimmedLowerHasNoUpper(s);
      Text.Trim(Text.Lower(s))
    case NonString => ""
  }

  lemma TrimmedLowerHasNoUpper(s: string)
    ensures var key := Text.Trim(Text.Lower(s));
      forall i :: 0 <= i < |key| ==> !('A' <= key[i] <= 'Z')
  {
    var l := Text.Lower(s);
    var key := Text.Strip(l, Text.IsJsSpace);
    var k := Text.Leading(l, Text.IsJsSpace);
    forall i | 0 <= i < |key| ensures !('A' <= key[i] <= 'Z') {
      assert key[i] == l[k + i] == Text.LowerChar(s[k + i]);
    }
  }

  /** The palette entry chosen by the key's hash. */
  function FallbackColor(key: string): (c: string)
    ensures c in Palette
  {
    Palette[HashUnits(Utf16(key)) % |Palette|]
  }

  /** The colour of a key: a known mood gets its fixed colour, every other
      key a palette entry. The lookup is limited to the table's own entries. */
  function KeyColor(key: string): (c: string)
    ensures key in MoodColors ==> c == MoodColors[key]
    ensures key !in MoodColors ==> c in Palette
  {
    if key in MoodColors then MoodColors[key] else FallbackColor(key)
  }

  /** `getColor(label)`, with the own-entry lookup. */
  function GetColor(name: JsLabel): (c: string)
    ensures c in MoodColors.Values || c in Palette
  {
    KeyColor(LabelKey(name))
  }

  /** Labels that agree after lower-casing and trimming get the same colour;
      in particular the colour ignores ASCII case. */
  lemma ColorIgnoresCase(s: string)
    ensures GetColor(StrLabel(Text.Lower(s))) == GetColor(StrLabel(s))
  {
    assert Text.Lower(Text.Lower(s)) == Text.Lower(s);
  }

  /** The key of a string label that is already lower-case and unpadded is
      the label itself. */
  lemma PlainKey(s: string)
    requires forall k :: 0 <= k < |s| ==> !('A' <= s[k] <= 'Z')
    requires |s| > 0 ==> !Text.IsJsSpace(s[0]) && !Text.IsJsSpace(s[|s| - 1])
    ensures LabelKey(StrLabel(s)) == s
  {
    assert Text.Lower(s) == s;
    Text.TrimUnpadded(s);
  }

  /** A known mood keeps its fixed colour. */
  lemma JoyColor()
    ensures GetColor(StrLabel("joy")) == "#4bc0c0"
  {
    PlainKey("joy");
  }

  /** Upper-case labels of known moods get the same fixed colour. */
  lemma UpperCaseNeutralColor()
    ensures GetColor(StrLabel("NEUTRAL")) == "#94a3b8"
  {
    assert LabelKey(StrLabel("NEUTRAL")) == "neutral" by {
      assert Text.Lower("NEUTRAL") == "neutral";
      Text.TrimUnpadded("neutral");
    }
  }

  /** A non-string label and the empty string both hash to 0: the first
      palette entry. */
  lemma EmptyKeyColor()
    ensures GetColor(NonString) == Palette[0]
    ensures GetColor(StrLabel("")) == Palette[0]
  {
    assert Text.Lower("") == "";
    Text.TrimUnpadded("");
  }

  /** `colorFor(label)` in the pie chart: the same table, key and hash, with
      the hash computed by a loop. For every string label it picks the colour
      `GetColor` picks. */
  method ColorFor(name: string) returns (c: string)
    ensures c == GetColor(StrLabel(name))
    ensures c in MoodColors.Values || c in Palette
  {
    var key := Text.Trim(Text.Lower(name));
    if key in MoodColors {
      return MoodColors[key];
    }
    var hash := HashLoop(Utf16(key));
    c := Palette[hash % |Palette|];
  }

  /** The `for` loop of `colorFor` over the code units. */
  method HashLoop(units: seq<int>) returns (hash: int)
    requires forall k :: 0 <= k < |units| ==> units[k] >= 0
    ensures hash == HashUnits(units)
  {
    hash := 0;
    var i := 0;
    while i < |units|
      invariant 0 <= i <= |units|
      invariant hash == HashUnits(units[..i])
    {
      assert units[..i + 1][..i] == units[..i];
      hash := (hash * 31 + units[i]) % TwoTo32;
      i := i + 1;
    }
    assert units[..|units|] == units;
  }

  // ---------------------------------------------------------------------------
  // The lookup as written: a plain object and its prototype

  /** Names an object literal inherits from `Object.prototype`; looking one of
      them up yields a function or an object, which is truthy. */
  const InheritedNames: set<string> := {
    "constructor", "toString", "toLocaleString", "valueOf", "hasOwnProperty",
    "isPrototypeOf", "propertyIsEnumerable", "__proto__", "__defineGetter__",
    "__defineSetter__", "__lookupGetter__", "__lookupSetter__"}

  /** A JavaScript value that the colour lookup can produce. */
  datatype LookupValue = StringValue(s: string) | InheritedMember(name: string)

  /** `map[key]` exactly as written: a plain object also finds the inherited
      members, and being truthy they are returned in place of a colour. */
  function KeyColorAsWritten(key: string): (r: LookupValue)
    ensures key in MoodColors ==> r == StringValue(MoodColors[key])
    ensures key in InheritedNames ==> r == InheritedMember(key)
    ensures key !in MoodColors && key !in InheritedNames ==> r == StringValue(KeyColor(key))
  {
    if key in MoodColors then StringValue(MoodColors[key])
    else if key in InheritedNames then InheritedMember(key)
    else StringValue(FallbackColor(key))
  }

  /** `getColor`/`colorFor` as written. */
  function GetColorAsWritten(name: JsLabel): LookupValue {
    KeyColorAsWritten(LabelKey(name))
  }

  /** The chart's colour for a label as written: the looked-up value goes to
      `hexOrRgbaToRgba`, whose `color.startsWith` is not a function on an
      inherited member, so rendering throws (`None`). */
  function ChartColorAsWritten(name: JsLabel, alpha: string): (r: Option<string>)
    ensures GetColorAsWritten(name).StringValue? <==> r.Some?
  {
    match GetColorAsWritten(name)
    case StringValue(c) => Some(HexOrRgbaToRgba(c, alpha))
    case InheritedMember(_) => None
  }

  /** The pie's slice colour for a label as written: `colorFor` returns the
      looked-up value, and `toRgba`'s `hex.startsWith` is not a function on
      an inherited member, so rendering throws (`None`). */
  function PieColorAsWritten(name: string, alpha: string): (r: Option<string>)
    ensures GetColorAsWritten(StrLabel(name)).StringValue? <==> r.Some?
    ensures LabelKey(StrLabel(name)) !in InheritedNames ==> r == Some(ToRgba(GetColor(StrLabel(name)), alpha))
  {
    match GetColorAsWritten(StrLabel(name))
    case StringValue(c) => Some(ToRgba(c, alpha))
    case InheritedMember(_) => None
  }

  /** A label "constructor" (or " Constructor ") throws as written, while the
      own-property lookup gives it a palette colour that converts cleanly. */
  lemma ConstructorLabelThrows(alpha: string)
    ensures ChartColorAsWritten(StrLabel("constructor"), alpha) == None
    ensures GetColor(StrLabel("constructor")) in Palette
    ensures Text.StartsWith(HexOrRgbaToRgba(GetColor(StrLabel("constructor")), alpha), "rgba(")
  {
    PlainKey("constructor");
    assert GetColorAsWritten(StrLabel("constructor")) == InheritedMember("constructor");
    var c := GetColor(StrLabel("constructor"));
    assert c in Palette by {
      assert KeyColor("constructor") in Palette;
    }
    ChartColorsAreHex(c);
    HexColorConverts(c, alpha);
  }

  /** The same label in the pie chart: `toRgba` throws as written, while the
      own-property lookup's colour converts to an `rgba(` colour. */
  lemma PieConstructorLabelThrows(alpha: string)
    ensures PieColorAsWritten("constructor", alpha) == None
    ensures Text.StartsWith(ToRgba(GetColor(StrLabel("constructor")), alpha), "rgba(")
  {
    PlainKey("constructor");
    assert GetColorAsWritten(StrLabel("constructor")) == InheritedMember("constructor");
    var c := GetColor(StrLabel("constructor"));
    assert c in Palette by {
      assert KeyColor("constructor") in Palette;
    }
    ChartColorsAreHex(c);
    HexColorConverts(c, alpha);
    HexToRgbaComponents(c, alpha);
  }
  /** An unpadded label whose lower-casing is no inherited name gets a
      colour in both charts. */
  lemma OwnKeyRenders(name: string, key: string, alpha: string)
    requires Text.Lower(name) == key && key !in InheritedNames
    requires |key| > 0 ==> !Text.IsJsSpace(key[0]) && !Text.IsJsSpace(key[|key| - 1])
    ensures ChartColorAsWritten(StrLabel(name), alpha).Some?
    ensures PieColorAsWritten(name, alpha).Some?
  {
    LowerKey(name, key);
    assert GetColorAsWritten(StrLabel(name)).StringValue?;
  }

  /** Only inherited names that are already lower-case show the fault: a
      mixed-case one such as `toString` is lower-cased to a key that is no
      inherited name, and both charts give it a colour. */
  lemma MixedCaseNamesRender(alpha: string)
    ensures ChartColorAsWritten(StrLabel("toString"), alpha).Some?
    ensures PieColorAsWritten("toString", alpha).Some?
  {
    OwnKeyRenders("toString", "tostring", alpha);
  }

  /** The key of an unpadded label is its lower-casing. */
  lemma LowerKey(name: string, key: string)
    requires Text.Lower(name) == key
    requires |key| > 0 ==> !Text.IsJsSpace(key[0]) && !Text.IsJsSpace(key[|key| - 1])
    ensures LabelKey(StrLabel(name)) == key
  {
    Text.TrimUnpadded(key);
  }



  /** Away from the inherited names the two lookups agree. */
  lemma AsWrittenAgreesElsewhere(name: JsLabel, alpha: string)
    requires LabelKey(name) !in InheritedNames
    ensures ChartColorAsWritten(name, alpha) == Some(HexOrRgbaToRgba(GetColor(name), alpha))
  {
  }

  // ---------------------------------------------------------------------------
  // parseInt(s, 16)

  predicate IsHexDigit(c: char) {
    ('0' <= c <= '9') || ('a' <= c <= 'f') || ('A' <= c <= 'F')
  }

  function HexValue(c: char): (v: nat)
    requires IsHexDigit(c)
    ensures v < 16
  {
    if '0' <= c <= '9' then c as int - '0' as int
    else if 'a' <= c <= 'f' then c as int - 'a' as int + 10
    else c as int - 'A' as int + 10
  }

  /** The number of leading hexadecimal digits of `s`. */
  function HexRun(s: string): (n: nat)
    ensures n <= |s|
    ensures forall k :: 0 <= k < n ==> IsHexDigit(s[k])
    ensures n == |s| || !IsHexDigit(s[n])
  {
    if |s| > 0 && IsHexDigit(s[0]) then 1 + HexRun(s[1..]) else 0
  }

  function ParseHex(s: string): nat
    requires forall k :: 0 <= k < |s| ==> IsHexDigit(s[k])
  {
    if |s| == 0 then 0 else 16 * ParseHex(s[..|s| - 1]) + HexValue(s[|s| - 1])
  }

  /** A JavaScript number as far as this code produces them. */
  datatype JsNumber = Num(n: int) | NaN

  /** `parseInt(s, 16)`: skip leading white space, take an optional sign and
      an optional `0x`/`0X`, then the longest run of hex digits; no digits
      gives NaN. */
  function ParseInt16(s: string): (r: JsNumber)
    ensures r.NaN? <==>
      var t := s[Text.Leading(s, Text.IsJsSpace)..];
      var u := if |t| > 0 && (t[0] == '-' || t[0] == '+') then t[1..] else t;
      var v := if |u| >= 2 && u[0] == '0' && (u[1] == 'x' || u[1] == 'X') then u[2..] else u;
      |v| == 0 || !IsHexDigit(v[0])
  {
    var t := s[Text.Leading(s, Text.IsJsSpace)..];
    var negative := |t| > 0 && t[0] == '-';
    var u := if |t| > 0 && (t[0] == '-' || t[0] == '+') then t[1..] else t;
    var v := if |u| >= 2 && u[0] == '0' && (u[1] == 'x' || u[1] == 'X') then u[2..] else u;
    var n := HexRun(v);
    if n == 0 then NaN
    else
      var x: int := ParseHex(v[..n]);
      Num(if negative then -x else x)
  }

  /** Template-literal formatting of such a number (`-0` prints as `0`). */
  function NumToString(x: JsNumber): string {
    match x
    case Num(n) => Text.IntToString(n)
    case NaN => "NaN"
  }

  /** The value of the two hex digits `hi lo`. */
  function HexByte(hi: char, lo: char): (v: nat)
    requires IsHexDigit(hi) && IsHexDigit(lo)
    ensures v < 256
  {
    16 * HexValue(hi) + HexValue(lo)
  }

  lemma ParseTwoHexDigits(s: string)
    requires |s| == 2 && IsHexDigit(s[0]) && IsHexDigit(s[1])
    ensures ParseInt16(s) == Num(HexByte(s[0], s[1]))
  {
    assert !Text.IsJsSpace(s[0]);
    assert Text.Leading(s, Text.IsJsSpace) == 0;
    assert s[0..] == s;
    assert HexRun(s) == 2 by {
      assert HexRun(s[1..]) == 1 by {
        assert s[1..][1..] == [];
      }
    }
    assert s[..2] == s;
    assert ParseHex(s[..1]) == HexValue(s[0]) by {
      assert s[..1][..0] == [];
    }
    assert ParseHex(s) == 16 * HexValue(s[0]) + HexValue(s[1]);
  }

  // ---------------------------------------------------------------------------
  // String.prototype helpers

  /** `s.substring(a, b)` for `0 <= a <= b`: indices are clamped to the length. */
  function Substring(s: string, a: nat, b: nat): (r: string)
    requires a <= b
    ensures b <= |s| ==> r == s[a..b]
  {
    var lo := if a < |s| then a else |s|;
    var hi := if b < |s| then b else |s|;
    s[lo..hi]
  }

  /** `s.replace(c, '')` with a one-character string pattern: removes the
      first occurrence of `c`, if any. */
  function RemoveFirst(s: string, c: char): (r: string)
    ensures c !in s ==> r == s
    ensures c in s ==> |r| == |s| - 1 && r == s[..Text.IndexOf(s, c)] + s[Text.IndexOf(s, c) + 1..]
  {
    if c in s then
      var i := Text.IndexOf(s, c);
      s[..i] + s[i + 1..]
    else s
  }

  // ---------------------------------------------------------------------------
  // Regular-expression replacement of the rgb(...) / rgba(...) forms

  /** The number of leading characters of `t` different from `stop`. */
  function RunNot(t: string, stop: char): (n: nat)
    ensures n <= |t|
    ensures forall k :: 0 <= k < n ==> t[k] != stop
    ensures n == |t| || t[n] == stop
  {
    if |t| > 0 && t[0] != stop then 1 + RunNot(t[1..], stop) else 0
  }

  lemma {:induction false} RunNotExact(g: string, stop: char, x: string)
    requires stop !in g && |x| > 0 && x[0] == stop
    ensures RunNot(g + x, stop) == |g|
    decreases |g|
  {
    if |g| > 0 {
      assert (g + x)[1..] == g[1..] + x;
      RunNotExact(g[1..], stop, x);
    } else {
      assert g + x == x;
    }
  }

  /** Groups separated by their terminators: `gs[0] stops[0] gs[1] stops[1] ...`. */
  function Interleave(gs: seq<string>, stops: seq<char>): string
    requires |gs| == |stops|
  {
    if |gs| == 0 then "" else gs[0] + [stops[0]] + Interleave(gs[1..], stops[1..])
  }

  /** Each group is non-empty and free of its own terminator: the strings the
      pattern `([^t]+)t` matches, group by group. */
  predicate WellSeparated(gs: seq<string>, stops: seq<char>) {
    |gs| == |stops| && forall k :: 0 <= k < |gs| ==> |gs[k]| > 0 && stops[k] !in gs[k]
  }

  /** Matches `([^t0]+)t0([^t1]+)t1...` at the start of `t`, returning the
      groups and the length of the match. Each greedy group runs up to the
      next terminator, so at most one match exists. */
  function MatchGroups(t: string, stops: seq<char>): (r: Option<(seq<string>, nat)>)
    ensures r.Some? ==>
      WellSeparated(r.value.0, stops) && r.value.1 <= |t| && t[..r.value.1] == Interleave(r.value.0, stops)
    decreases |stops|
  {
    if |stops| == 0 then Some(([], 0))
    else
      var n := RunNot(t, stops[0]);
      if n == 0 || n == |t| then None
      else
        var sub := MatchGroups(t[n + 1..], stops[1..]);
        if sub.None? then None
        else
          GroupsStep(t, n, stops, sub.value.0, sub.value.1);
          Some(([t[..n]] + sub.value.0, n + 1 + sub.value.1))
  }

  /** One more group in front of a match of the remaining groups. */
  lemma GroupsStep(t: string, n: nat, stops: seq<char>, gs: seq<string>, e: nat)
    requires |stops| > 0 && 0 < n < |t| && t[n] == stops[0]
    requires forall k :: 0 <= k < n ==> t[k] != stops[0]
    requires WellSeparated(gs, stops[1..]) && e <= |t[n + 1..]|
    requires t[n + 1..][..e] == Interleave(gs, stops[1..])
    ensures WellSeparated([t[..n]] + gs, stops)
    ensures t[..n + 1 + e] == Interleave([t[..n]] + gs, stops)
  {
    var all := [t[..n]] + gs;
    assert all[1..] == gs;
    assert t[..n + 1 + e] == t[..n] + [stops[0]] + t[n + 1..][..e];
    forall k | 0 <= k < |all| ensures |all[k]| > 0 && stops[k] !in all[k] {
      if k > 0 {
        assert all[k] == gs[k - 1] && stops[k] == stops[1..][k - 1];
      }
    }
  }

  /** Every string of the matched form is found, with its own groups,
      whatever follows it. */
  lemma {:induction false} MatchGroupsComplete(gs: seq<string>, stops: seq<char>, rest: string)
    requires WellSeparated(gs, stops)
    ensures MatchGroups(Interleave(gs, stops) + rest, stops) == Some((gs, |Interleave(gs, stops)|))
    decreases |stops|
  {
    if |stops| > 0 {
      var g := gs[0];
      var c := stops[0];
      var tail := Interleave(gs[1..], stops[1..]);
      var t := Interleave(gs, stops) + rest;
      assert t == g + ([c] + (tail + rest));
      RunNotExact(g, c, [c] + (tail + rest));
      assert t[|g| + 1..] == tail + rest;
      assert t[..|g|] == g;
      assert WellSeparated(gs[1..], stops[1..]) by {
        forall k | 0 <= k < |gs[1..]| ensures |gs[1..][k]| > 0 && stops[1..][k] !in gs[1..][k] {
          assert gs[1..][k] == gs[k + 1] && stops[1..][k] == stops[k + 1];
        }
      }
      MatchGroupsComplete(gs[1..], stops[1..], rest);
      assert [g] + gs[1..] == gs;
    }
  }

  /** The pattern `<prefix>([^t0]+)t0...` matched at position `i`: the
      groups and the end of the match. */
  function MatchAt(s: string, i: nat, prefix: string, stops: seq<char>): (r: Option<(seq<string>, nat)>)
    requires i <= |s|
    ensures r.Some? ==> i + |prefix| <= r.value.1 <= |s|
  {
    if i + |prefix| <= |s| && s[i..i + |prefix|] == prefix then
      match MatchGroups(s[i + |prefix|..], stops)
      case None => None
      case Some((gs, n)) => Some((gs, i + |prefix| + n))
    else None
  }

  datatype Found = Found(start: nat, groups: seq<string>, end: nat)

  /** The leftmost match at or after `from`, as a regular-expression search finds it. */
  function FirstMatch(s: string, from: nat, prefix: string, stops: seq<char>): (r: Option<Found>)
    requires from <= |s|
    ensures r.Some? ==>
      && from <= r.value.start <= r.value.end <= |s|
      && MatchAt(s, r.value.start, prefix, stops) == Some((r.value.groups, r.value.end))
      && forall j :: from <= j < r.value.start ==> MatchAt(s, j, prefix, stops).None?
    ensures r.None? ==> forall j :: from <= j <= |s| ==> MatchAt(s, j, prefix, stops).None?
    decreases |s| - from
  {
    match MatchAt(s, from, prefix, stops)
    case Some((gs, e)) => Some(Found(from, gs, e))
    case None => if from == |s| then None else FirstMatch(s, from + 1, prefix, stops)
  }

  /** `s.replace(/<prefix>(...)t0.../, (_, r, g, b) => `rgba(${r},${g},${b},${alpha})`)`:
      the first match, if any, is replaced by an `rgba(...)` of its first
      three groups; the text around it is kept. */
  function ReplaceFirstMatch(s: string, prefix: string, stops: seq<char>, alpha: string): (r: string)
    ensures FirstMatch(s, 0, prefix, stops).None? ==> r == s
    ensures FirstMatch(s, 0, prefix, stops).Some? ==>
      var m := FirstMatch(s, 0, prefix, stops).value;
      m.start <= m.end <= |s|
      && Text.StartsWith(r, s[..m.start])
      && r[m.start..] == RgbaFromGroups(m.groups, alpha) + s[m.end..]
  {
    match FirstMatch(s, 0, prefix, stops)
    case None => s
    case Some(m) =>
      var a, b, c := s[..m.start], RgbaFromGroups(m.groups, alpha), s[m.end..];
      SplicedParts(a, b, c);
      a + b + c
  }

  /** A text spliced from three parts starts with the first and continues
      with the other two. */
  lemma SplicedParts(a: string, b: string, c: string)
    ensures Text.StartsWith(a + b + c, a) && (a + b + c)[|a|..] == b + c
  {
    assert (a + b + c)[..|a|] == a;
  }

  function RgbaOf(r: string, g: string, b: string, alpha: string): string {
    "rgba(" + r + "," + g + "," + b + "," + alpha + ")"
  }

  /** The replacement callback `(_, r, g, b) => rgba(r,g,b,alpha)`. */
  function RgbaFromGroups(gs: seq<string>, alpha: string): string {
    if |gs| >= 3 then RgbaOf(gs[0], gs[1], gs[2], alpha) else ""
  }

  const RgbaStops: seq<char> := [',', ',', ',', ')']
  const RgbStops: seq<char> := [',', ',', ')']

  /** The `#rrggbb` branch shared by both charts: drop the first `#`, parse
      the substrings (0,2), (2,4), (4,6) in base 16. */
  function HexToRgba(color: string, alpha: string): string {
    var hex := RemoveFirst(color, '#');
    RgbaOf(NumToString(ParseInt16(Substring(hex, 0, 2))),
           NumToString(ParseInt16(Substring(hex, 2, 4))),
           NumToString(ParseInt16(Substring(hex, 4, 6))), alpha)
  }

  /** `hexOrRgbaToRgba(color, alpha)` for a string colour; the empty string
      is the falsy case. */
  function HexOrRgbaToRgba(color: string, alpha: string): string {
    if color == "" then RgbaOf("100", "100", "100", alpha)
    else if Text.StartsWith(color, "rgba") then
      ReplaceFirstMatch(color, "rgba(", RgbaStops, alpha)
    else if Text.StartsWith(color, "rgb(") then
      ReplaceFirstMatch(color, "rgb(", RgbStops, alpha)
    else HexToRgba(color, alpha)
  }

  lemma FalsyColorIsGrey(alpha: string)
    ensures HexOrRgbaToRgba("", alpha) == "rgba(100,100,100," + alpha + ")"
  {
  }

  /** `toRgba(hex, a)` in the pie chart: an `rgba` string passes through
      untouched, anything else takes the `#rrggbb` branch. */
  function ToRgba(color: string, alpha: string): (r: string)
    ensures Text.StartsWith(color, "rgba") ==> r == color
  {
    if Text.StartsWith(color, "rgba") then color else HexToRgba(color, alpha)
  }

  predicate IsHexColor(c: string) {
    |c| == 7 && c[0] == '#' && forall k :: 1 <= k < 7 ==> IsHexDigit(c[k])
  }

  /** Both charts' colour functions only ever produce `#rrggbb` strings. */
  lemma ChartColorsAreHex(c: string)
    requires c in MoodColors.Values || c in Palette
    ensures IsHexColor(c)
  {
  }

  /** The `#rrggbb` branch reads the three digit pairs. */
  lemma HexBranchComponents(c: string, alpha: string)
    requires IsHexColor(c)
    ensures HexToRgba(c, alpha) ==
      RgbaOf(Text.Decimal(HexByte(c[1], c[2])), Text.Decimal(HexByte(c[3], c[4])),
             Text.Decimal(HexByte(c[5], c[6])), alpha)
  {
    var hex := RemoveFirst(c, '#');
    assert Text.IndexOf(c, '#') == 0;
    assert hex == c[1..];
    assert Substring(hex, 0, 2) == [c[1], c[2]];
    assert Substring(hex, 2, 4) == [c[3], c[4]];
    assert Substring(hex, 4, 6) == [c[5], c[6]];
    ParseTwoHexDigits([c[1], c[2]]);
    ParseTwoHexDigits([c[3], c[4]]);
    ParseTwoHexDigits([c[5], c[6]]);
  }

  /** A `#rrggbb` colour becomes `rgba(r,g,b,alpha)` with the decimal values of
      the three digit pairs, each in 0..255, in both charts. */
  lemma HexToRgbaComponents(c: string, alpha: string)
    requires IsHexColor(c)
    ensures var r := HexByte(c[1], c[2]);
      var g := HexByte(c[3], c[4]);
      var b := HexByte(c[5], c[6]);
      && r < 256 && g < 256 && b < 256
      && HexOrRgbaToRgba(c, alpha) == RgbaOf(Text.Decimal(r), Text.Decimal(g), Text.Decimal(b), alpha)
      && ToRgba(c, alpha) == HexOrRgbaToRgba(c, alpha)
  {
    assert !Text.StartsWith(c, "rgba") && !Text.StartsWith(c, "rgb(") by {
      assert c[0] == '#';
    }
    HexBranchComponents(c, alpha);
  }

  lemma HexColorConverts(c: string, alpha: string)
    requires IsHexColor(c)
    ensures Text.StartsWith(HexOrRgbaToRgba(c, alpha), "rgba(")
  {
    HexToRgbaComponents(c, alpha);
    var r := Text.Decimal(HexByte(c[1], c[2]));
    var g := Text.Decimal(HexByte(c[3], c[4]));
    var b := Text.Decimal(HexByte(c[5], c[6]));
    RgbaOfPrefix(r, g, b, alpha);
  }

  lemma RgbaOfPrefix(r: string, g: string, b: string, alpha: string)
    ensures Text.StartsWith(RgbaOf(r, g, b, alpha), "rgba(")
  {
    var s := RgbaOf(r, g, b, alpha);
    assert s == "rgba(" + (r + "," + g + "," + b + "," + alpha + ")");
    assert s[..5] == "rgba(";
  }

  lemma RgbaBody(r: string, g: string, b: string, a0: string)
    ensures Interleave([r, g, b, a0], RgbaStops) == r + "," + g + "," + b + "," + a0 + ")"
  {
    assert Interleave([a0], [')']) == a0 + [')'] by {
      assert [a0][1..] == [];
    }
    assert Interleave([b, a0], [',', ')']) == b + [','] + a0 + [')'] by {
      assert [b, a0][1..] == [a0];
    }
    assert Interleave([g, b, a0], [',', ',', ')']) == g + [','] + b + [','] + a0 + [')'] by {
      assert [g, b, a0][1..] == [b, a0];
    }
    assert [r, g, b, a0][1..] == [g, b, a0];
    assert RgbaStops[1..] == [',', ',', ')'];
  }

  lemma RgbBody(r: string, g: string, b: string)
    ensures Interleave([r, g, b], RgbStops) == r + "," + g + "," + b + ")"
  {
    assert Interleave([b], [')']) == b + [')'] by {
      assert [b][1..] == [];
    }
    assert Interleave([g, b], [',', ')']) == g + [','] + b + [')'] by {
      assert [g, b][1..] == [b];
    }
    assert [r, g, b][1..] == [g, b];
    assert RgbStops[1..] == [',', ')'];
  }

  /** A whole `prefix(...)` string is matched from its first character to its last. */
  lemma MatchWhole(prefix: string, gs: seq<string>, stops: seq<char>)
    requires WellSeparated(gs, stops)
    ensures var s := prefix + Interleave(gs, stops);
      FirstMatch(s, 0, prefix, stops) == Some(Found(0, gs, |s|))
  {
    var body := Interleave(gs, stops);
    var s := prefix + body;
    assert s[..|prefix|] == prefix;
    assert s[|prefix|..] == body + "";
    MatchGroupsComplete(gs, stops, "");
    assert MatchAt(s, 0, prefix, stops) == Some((gs, |s|));
  }

  /** A string that is one `rgba(...)` form is rewritten to carry the new
      alpha; the old alpha is dropped. */
  lemma RgbaGetsNewAlpha(r: string, g: string, b: string, a0: string, alpha: string)
    requires WellSeparated([r, g, b, a0], RgbaStops)
    ensures HexOrRgbaToRgba(RgbaOf(r, g, b, a0), alpha) == RgbaOf(r, g, b, alpha)
  {
    var s := RgbaOf(r, g, b, a0);
    RgbaBody(r, g, b, a0);
    assert s == "rgba(" + Interleave([r, g, b, a0], RgbaStops);
    MatchWhole("rgba(", [r, g, b, a0], RgbaStops);
    assert Text.StartsWith(s, "rgba") by {
      assert s[..4] == "rgba";
    }
    assert s[..0] == "" && s[|s|..] == "";
  }

  /** An `rgb(r,g,b)` string becomes `rgba(r,g,b,alpha)`. */
  lemma RgbGetsAlpha(r: string, g: string, b: string, alpha: string)
    requires WellSeparated([r, g, b], RgbStops)
    ensures HexOrRgbaToRgba("rgb(" + r + "," + g + "," + b + ")", alpha) == RgbaOf(r, g, b, alpha)
  {
    var s := "rgb(" + r + "," + g + "," + b + ")";
    RgbBody(r, g, b);
    assert s == "rgb(" + Interleave([r, g, b], RgbStops);
    MatchWhole("rgb(", [r, g, b], RgbStops);
    assert !Text.StartsWith(s, "rgba") && Text.StartsWith(s, "rgb(") by {
      assert s[..4] == "rgb(";
    }
    assert s[..0] == "" && s[|s|..] == "";
  }
}
