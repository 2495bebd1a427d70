/** `preprocess_text`, which the Keras service and the training script
    define identically: lower-case, strip URLs, HTML tags, punctuation and
    digits, collapse whitespace, then drop stopwords and lemmatize word by
    word. The Unicode character database (lower-casing and the `\w` and `\d`
    classes), the stopword set and the lemmatizer are parameters; `\s`,
    `str.split` and `str.strip` use Python's whitespace set. */
module TextCleaning {
  import Text
  import Sequences

  /** What `str.lower` and the `\w` and `\d` classes consult: the lower-case
      mapping of one character (possibly several characters), and membership
      in the word and digit classes. */
  datatype CharDb = CharDb(lower: char -> string, word: char -> bool, digit: char -> bool)

  predicate NotSpace(c: char) {
    !Text.IsPySpace(c)
  }

  /** `text.lower()`, character by character. */
  function Lower(db: CharDb, s: string): string
    decreases |s|
  {
    if |s| == 0 then "" else db.lower(s[0]) + Lower(db, s[1..])
  }

  // ---------------------------------------------------------------------------
  // `re.sub(pattern, '', text)` for the URL and tag patterns

  /** `s` starts with `prefix` followed by a non-whitespace character, the
      shortest text `prefix\S+` matches. */
  predicate Starts(s: string, prefix: string) {
    Text.StartsWith(s, prefix) && |s| > |prefix| && NotSpace(s[|prefix|])
  }

  /** The length of a match of `prefix\S+` at the start of `s`, or 0. */
  function PrefixedRun(s: string, prefix: string): (n: nat)
    requires forall i :: 0 <= i < |prefix| ==> NotSpace(prefix[i])
    ensures n <= |s|
    ensures n > 0 ==> Text.StartsWith(s, prefix) && n > |prefix|
    ensures n > 0 ==> forall i :: 0 <= i < n ==> NotSpace(s[i])
    ensures n > 0 ==> n == |s| || Text.IsPySpace(s[n])
    ensures n > 0 <==> Starts(s, prefix)
  {
    if Starts(s, prefix) then
      var k := Text.Leading(s[|prefix|..], NotSpace);
      assert forall i :: 0 <= i < |prefix| ==> s[i] == prefix[i];
      |prefix| + k
    else 0
  }

  const Https := "https://"
  const Http := "http://"
  const Www := "www."

  /** `https?://\S+|www\.\S+` at the start of `s`: the length of the match,
      or 0. A URL runs up to the next whitespace or the end of the text. */
  function UrlMatch(s: string): (n: nat)
    ensures n <= |s|
    ensures n > 0 ==> Text.StartsWith(s, Https) || Text.StartsWith(s, Http) || Text.StartsWith(s, Www)
    ensures n > 0 ==> forall i :: 0 <= i < n ==> NotSpace(s[i])
    ensures n > 0 ==> n == |s| || Text.IsPySpace(s[n])
    ensures n > 0 <==> Starts(s, Https) || Starts(s, Http) || Starts(s, Www)
  {
    var a := PrefixedRun(s, Https);
    if a > 0 then a
    else
      var b := PrefixedRun(s, Http);
      if b > 0 then b else PrefixedRun(s, Www)
  }

  /** The first index at or after `j` holding `>` or a newline, or `|s|`. */
  function TagStop(s: string, j: nat): (k: nat)
    requires j <= |s|
    ensures j <= k <= |s|
    ensures forall i :: j <= i < k ==> s[i] != '>' && s[i] != '\n'
    ensures k < |s| ==> s[k] == '>' || s[k] == '\n'
    decreases |s| - j
  {
    if j == |s| || s[j] == '>' || s[j] == '\n' then j else TagStop(s, j + 1)
  }

  /** `<.*?>` at the start of `s`: up to the first `>`, provided no newline
      comes before it (`.` does not match a newline); the length, or 0. */
  function TagMatch(s: string): (n: nat)
    ensures n <= |s|
    ensures n > 0 ==> n >= 2 && s[0] == '<' && s[n - 1] == '>'
    ensures n > 0 ==> forall i :: 1 <= i < n - 1 ==> s[i] != '>'
    ensures n > 0 ==> forall i :: 0 <= i < n ==> s[i] != '\n'
    ensures |s| > 0 && s[0] == '<' && n == 0 ==> forall i :: 1 <= i < |s| && s[i] == '>' ==> exists j :: 1 <= j < i && s[j] == '\n'
  {
    if |s| > 0 && s[0] == '<' then
      var k := TagStop(s, 1);
      if k < |s| && s[k] == '>' then k + 1 else 0
    else 0
  }

  datatype Pattern = Url | Tag

  function MatchAt(p: Pattern, s: string): (n: nat)
    ensures n <= |s|
  {
    match p
    case Url => UrlMatch(s)
    case Tag => TagMatch(s)
  }

  /** The characters a pattern never matches: whitespace for URLs, newlines
      for tags. */
  predicate Untouched(p: Pattern, c: char) {
    match p
    case Url => Text.IsPySpace(c)
    case Tag => c == '\n'
  }

  /** `re.sub(p, '', s)`: scan left to right, dropping each match and keeping
      every character at which no match starts. */
  function RemoveAll(s: string, p: Pattern): (r: string)
    ensures |r| <= |s|
    decreases |s|
  {
    if |s| == 0 then ""
    else
      var n := MatchAt(p, s);
      if n > 0 then RemoveAll(s[n..], p) else [s[0]] + RemoveAll(s[1..], p)
  }

  /** A match contains none of the characters the pattern never matches. */
  lemma MatchAvoidsUntouched(p: Pattern, s: string)
    ensures forall i :: 0 <= i < MatchAt(p, s) ==> !Untouched(p, s[i])
  {
  }

  lemma {:induction false} FilterSkip(s: string, n: nat, q: char -> bool)
    requires n <= |s|
    requires forall i :: 0 <= i < n ==> !q(s[i])
    ensures Sequences.Filter(s, q) == Sequences.Filter(s[n..], q)
    decreases n
  {
    if n > 0 {
      assert s[1..][n - 1..] == s[n..];
      FilterSkip(s[1..], n - 1, q);
    }
  }

  /** The removal keeps, in order, every whitespace character (URLs) or
      every newline (tags): only characters inside matches disappear. */
  lemma {:induction false} RemovalKeepsUntouched(s: string, p: Pattern)
    ensures Sequences.Filter(RemoveAll(s, p), c => Untouched(p, c)) == Sequences.Filter(s, c => Untouched(p, c))
    decreases |s|
  {
    var q := c => Untouched(p, c);
    if |s| > 0 {
      var n := MatchAt(p, s);
      MatchAvoidsUntouched(p, s);
      if n > 0 {
        FilterSkip(s, n, q);
        RemovalKeepsUntouched(s[n..], p);
      } else {
        RemovalKeepsUntouched(s[1..], p);
        var t := RemoveAll(s[1..], p);
        assert ([s[0]] + t)[1..] == t;
      }
    }
  }

  /** A text in which no match starts anywhere is left as it is. */
  lemma {:induction false} NoMatchUnchanged(s: string, p: Pattern)
    requires forall i :: 0 <= i < |s| ==> MatchAt(p, s[i..]) == 0
    ensures RemoveAll(s, p) == s
    decreases |s|
  {
    if |s| > 0 {
      assert s[0..] == s;
      forall i | 0 <= i < |s[1..]| ensures MatchAt(p, s[1..][i..]) == 0 {
        assert s[1..][i..] == s[i + 1..];
      }
      NoMatchUnchanged(s[1..], p);
    }
  }

  /** No match of the pattern starts before position `k` of `s`. */
  predicate NoMatchBefore(s: string, p: Pattern, k: nat)
    requires k <= |s|
  {
    forall i :: 0 <= i < k ==> MatchAt(p, s[i..]) == 0
  }

  lemma NoMatchBeforeTail(s: string, p: Pattern, k: nat)
    requires 0 < k <= |s| && NoMatchBefore(s, p, k)
    ensures MatchAt(p, s) == 0 && NoMatchBefore(s[1..], p, k - 1)
  {
    assert s[0..] == s;
    forall i | 0 <= i < k - 1 ensures MatchAt(p, s[1..][i..]) == 0 {
      assert s[1..][i..] == s[i + 1..];
    }
  }

  /** A character at which no match starts is kept. */
  lemma KeepsFirst(s: string, p: Pattern)
    requires |s| > 0 && MatchAt(p, s) == 0
    ensures RemoveAll(s, p) == [s[0]] + RemoveAll(s[1..], p)
  {
  }

  lemma ConsSplit(s: string, k: nat, rt: string, rest: string)
    requires 0 < k <= |s| && rt == s[1..][..k - 1] + rest
    ensures [s[0]] + rt == s[..k] + rest
  {
    assert [s[0]] + s[1..][..k - 1] == s[..k];
  }

  /** The text before the first match is kept as it is, and the scan goes on
      from there: `re.sub` cuts out the matches from left to right. */
  lemma {:induction false} RemoveAllSplits(s: string, p: Pattern, k: nat)
    requires k <= |s| && NoMatchBefore(s, p, k)
    ensures RemoveAll(s, p) == s[..k] + RemoveAll(s[k..], p)
    decreases k
  {
    if k > 0 {
      var t := s[1..];
      NoMatchBeforeTail(s, p, k);
      KeepsFirst(s, p);
      RemoveAllSplits(t, p, k - 1);
      assert t[k - 1..] == s[k..];
      ConsSplit(s, k, RemoveAll(t, p), RemoveAll(s[k..], p));
    }
  }

  /** No match of the pattern starts anywhere in `s`. */
  predicate NoMatchIn(s: string, p: Pattern) {
    forall i :: 0 <= i < |s| ==> MatchAt(p, s[i..]) == 0
  }

  /** No match of the pattern starts anywhere in the result: the removal
      leaves no URL (or no tag) behind, not even one formed by joining the
      text on either side of a removed match. */
  lemma {:induction false} RemoveAllLeavesNoMatch(s: string, p: Pattern)
    ensures NoMatchIn(RemoveAll(s, p), p)
    decreases |s|
  {
    var r := RemoveAll(s, p);
    if |s| > 0 {
      var n := MatchAt(p, s);
      if n > 0 {
        assert r == RemoveAll(s[n..], p);
        RemoveAllLeavesNoMatch(s[n..], p);
      } else {
        var t := RemoveAll(s[1..], p);
        assert r == [s[0]] + t;
        RemoveAllLeavesNoMatch(s[1..], p);
        HeadStaysUnmatched(s, p);
        forall i | 0 <= i < |r| ensures MatchAt(p, r[i..]) == 0 {
          if i == 0 {
            assert r[0..] == r;
          } else {
            assert r[i..] == t[i - 1..];
            assert MatchAt(p, t[i - 1..]) == 0;
          }
        }
      }
    }
  }

  /** Removing twice removes nothing more. */
  lemma RemoveAllIdempotent(s: string, p: Pattern)
    ensures RemoveAll(RemoveAll(s, p), p) == RemoveAll(s, p)
  {
    RemoveAllLeavesNoMatch(s, p);
    NoMatchUnchanged(RemoveAll(s, p), p);
  }

  /** A text at whose start no match begins keeps that property after the
      removal. */
  lemma HeadStaysUnmatched(s: string, p: Pattern)
    requires MatchAt(p, s) == 0
    ensures MatchAt(p, RemoveAll(s, p)) == 0
  {
    match p
    case Url => UrlStaysUnmatched(s);
    case Tag => TagStaysUnmatched(s);
  }

  /** The result of removing URLs agrees with the text up to its first
      whitespace character (or its end). */
  lemma {:induction false} UrlKeptHead(s: string) returns (j: nat)
    ensures var r := RemoveAll(s, Url);
      && j <= |s| && j <= |r| && r[..j] == s[..j]
      && (j == |r| || Text.IsPySpace(r[j]))
    decreases |s|
  {
    var r := RemoveAll(s, Url);
    j := 0;
    if |s| > 0 {
      var n := UrlMatch(s);
      if n > 0 {
        var u := s[n..];
        assert r == RemoveAll(u, Url);
        if n < |s| {
          assert u[0] == s[n];
          assert MatchAt(Url, u) == 0;
          assert r == [u[0]] + RemoveAll(u[1..], Url);
        }
      } else {
        var j' := UrlKeptHead(s[1..]);
        var t := RemoveAll(s[1..], Url);
        assert r == [s[0]] + t;
        j := j' + 1;
        assert r[..j] == [s[0]] + t[..j'];
        assert s[..j] == [s[0]] + s[1..][..j'];
      }
    }
  }

  /** A prefix without whitespace followed by a character other than
      whitespace lies inside the part that agrees. */
  lemma StartsCarriesOver(r: string, s: string, j: nat, prefix: string)
    requires j <= |r| && j <= |s| && r[..j] == s[..j]
    requires j == |r| || Text.IsPySpace(r[j])
    requires forall i :: 0 <= i < |prefix| ==> NotSpace(prefix[i])
    requires Starts(r, prefix)
    ensures Starts(s, prefix)
  {
    forall i | 0 <= i < |prefix| ensures r[i] == prefix[i] {
      assert r[..|prefix|][i] == r[i];
    }
    assert j > |prefix|;
    assert s[..|prefix|] == r[..j][..|prefix|];
    assert s[|prefix|] == r[..j][|prefix|];
  }

  lemma UrlStaysUnmatched(s: string)
    requires UrlMatch(s) == 0
    ensures UrlMatch(RemoveAll(s, Url)) == 0
  {
    var r := RemoveAll(s, Url);
    PrefixStaysAbsent(s, Https);
    PrefixStaysAbsent(s, Http);
    PrefixStaysAbsent(s, Www);
    assert !Starts(r, Https) && !Starts(r, Http) && !Starts(r, Www);
  }

  /** Each URL prefix is free of whitespace. */
  lemma SolidPrefix(prefix: string)
    requires prefix == Https || prefix == Http || prefix == Www
    ensures forall i :: 0 <= i < |prefix| ==> NotSpace(prefix[i])
  {
  }

  /** A URL prefix the text does not start with does not appear at the start
      once the URLs are removed. */
  lemma PrefixStaysAbsent(s: string, prefix: string)
    requires prefix == Https || prefix == Http || prefix == Www
    requires !Starts(s, prefix)
    ensures !Starts(RemoveAll(s, Url), prefix)
  {
    SolidPrefix(prefix);
    var j := UrlKeptHead(s);
    if Starts(RemoveAll(s, Url), prefix) {
      StartsCarriesOver(RemoveAll(s, Url), s, j, prefix);
    }
  }

  /** No `>` comes before the first newline (or the end). */
  predicate OpenLine(s: string)
    decreases |s|
  {
    |s| == 0 || s[0] == '\n' || (s[0] != '>' && OpenLine(s[1..]))
  }

  lemma {:induction false} TagStopOpenLine(s: string, j: nat)
    requires j <= |s|
    ensures OpenLine(s[j..]) <==> (TagStop(s, j) == |s| || s[TagStop(s, j)] == '\n')
    decreases |s| - j
  {
    if j < |s| {
      assert s[j..][0] == s[j];
      if s[j] != '>' && s[j] != '\n' {
        assert s[j..][1..] == s[j + 1..];
        TagStopOpenLine(s, j + 1);
      }
    }
  }

  /** Removing tags from a text with no `>` before its first newline removes
      nothing up to that newline. */
  lemma {:induction false} OpenLineKept(s: string)
    requires OpenLine(s)
    ensures OpenLine(RemoveAll(s, Tag))
    decreases |s|
  {
    if |s| > 0 && s[0] != '\n' {
      if s[0] == '<' {
        TagStopOpenLine(s, 1);
      }
      assert MatchAt(Tag, s) == 0;
      OpenLineKept(s[1..]);
      var r := RemoveAll(s, Tag);
      assert r[1..] == RemoveAll(s[1..], Tag);
    } else if |s| > 0 {
      assert RemoveAll(s, Tag)[0] == '\n';
    }
  }

  lemma TagStaysUnmatched(s: string)
    requires TagMatch(s) == 0
    ensures TagMatch(RemoveAll(s, Tag)) == 0
  {
    var r := RemoveAll(s, Tag);
    if |s| > 0 {
      assert r[0] == s[0];
      if s[0] == '<' {
        TagStopOpenLine(s, 1);
        OpenLineKept(s[1..]);
        assert r[1..] == RemoveAll(s[1..], Tag);
        TagStopOpenLine(r, 1);
      }
    }
  }

  // ---------------------------------------------------------------------------
  // Character-class removals

  /** `re.sub(r'[^\w\s]', '', s)`: only word characters and whitespace stay,
      each of them as often as before and in order. */
  function RemovePunctuation(db: CharDb, s: string): (r: string)
    ensures forall i :: 0 <= i < |r| ==> db.word(r[i]) || Text.IsPySpace(r[i])
    ensures forall c :: db.word(c) || Text.IsPySpace(c) ==> multiset(r)[c] == multiset(s)[c]
    ensures forall c :: !(db.word(c) || Text.IsPySpace(c)) ==> multiset(r)[c] == 0
  {
    var q := (c: char) => db.word(c) || Text.IsPySpace(c);
    FilterCounts(s, q);
    Sequences.Filter(s, q)
  }

  /** `re.sub(r'\d+', '', s)`: removing every run of digits removes every
      digit and nothing else. */
  function RemoveDigits(db: CharDb, s: string): (r: string)
    ensures forall i :: 0 <= i < |r| ==> !db.digit(r[i])
    ensures forall c :: !db.digit(c) ==> multiset(r)[c] == multiset(s)[c]
  {
    var q := (c: char) => !db.digit(c);
    FilterCounts(s, q);
    Sequences.Filter(s, q)
  }

  lemma FilterCounts(s: string, q: char -> bool)
    ensures forall c :: multiset(Sequences.Filter(s, q))[c] == if q(c) then multiset(s)[c] else 0
  {
    forall c {
      Sequences.FilterMultiset(s, q, c);
    }
  }

  // ---------------------------------------------------------------------------
  // Whitespace: `re.sub(r'\s+', ' ', s).strip()` and `str.split()`

  /** Every whitespace character is a plain space and no two spaces are
      adjacent. */
  predicate SingleSpaced(s: string) {
    && (forall i :: 0 <= i < |s| && Text.IsPySpace(s[i]) ==> s[i] == ' ')
    && (forall i :: 0 <= i < |s| - 1 ==> !(s[i] == ' ' && s[i + 1] == ' '))
  }

  /** Single-spaced, and neither starting nor ending with a space. */
  predicate WellSpaced(s: string) {
    SingleSpaced(s) && (|s| > 0 ==> s[0] != ' ' && s[|s| - 1] != ' ')
  }

  lemma SingleSpacedSlice(s: string, a: nat, b: nat)
    requires a <= b <= |s| && SingleSpaced(s)
    ensures SingleSpaced(s[a..b])
  {
    assert forall i :: 0 <= i < b - a ==> s[a..b][i] == s[a + i];
  }

  /** `re.sub(r'\s+', ' ', s)`: each maximal run of whitespace becomes one
      space. */
  function Collapse(s: string): (r: string)
    ensures |r| == 0 <==> |s| == 0
    ensures |r| > 0 ==> (r[0] == ' ' <==> Text.IsPySpace(s[0]))
    ensures |r| > 0 && NotSpace(s[0]) ==> r[0] == s[0]
    ensures SingleSpaced(r)
    decreases |s|
  {
    if |s| == 0 then ""
    else if Text.IsPySpace(s[0]) then
      var k := Text.Leading(s, Text.IsPySpace);
      var t := Collapse(s[k..]);
      assert |t| > 0 ==> t[0] != ' ';
      assert forall i :: 1 <= i < |t| + 1 ==> ([' '] + t)[i] == t[i - 1];
      [' '] + t
    else
      var t := Collapse(s[1..]);
      assert forall i :: 1 <= i < |t| + 1 ==> ([s[0]] + t)[i] == t[i - 1];
      [s[0]] + t
  }

  /** The characters other than whitespace survive the collapse, in order. */
  lemma {:induction false} CollapseKeepsWords(s: string)
    ensures Sequences.Filter(Collapse(s), NotSpace) == Sequences.Filter(s, NotSpace)
    decreases |s|
  {
    if |s| > 0 {
      if Text.IsPySpace(s[0]) {
        var k := Text.Leading(s, Text.IsPySpace);
        FilterSkip(s, k, NotSpace);
        CollapseKeepsWords(s[k..]);
        assert ([' '] + Collapse(s[k..]))[1..] == Collapse(s[k..]);
      } else {
        CollapseKeepsWords(s[1..]);
        assert ([s[0]] + Collapse(s[1..]))[1..] == Collapse(s[1..]);
      }
    }
  }

  /** A run of characters other than whitespace passes through the collapse
      unchanged. */
  lemma {:induction false} CollapseWord(s: string, w: nat)
    requires w <= |s|
    requires forall i :: 0 <= i < w ==> NotSpace(s[i])
    ensures Collapse(s) == s[..w] + Collapse(s[w..])
    decreases w
  {
    if w > 0 {
      var t := s[1..];
      assert Collapse(s) == [s[0]] + Collapse(t);
      CollapseWord(t, w - 1);
      assert t[w - 1..] == s[w..];
      ConsSplit(s, w, Collapse(t), Collapse(s[w..]));
    }
  }

  /** Collapsing keeps the words: each whitespace run becomes a single space,
      so words stay apart and none is split or joined. */
  lemma {:induction false} CollapseKeepsSplit(s: string)
    ensures PySplit(Collapse(s)) == PySplit(s)
    decreases |s|
  {
    if |s| > 0 {
      if Text.IsPySpace(s[0]) {
        var k := Text.Leading(s, Text.IsPySpace);
        var c := Collapse(s[k..]);
        assert Collapse(s) == " " + c;
        PySplitSkipsSpace(s);
        CollapseKeepsSplit(s[k..]);
        if |c| == 0 {
          PySplitSkipsSpace(" ");
          assert " "[1..] == [];
        } else {
          assert s[k..][0] == s[k];
          PySplitDropsSpace(c);
        }
      } else {
        var w := Text.Leading(s, NotSpace);
        CollapseWord(s, w);
        assert s == s[..w] + s[w..];
        if w == |s| {
          assert s[w..] == [];
          assert Collapse(s) == s;
        } else {
          var u := s[w..];
          assert u[0] == s[w];
          assert IsWord(s[..w]);
          PySplitLeadingWord(s[..w], u);
          CollapseKeepsSplit(u);
          PySplitLeadingWord(s[..w], Collapse(u));
        }
      }
    }
  }

  /** `re.sub(r'\s+', ' ', s).strip()`. */
  function NormalizeSpace(s: string): (r: string)
    ensures WellSpaced(r)
  {
    var c := Collapse(s);
    var r := Text.Strip(c, Text.IsPySpace);
    var k := Text.Leading(c, Text.IsPySpace);
    SingleSpacedSlice(c, k, k + |r|);
    r
  }

  /** A non-empty word without whitespace. */
  predicate IsWord(w: string) {
    |w| > 0 && forall i :: 0 <= i < |w| ==> NotSpace(w[i])
  }

  predicate WordList(ws: seq<string>) {
    forall k :: 0 <= k < |ws| ==> IsWord(ws[k])
  }

  /** `s.split()`: the maximal runs of non-whitespace characters, in order. */
  function PySplit(s: string): (ws: seq<string>)
    decreases |s|
  {
    var t := s[Text.Leading(s, Text.IsPySpace)..];
    if |t| == 0 then []
    else
      var w := Text.Leading(t, NotSpace);
      [t[..w]] + PySplit(t[w..])
  }

  /** The words are non-empty and hold no whitespace. */
  lemma {:induction false} PySplitWords(s: string)
    ensures WordList(PySplit(s))
    decreases |s|
  {
    var t := s[Text.Leading(s, Text.IsPySpace)..];
    if |t| > 0 {
      var w := FirstWord(s);
      PySplitWords(t[w..]);
      WordListCons(t[..w], PySplit(t[w..]));
    }
  }

  /** The first word of a text that is not all whitespace. */
  lemma FirstWord(s: string) returns (w: nat)
    requires |s[Text.Leading(s, Text.IsPySpace)..]| > 0
    ensures var t := s[Text.Leading(s, Text.IsPySpace)..];
      && w == Text.Leading(t, NotSpace)
      && IsWord(t[..w])
      && PySplit(s) == [t[..w]] + PySplit(t[w..])
  {
    var t := s[Text.Leading(s, Text.IsPySpace)..];
    w := Text.Leading(t, NotSpace);
  }

  lemma WordListCons(w: string, rest: seq<string>)
    requires IsWord(w) && WordList(rest)
    ensures WordList([w] + rest)
  {
    var ws := [w] + rest;
    forall k | 0 <= k < |ws| ensures IsWord(ws[k]) {
      if k > 0 {
        assert ws[k] == rest[k - 1];
      }
    }
  }

  /** Leading whitespace does not change the words. */
  lemma PySplitSkipsSpace(s: string)
    ensures PySplit(s) == PySplit(s[Text.Leading(s, Text.IsPySpace)..])
  {
    var t := s[Text.Leading(s, Text.IsPySpace)..];
    assert Text.Leading(t, Text.IsPySpace) == 0;
    assert t[0..] == t;
  }

  /** The length of the leading run of `a + b` when all of `a` qualifies and
      `b` does not start with a qualifying character. */
  lemma LeadingOfConcat(a: string, b: string, q: char -> bool)
    requires forall i :: 0 <= i < |a| ==> q(a[i])
    requires |b| > 0 ==> !q(b[0])
    ensures Text.Leading(a + b, q) == |a|
  {
    assert forall i :: 0 <= i < |a| ==> (a + b)[i] == a[i];
    assert |b| > 0 ==> (a + b)[|a|] == b[0];
  }

  lemma JoinCons(w: string, rest: seq<string>, sep: string)
    requires |rest| > 0
    ensures Text.Join([w] + rest, sep) == w + sep + Text.Join(rest, sep)
  {
    assert ([w] + rest)[1..] == rest;
  }

  lemma {:induction false} JoinFirst(ws: seq<string>, sep: string)
    requires |ws| > 0 && |ws[0]| > 0
    ensures |Text.Join(ws, sep)| > 0 && Text.Join(ws, sep)[0] == ws[0][0]
  {
  }

  /** The words of a text that starts with a word `w` followed by a space. */
  lemma PySplitWordThenSpace(w: string, rest: string)
    requires IsWord(w)
    requires |rest| > 0 && NotSpace(rest[0])
    ensures PySplit(w + " " + rest) == [w] + PySplit(rest)
  {
    assert w + " " + rest == w + (" " + rest);
    PySplitLeadingWord(w, " " + rest);
    PySplitDropsSpace(rest);
  }

  /** A text that starts with a word `w` ending at whitespace. */
  lemma PySplitLeadingWord(w: string, tail: string)
    requires IsWord(w) && |tail| > 0 && !NotSpace(tail[0])
    ensures PySplit(w + tail) == [w] + PySplit(tail)
  {
    var s := w + tail;
    LeadingOfConcat([], s, Text.IsPySpace);
    assert [] + s == s && s[0..] == s;
    LeadingOfConcat(w, tail, NotSpace);
    assert s[..|w|] == w;
    assert s[|w|..] == tail;
  }

  /** One space before a word is skipped. */
  lemma PySplitDropsSpace(rest: string)
    requires |rest| > 0 && NotSpace(rest[0])
    ensures PySplit(" " + rest) == PySplit(rest)
  {
    LeadingOfConcat(" ", rest, Text.IsPySpace);
    PySplitSkipsSpace(" " + rest);
    assert (" " + rest)[1..] == rest;
  }

  /** The words of a text without whitespace: the text itself. */
  lemma PySplitOneWord(w: string)
    requires IsWord(w)
    ensures PySplit(w) == [w]
  {
    LeadingOfConcat([], w, Text.IsPySpace);
    LeadingOfConcat(w, [], NotSpace);
    assert [] + w == w + [] == w;
    assert w[0..] == w && w[..|w|] == w;
    assert w[|w|..] == [];
  }

  /** Splitting undoes joining with single spaces, for non-empty words
      without whitespace. */
  lemma {:induction false} SplitJoinWords(ws: seq<string>)
    requires WordList(ws)
    ensures PySplit(Text.Join(ws, " ")) == ws
    decreases |ws|
  {
    if |ws| == 1 {
      PySplitOneWord(ws[0]);
    } else if |ws| > 1 {
      JoinCons(ws[0], ws[1..], " ");
      assert [ws[0]] + ws[1..] == ws;
      JoinFirst(ws[1..], " ");
      assert ws[1..][0] == ws[1];
      PySplitWordThenSpace(ws[0], Text.Join(ws[1..], " "));
      assert WordList(ws[1..]) by {
        assert forall k :: 0 <= k < |ws| - 1 ==> ws[1..][k] == ws[k + 1];
      }
      SplitJoinWords(ws[1..]);
    }
  }

  /** A well-spaced text with a space in it: its first word, and the
      well-spaced rest after the space. */
  lemma WellSpacedCut(s: string) returns (w: nat)
    requires WellSpaced(s) && |s| > 0 && exists i :: 0 <= i < |s| && Text.IsPySpace(s[i])
    ensures 0 < w < |s| - 1 && s[w] == ' '
    ensures forall i :: 0 <= i < w ==> NotSpace(s[i])
    ensures WellSpaced(s[w + 1..]) && |s[w + 1..]| > 0
    ensures s == s[..w] + " " + s[w + 1..]
  {
    w := Text.Leading(s, NotSpace);
    assert s[w] == ' ';
    SingleSpacedSlice(s, w + 1, |s|);
  }

  /** A well-spaced text is its words joined by single spaces. */
  lemma {:induction false} JoinSplitWellSpaced(s: string)
    requires WellSpaced(s)
    ensures Text.Join(PySplit(s), " ") == s
    decreases |s|
  {
    if |s| > 0 {
      if exists i :: 0 <= i < |s| && Text.IsPySpace(s[i]) {
        var w := WellSpacedCut(s);
        var u := s[w + 1..];
        PySplitWordThenSpace(s[..w], u);
        JoinSplitWellSpaced(u);
        JoinCons(s[..w], PySplit(u), " ");
      } else {
        PySplitOneWord(s);
      }
    }
  }

  /** Every character of a text satisfies `q` or is whitespace. */
  predicate AllCharsOr(s: string, q: char -> bool) {
    forall i :: 0 <= i < |s| ==> q(s[i]) || Text.IsPySpace(s[i])
  }

  lemma AllCharsOrSuffix(s: string, j: nat, q: char -> bool)
    requires j <= |s| && AllCharsOr(s, q)
    ensures AllCharsOr(s[j..], q)
  {
    assert forall i :: 0 <= i < |s| - j ==> s[j..][i] == s[j + i];
  }

  /** A word at the start of `t` satisfies `q` when every character of `t`
      satisfies it or is whitespace. */
  lemma PrefixSatisfies(t: string, w: nat, q: char -> bool)
    requires w <= |t| && AllCharsOr(t, q) && IsWord(t[..w])
    ensures Text.AllSatisfy(t[..w], q)
  {
    assert forall i :: 0 <= i < w ==> t[..w][i] == t[i];
  }

  /** Every word of `ws` satisfies `q` throughout. */
  predicate WordsAll(ws: seq<string>, q: char -> bool) {
    forall k :: 0 <= k < |ws| ==> Text.AllSatisfy(ws[k], q)
  }

  lemma WordsAllCons(w: string, rest: seq<string>, q: char -> bool)
    requires Text.AllSatisfy(w, q) && WordsAll(rest, q)
    ensures WordsAll([w] + rest, q)
  {
    var ws := [w] + rest;
    assert forall k :: 0 < k < |ws| ==> ws[k] == rest[k - 1];
  }

  /** The words of `s` satisfy `q` throughout when the characters of `s`
      that are not whitespace do. */
  lemma {:induction false} SplitSatisfies(s: string, q: char -> bool)
    requires AllCharsOr(s, q)
    ensures WordsAll(PySplit(s), q)
    decreases |s|
  {
    var L := Text.Leading(s, Text.IsPySpace);
    var t := s[L..];
    if |t| > 0 {
      AllCharsOrSuffix(s, L, q);
      var w := FirstWord(s);
      PrefixSatisfies(t, w, q);
      AllCharsOrSuffix(t, w, q);
      SplitSatisfies(t[w..], q);
      WordsAllCons(t[..w], PySplit(t[w..]), q);
    }
  }

  /** When every character of `s` satisfies `q` or is whitespace, every
      character of every word of `s` satisfies `q`. */
  lemma WordsSatisfy(s: string, q: char -> bool)
    requires AllCharsOr(s, q)
    ensures forall k, i :: 0 <= k < |PySplit(s)| && 0 <= i < |PySplit(s)[k]| ==> q(PySplit(s)[k][i])
  {
    SplitSatisfies(s, q);
    forall k | 0 <= k < |PySplit(s)| ensures forall i :: 0 <= i < |PySplit(s)[k]| ==> q(PySplit(s)[k][i]) {
      assert Text.AllSatisfy(PySplit(s)[k], q);
    }
  }

  // ---------------------------------------------------------------------------
  // The pipeline

  /** The text after the regular-expression steps and the whitespace step. */
  function Clean(db: CharDb, text: string): string {
    var noUrls := RemoveAll(Lower(db, text), Url);
    var noTags := RemoveAll(noUrls, Tag);
    NormalizeSpace(RemoveDigits(db, RemovePunctuation(db, noTags)))
  }

  /** The words kept after dropping stopwords, each lemmatized. */
  function KeptLemmas(words: seq<string>, stop: set<string>, lemmatize: string -> string): (r: seq<string>)
    ensures |r| <= |words|
    decreases |words|
  {
    if |words| == 0 then []
    else if words[0] in stop then KeptLemmas(words[1..], stop, lemmatize)
    else [lemmatize(words[0])] + KeptLemmas(words[1..], stop, lemmatize)
  }

  /** `preprocess_text(text)`. */
  function Preprocess(db: CharDb, stop: set<string>, lemmatize: string -> string, text: string): string {
    Text.Join(KeptLemmas(PySplit(Clean(db, text)), stop, lemmatize), " ")
  }

  /** The cleaned text holds only word characters other than digits and
      single spaces between them. */
  lemma CleanShape(db: CharDb, text: string)
    ensures var c := Clean(db, text);
      && WellSpaced(c)
      && forall i :: 0 <= i < |c| ==> c[i] == ' ' || Letterlike(db, c[i])
  {
    var noTags := RemoveAll(RemoveAll(Lower(db, text), Url), Tag);
    var d := RemoveDigits(db, RemovePunctuation(db, noTags));
    assert Clean(db, text) == NormalizeSpace(d);
    ClassesBeforeCollapse(db, noTags);
    NormalizedShape(db, d);
  }

  lemma NormalizedShape(db: CharDb, d: string)
    requires forall i :: 0 <= i < |d| ==> Text.IsPySpace(d[i]) || Letterlike(db, d[i])
    ensures var c := NormalizeSpace(d);
      forall i :: 0 <= i < |c| ==> c[i] == ' ' || Letterlike(db, c[i])
  {
    var col := Collapse(d);
    CollapseShape(db, d);
    var c := NormalizeSpace(d);
    assert c == Text.Strip(col, Text.IsPySpace);
    var k := Text.Leading(col, Text.IsPySpace);
    assert k + |c| <= |col| && c == col[k..k + |c|];
    SliceShape(db, col, k, c);
  }

  lemma SliceShape(db: CharDb, col: string, k: nat, c: string)
    requires k + |c| <= |col| && c == col[k..k + |c|]
    requires forall j :: 0 <= j < |col| ==> col[j] == ' ' || Letterlike(db, col[j])
    ensures forall i :: 0 <= i < |c| ==> c[i] == ' ' || Letterlike(db, c[i])
  {
    forall i | 0 <= i < |c| ensures c[i] == ' ' || Letterlike(db, c[i]) {
      assert c[i] == col[k + i];
    }
  }

  /** A word character other than a digit. */
  predicate Letterlike(db: CharDb, c: char) {
    db.word(c) && !db.digit(c)
  }

  lemma ClassesBeforeCollapse(db: CharDb, s: string)
    ensures var d := RemoveDigits(db, RemovePunctuation(db, s));
      forall i :: 0 <= i < |d| ==> Text.IsPySpace(d[i]) || Letterlike(db, d[i])
  {
    var p := RemovePunctuation(db, s);
    var d := RemoveDigits(db, p);
    forall i | 0 <= i < |d| ensures Text.IsPySpace(d[i]) || Letterlike(db, d[i]) {
      assert d[i] in multiset(d);
      assert d[i] in multiset(p);
      assert d[i] in p;
    }
  }

  lemma CollapseShape(db: CharDb, d: string)
    requires forall i :: 0 <= i < |d| ==> Text.IsPySpace(d[i]) || Letterlike(db, d[i])
    ensures forall i :: 0 <= i < |Collapse(d)| ==> Collapse(d)[i] == ' ' || Letterlike(db, Collapse(d)[i])
  {
    var col := Collapse(d);
    CollapseKeepsWords(d);
    forall i | 0 <= i < |col| ensures col[i] == ' ' || Letterlike(db, col[i]) {
      if NotSpace(col[i]) {
        assert col[i] in Sequences.Filter(col, NotSpace);
        assert col[i] in d;
      }
    }
  }

  /** The words handed to the lemmatizer are the cleaned text's words: each
      non-empty and made of word characters other than digits; joined by
      single spaces they give back the cleaned text. */
  lemma CleanWords(db: CharDb, text: string)
    ensures var c := Clean(db, text);
      var ws := PySplit(c);
      && Text.Join(ws, " ") == c
      && forall k, i :: 0 <= k < |ws| && 0 <= i < |ws[k]| ==> Letterlike(db, ws[k][i])
  {
    var c := Clean(db, text);
    CleanShape(db, text);
    JoinSplitWellSpaced(c);
    WordsSatisfy(c, ch => Letterlike(db, ch));
  }

  /** The output's words are, in order, the lemmas of the cleaned words that
      are not stopwords, as long as no lemma is empty or contains whitespace. */
  lemma OutputWords(db: CharDb, stop: set<string>, lemmatize: string -> string, text: string)
    requires WordList(KeptLemmas(PySplit(Clean(db, text)), stop, lemmatize))
    ensures PySplit(Preprocess(db, stop, lemmatize, text)) == KeptLemmas(PySplit(Clean(db, text)), stop, lemmatize)
  {
    SplitJoinWords(KeptLemmas(PySplit(Clean(db, text)), stop, lemmatize));
  }

  /** The kept lemmas are those of the non-stopwords, in order. */
  lemma {:induction false} KeptLemmasAreFiltered(words: seq<string>, stop: set<string>, lemmatize: string -> string)
    ensures var kept := Sequences.Filter(words, w => w !in stop);
      KeptLemmas(words, stop, lemmatize) == seq(|kept|, k requires 0 <= k < |kept| => lemmatize(kept[k]))
    decreases |words|
  {
    if |words| > 0 {
      KeptLemmasAreFiltered(words[1..], stop, lemmatize);
    }
  }
}
