/** Generic sequence operations: `Array.prototype.filter`, and a stable sort
    by a numeric key (JavaScript's `Array.prototype.sort` and Python's `sorted`
    are both stable). */
module Sequences {

  /** `s.filter(p)`: the elements satisfying `p`, in their original order. */
  function Filter<T>(s: seq<T>, p: T -> bool): (r: seq<T>)
    ensures |r| <= |s|
    ensures forall i :: 0 <= i < |r| ==> r[i] in s && p(r[i])
    ensures forall i :: 0 <= i < |s| && p(s[i]) ==> s[i] in r
  {
    if |s| == 0 then []
    else if p(s[0]) then [s[0]] + Filter(s[1..], p)
    else Filter(s[1..], p)
  }

  /** `a` can be obtained from `b` by deleting elements: relative order is kept. */
  predicate IsSubsequence<T(==)>(a: seq<T>, b: seq<T>)
    decreases |b|
  {
    if |a| == 0 then true
    else if |b| == 0 then false
    else if a[0] == b[0] then IsSubsequence(a[1..], b[1..])
    else IsSubsequence(a, b[1..])
  }

  lemma {:induction false} FilterIsSubsequence<T>(s: seq<T>, p: T -> bool)
    ensures IsSubsequence(Filter(s, p), s)
    decreases |s|
  {
    if |s| > 0 {
      FilterIsSubsequence(s[1..], p);
    }
  }

  /** The filter of a sequence as a multiset: its elements satisfying `p`. */
  lemma {:induction false} FilterMultiset<T>(s: seq<T>, p: T -> bool, x: T)
    ensures multiset(Filter(s, p))[x] == if p(x) then multiset(s)[x] else 0
    decreases |s|
  {
    if |s| > 0 {
      FilterMultiset(s[1..], p, x);
      assert s == [s[0]] + s[1..];
    }
  }

  /** Filters that agree on every element of `s` select the same elements. */
  lemma {:induction false} FilterCongruent<T>(s: seq<T>, p: T -> bool, q: T -> bool)
    requires forall i :: 0 <= i < |s| ==> p(s[i]) == q(s[i])
    ensures Filter(s, p) == Filter(s, q)
    decreases |s|
  {
    if |s| > 0 {
      assert forall i :: 0 <= i < |s[1..]| ==> s[1..][i] == s[i + 1];
      FilterCongruent(s[1..], p, q);
    }
  }

  /** Filtering by `p` first changes nothing when `q` implies `p`. */
  lemma {:induction false} FilterFilter<T>(s: seq<T>, p: T -> bool, q: T -> bool)
    requires forall i :: 0 <= i < |s| && q(s[i]) ==> p(s[i])
    ensures Filter(Filter(s, p), q) == Filter(s, q)
    decreases |s|
  {
    if |s| > 0 {
      assert forall i :: 0 <= i < |s[1..]| ==> s[1..][i] == s[i + 1];
      FilterFilter(s[1..], p, q);
      if p(s[0]) {
        assert ([s[0]] + Filter(s[1..], p))[1..] == Filter(s[1..], p);
      }
    }
  }

  // ---------------------------------------------------------------------------
  // Stable sort by a numeric key

  predicate SortedBy<T>(s: seq<T>, key: T -> real) {
    forall i, j :: 0 <= i < j < |s| ==> key(s[i]) <= key(s[j])
  }

  /** Inserts `x` before the first element whose key is not smaller, so that `x`
      stays ahead of every element with the same key. */
  function Insert<T>(x: T, s: seq<T>, key: T -> real): (r: seq<T>)
    ensures |r| == |s| + 1
    ensures multiset(r) == multiset(s) + multiset{x}
    decreases |s|
  {
    if |s| == 0 || key(x) <= key(s[0]) then [x] + s
    else
      assert s == [s[0]] + s[1..];
      [s[0]] + Insert(x, s[1..], key)
  }

  /** Every element of `Insert(x, s, key)` is `x` or an element of `s`. */
  lemma {:induction false} InsertElements<T>(x: T, s: seq<T>, key: T -> real)
    ensures forall i :: 0 <= i < |s| + 1 ==> Insert(x, s, key)[i] == x || Insert(x, s, key)[i] in s
    decreases |s|
  {
    if |s| > 0 && key(x) > key(s[0]) {
      InsertElements(x, s[1..], key);
      var t := Insert(x, s[1..], key);
      forall i | 0 < i < |s| + 1 ensures Insert(x, s, key)[i] == x || Insert(x, s, key)[i] in s {
        assert Insert(x, s, key)[i] == t[i - 1];
        if t[i - 1] != x {
          assert t[i - 1] in s[1..];
        }
      }
    }
  }

  lemma {:induction false} InsertSorted<T>(x: T, s: seq<T>, key: T -> real)
    requires SortedBy(s, key)
    ensures SortedBy(Insert(x, s, key), key)
    decreases |s|
  {
    var r := Insert(x, s, key);
    if |s| > 0 && key(x) > key(s[0]) {
      InsertSorted(x, s[1..], key);
      InsertElements(x, s[1..], key);
      var t := Insert(x, s[1..], key);
      assert r == [s[0]] + t;
      forall k | 0 <= k < |t| ensures key(s[0]) <= key(t[k]) {
        if t[k] != x {
          var m :| 0 <= m < |s[1..]| && s[1..][m] == t[k];
          assert s[m + 1] == t[k];
        }
      }
      forall i, j | 0 <= i < j < |r| ensures key(r[i]) <= key(r[j]) {
        assert r[j] == t[j - 1];
        if i > 0 {
          assert r[i] == t[i - 1];
        }
      }
    } else if |s| > 0 {
      assert r == [x] + s;
      forall i, j | 0 <= i < j < |r| ensures key(r[i]) <= key(r[j]) {
        assert r[j] == s[j - 1];
        if i > 0 {
          assert r[i] == s[i - 1];
        } else {
          assert key(s[0]) <= key(s[j - 1]);
        }
      }
    }
  }

  /** Insertion sort ordered ascending by `key`; stable. */
  function SortBy<T>(s: seq<T>, key: T -> real): (r: seq<T>)
    ensures SortedBy(r, key)
    ensures |r| == |s|
    ensures multiset(r) == multiset(s)
    decreases |s|
  {
    if |s| == 0 then []
    else
      var t := SortBy(s[1..], key);
      assert s == [s[0]] + s[1..];
      InsertSorted(s[0], t, key);
      Insert(s[0], t, key)
  }

  /** `a` comes before `b`: by `key`, and by `tie` among equal keys. */
  predicate LexBefore<T>(a: T, b: T, key: T -> real, tie: T -> int) {
    key(a) < key(b) || (key(a) == key(b) && tie(a) < tie(b))
  }

  predicate LexSorted<T>(s: seq<T>, key: T -> real, tie: T -> int) {
    forall i, j :: 0 <= i < j < |s| ==> LexBefore(s[i], s[j], key, tie)
  }

  predicate StrictlyIncreasing<T>(s: seq<T>, tie: T -> int) {
    forall i, j :: 0 <= i < j < |s| ==> tie(s[i]) < tie(s[j])
  }

  lemma {:induction false} InsertLex<T>(x: T, s: seq<T>, key: T -> real, tie: T -> int)
    requires SortedBy(s, key) && LexSorted(s, key, tie)
    requires forall k :: 0 <= k < |s| ==> tie(x) < tie(s[k])
    ensures LexSorted(Insert(x, s, key), key, tie)
    decreases |s|
  {
    var r := Insert(x, s, key);
    if |s| > 0 && key(x) > key(s[0]) {
      InsertLex(x, s[1..], key, tie);
      InsertElements(x, s[1..], key);
      var t := Insert(x, s[1..], key);
      assert r == [s[0]] + t;
      forall k | 0 <= k < |t| ensures LexBefore(s[0], t[k], key, tie) {
        if t[k] != x {
          var m :| 0 <= m < |s[1..]| && s[1..][m] == t[k];
          assert s[m + 1] == t[k];
        }
      }
      forall i, j | 0 <= i < j < |r| ensures LexBefore(r[i], r[j], key, tie) {
        assert r[j] == t[j - 1];
        if i > 0 {
          assert r[i] == t[i - 1];
        }
      }
    } else if |s| > 0 {
      assert r == [x] + s;
      forall i, j | 0 <= i < j < |r| ensures LexBefore(r[i], r[j], key, tie) {
        assert r[j] == s[j - 1];
        if i > 0 {
          assert r[i] == s[i - 1];
        } else {
          assert key(s[0]) <= key(s[j - 1]);
        }
      }
    }
  }

  /** Stability: when the input is strictly increasing in `tie`, elements with
      equal keys come out in input order, i.e. ordered by `tie`. */
  lemma {:induction false} SortByStable<T>(s: seq<T>, key: T -> real, tie: T -> int)
    requires StrictlyIncreasing(s, tie)
    ensures LexSorted(SortBy(s, key), key, tie)
    decreases |s|
  {
    if |s| > 0 {
      SortByStable(s[1..], key, tie);
      var t := SortBy(s[1..], key);
      forall k | 0 <= k < |t| ensures tie(s[0]) < tie(t[k]) {
        assert t[k] in multiset(t);
        assert t[k] in s[1..];
        var m :| 0 <= m < |s[1..]| && s[1..][m] == t[k];
        assert s[m + 1] == t[k];
      }
      InsertLex(s[0], t, key, tie);
    }
  }

  // ---------------------------------------------------------------------------
  // First occurrences

  /** The index of the first occurrence of `x` in `s`. */
  function FirstIndex<T(==)>(s: seq<T>, x: T): (i: nat)
    requires x in s
    ensures i < |s| && s[i] == x
    ensures forall k :: 0 <= k < i ==> s[k] != x
  {
    if s[0] == x then 0 else 1 + FirstIndex(s[1..], x)
  }

  lemma {:induction false} FirstIndexInPrefix<T>(s: seq<T>, n: nat, x: T)
    requires n <= |s| && x in s[..n]
    ensures x in s && FirstIndex(s, x) == FirstIndex(s[..n], x)
  {
    var i := FirstIndex(s[..n], x);
    assert s[i] == x;
    assert forall k :: 0 <= k < i ==> s[k] == s[..n][k];
  }

  /** Every element of `s` occurs once. */
  predicate Distinct<T(==)>(s: seq<T>) {
    forall i, j :: 0 <= i < j < |s| ==> s[i] != s[j]
  }

  /** A sequence in which nothing occurs twice is distinct. */
  lemma {:induction false} DistinctFromCounts<T>(s: seq<T>)
    requires forall x :: multiset(s)[x] <= 1
    ensures Distinct(s)
    decreases |s|
  {
    if |s| > 0 {
      var rest := s[1..];
      assert s == [s[0]] + rest;
      assert multiset(s) == multiset{s[0]} + multiset(rest);
      forall x ensures multiset(rest)[x] <= 1 {
        assert multiset(rest)[x] <= multiset(s)[x];
      }
      DistinctFromCounts(rest);
      assert multiset(s)[s[0]] == multiset(rest)[s[0]] + 1;
      assert s[0] !in rest;
      forall a, b | 0 <= a < b < |s| ensures s[a] != s[b] {
        assert s[b] == rest[b - 1];
        if a > 0 {
          assert s[a] == rest[a - 1];
        }
      }
    }
  }

  /** `Array.from(new Set(s))`: each element once, in order of first appearance. */
  function Dedup<T(==)>(s: seq<T>): (r: seq<T>)
    ensures Distinct(r)
    ensures forall i :: 0 <= i < |r| ==> r[i] in s
    ensures forall i :: 0 <= i < |s| ==> s[i] in r
    ensures forall i, j :: 0 <= i < j < |r| ==> FirstIndex(s, r[i]) < FirstIndex(s, r[j])
    decreases |s|
  {
    if |s| == 0 then []
    else
      var p := s[..|s| - 1];
      var d := Dedup(p);
      var x := s[|s| - 1];
      DedupStep(s, d);
      if x in d then d else d + [x]
  }

  lemma DedupStep<T>(s: seq<T>, d: seq<T>)
    requires |s| > 0
    requires var p := s[..|s| - 1];
      && Distinct(d)
      && (forall i :: 0 <= i < |d| ==> d[i] in p)
      && (forall i :: 0 <= i < |p| ==> p[i] in d)
      && (forall i, j :: 0 <= i < j < |d| ==> FirstIndex(p, d[i]) < FirstIndex(p, d[j]))
    ensures var x := s[|s| - 1];
      var r := if x in d then d else d + [x];
      && Distinct(r)
      && (forall i :: 0 <= i < |r| ==> r[i] in s)
      && (forall i :: 0 <= i < |s| ==> s[i] in r)
      && (forall i, j :: 0 <= i < j < |r| ==> FirstIndex(s, r[i]) < FirstIndex(s, r[j]))
  {
    if s[|s| - 1] in d {
      DedupStepSeen(s, d);
    } else {
      DedupStepNew(s, d);
    }
  }

  /** The last element already occurs earlier: the deduplication stays. */
  lemma DedupStepSeen<T>(s: seq<T>, d: seq<T>)
    requires |s| > 0
    requires var p := s[..|s| - 1];
      && Distinct(d)
      && (forall i :: 0 <= i < |d| ==> d[i] in p)
      && (forall i :: 0 <= i < |p| ==> p[i] in d)
      && (forall i, j :: 0 <= i < j < |d| ==> FirstIndex(p, d[i]) < FirstIndex(p, d[j]))
    requires s[|s| - 1] in d
    ensures && Distinct(d)
      && (forall i :: 0 <= i < |d| ==> d[i] in s)
      && (forall i :: 0 <= i < |s| ==> s[i] in d)
      && (forall i, j :: 0 <= i < j < |d| ==> FirstIndex(s, d[i]) < FirstIndex(s, d[j]))
  {
    var p := s[..|s| - 1];
    assert s == p + [s[|s| - 1]];
    forall i | 0 <= i < |d| ensures d[i] in s && FirstIndex(s, d[i]) == FirstIndex(p, d[i]) {
      FirstIndexInPrefix(s, |s| - 1, d[i]);
    }
    forall i | 0 <= i < |s| ensures s[i] in d {
      if i < |p| {
        assert s[i] == p[i];
      }
    }
  }

  /** The last element is new: it is appended. */
  lemma DedupStepNew<T>(s: seq<T>, d: seq<T>)
    requires |s| > 0
    requires var p := s[..|s| - 1];
      && Distinct(d)
      && (forall i :: 0 <= i < |d| ==> d[i] in p)
      && (forall i :: 0 <= i < |p| ==> p[i] in d)
      && (forall i, j :: 0 <= i < j < |d| ==> FirstIndex(p, d[i]) < FirstIndex(p, d[j]))
    requires s[|s| - 1] !in d
    ensures var r := d + [s[|s| - 1]];
      && Distinct(r)
      && (forall i :: 0 <= i < |r| ==> r[i] in s)
      && (forall i :: 0 <= i < |s| ==> s[i] in r)
      && (forall i, j :: 0 <= i < j < |r| ==> FirstIndex(s, r[i]) < FirstIndex(s, r[j]))
  {
    var p := s[..|s| - 1];
    var x := s[|s| - 1];
    assert s == p + [x];
    forall i | 0 <= i < |d| ensures d[i] in s && FirstIndex(s, d[i]) == FirstIndex(p, d[i]) {
      FirstIndexInPrefix(s, |s| - 1, d[i]);
    }
    var r := d + [x];
    assert x !in p;
    assert FirstIndex(s, x) == |s| - 1;
    forall i, j | 0 <= i < j < |r| ensures FirstIndex(s, r[i]) < FirstIndex(s, r[j]) {
      if j == |d| {
        assert r[i] == d[i];
      } else {
        assert r[i] == d[i] && r[j] == d[j];
      }
    }
    forall i | 0 <= i < |s| ensures s[i] in r {
      if i < |p| {
        assert s[i] == p[i];
      }
    }
  }

}
