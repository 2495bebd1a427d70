/** The training script's analysis helpers. `analyze_emotion` stores each
    class scoring above 0.3 in a dictionary keyed by its label, then
    rebuilds the dictionary from its items sorted by descending score;
    `analyze_journal_entries` turns each entry into a record holding its
    date and those scores. A dictionary is a sequence of key/value pairs in
    insertion order, as Python keeps it. */
module Analyze {
  import opened Common
  import Sequences
  import TextCleaning
  import Predict

  type Dict<V> = seq<(string, V)>

  /** Some pair of `d` has key `k`. */
  predicate HasKey<V>(d: Dict<V>, k: string) {
    exists j :: 0 <= j < |d| && d[j].0 == k
  }

  /** `d.get(k)`: the value of the first pair with key `k`. */
  function Get<V>(d: Dict<V>, k: string): (r: Option<V>)
    ensures r.Some? <==> HasKey(d, k)
    ensures r.Some? ==> (k, r.value) in d
    decreases |d|
  {
    if |d| == 0 then None
    else if d[0].0 == k then Some(d[0].1)
    else
      var r := Get(d[1..], k);
      assert forall j :: 1 <= j < |d| ==> d[j] == d[1..][j - 1];
      r
  }

  /** No key occurs twice. */
  predicate UniqueKeys<V>(d: Dict<V>) {
    forall a, b :: 0 <= a < b < |d| ==> d[a].0 != d[b].0
  }

  /** `d[k] = v`: a key already present keeps its place and takes the new
      value; a new key goes last. */
  function Put<V>(d: Dict<V>, k: string, v: V): (r: Dict<V>)
    ensures Get(r, k) == Some(v)
    ensures forall x :: x != k ==> Get(r, x) == Get(d, x)
    decreases |d|
  {
    if |d| == 0 then [(k, v)]
    else if d[0].0 == k then [(k, v)] + d[1..]
    else [d[0]] + Put(d[1..], k, v)
  }

  /** Every key keeps its position, and the length grows only for a new
      key. */
  lemma {:induction false} PutKeepsPositions<V>(d: Dict<V>, k: string, v: V)
    ensures |Put(d, k, v)| == if HasKey(d, k) then |d| else |d| + 1
    ensures forall j :: 0 <= j < |d| ==> Put(d, k, v)[j].0 == d[j].0
    decreases |d|
  {
    if |d| > 0 && d[0].0 != k {
      PutKeepsPositions(d[1..], k, v);
      HasKeyTail(d, k);
    }
  }

  /** A new key is appended after the existing pairs. */
  lemma {:induction false} PutAppendsNew<V>(d: Dict<V>, k: string, v: V)
    requires !HasKey(d, k)
    ensures Put(d, k, v) == d + [(k, v)]
    decreases |d|
  {
    if |d| > 0 {
      var t := d[1..];
      assert d[0].0 != k;
      HasKeyTail(d, k);
      PutAppendsNew(t, k, v);
      assert Put(d, k, v) == [d[0]] + Put(t, k, v);
      assert [d[0]] + (t + [(k, v)]) == d + [(k, v)];
    }
  }

  lemma HasKeyTail<V>(d: Dict<V>, k: string)
    requires |d| > 0 && d[0].0 != k
    ensures HasKey(d, k) <==> HasKey(d[1..], k)
  {
    if HasKey(d, k) {
      var j :| 0 <= j < |d| && d[j].0 == k;
      assert d[1..][j - 1].0 == k;
    }
    if HasKey(d[1..], k) {
      var j :| 0 <= j < |d[1..]| && d[1..][j].0 == k;
      assert d[j + 1].0 == k;
    }
  }

  lemma PutKeepsUnique<V>(d: Dict<V>, k: string, v: V)
    requires UniqueKeys(d)
    ensures UniqueKeys(Put(d, k, v))
  {
    var r := Put(d, k, v);
    PutKeepsPositions(d, k, v);
    if !HasKey(d, k) {
      PutAppendsNew(d, k, v);
      forall a, b | 0 <= a < b < |r| ensures r[a].0 != r[b].0 {
        if b == |d| {
          assert r[a].0 == d[a].0;
        }
      }
    }
  }

  // ---------------------------------------------------------------------------
  // analyze_emotion

  /** The loop over the first `n` classes: each class above 0.3 is stored
      under its label. A class beyond the label list raises (`None`). */
  function Collect(labels: seq<string>, probs: seq<real>, n: nat): (r: Option<Dict<real>>)
    requires n <= |probs|
    ensures r.None? <==> exists i :: 0 <= i < n && probs[i] > Predict.Threshold && i >= |labels|
    decreases n
  {
    if n == 0 then Some([])
    else
      match Collect(labels, probs, n - 1)
      case None => None
      case Some(d) =>
        if probs[n - 1] > Predict.Threshold then
          if n - 1 < |labels| then
            Some(Put(d, labels[n - 1], probs[n - 1]))
          else None
        else Some(d)
  }

  /** A class above 0.3 among the first `n` with label `x`. */
  predicate Passes(labels: seq<string>, probs: seq<real>, n: nat, x: string, i: nat)
    requires n <= |probs|
  {
    i < n && i < |labels| && probs[i] > Predict.Threshold && labels[i] == x
  }

  /** One more class either stores its score under its label or changes
      nothing. */
  lemma CollectStep(labels: seq<string>, probs: seq<real>, n: nat, x: string)
    requires 0 < n <= |probs| && Collect(labels, probs, n).Some?
    ensures Collect(labels, probs, n - 1).Some?
    ensures var g := Get(Collect(labels, probs, n).value, x);
      var g0 := Get(Collect(labels, probs, n - 1).value, x);
      if Passes(labels, probs, n, x, n - 1) then g == Some(probs[n - 1]) else g == g0
  {
  }

  /** No label is stored twice. */
  lemma {:induction false} CollectUnique(labels: seq<string>, probs: seq<real>, n: nat)
    requires n <= |probs| && Collect(labels, probs, n).Some?
    ensures UniqueKeys(Collect(labels, probs, n).value)
    decreases n
  {
    if n > 0 {
      CollectUnfold(labels, probs, n);
      CollectUnique(labels, probs, n - 1);
      if probs[n - 1] > Predict.Threshold {
        PutKeepsUnique(Collect(labels, probs, n - 1).value, labels[n - 1], probs[n - 1]);
      }
    }
  }

  /** One step of the loop, when it does not raise. */
  lemma CollectUnfold(labels: seq<string>, probs: seq<real>, n: nat)
    requires 0 < n <= |probs| && Collect(labels, probs, n).Some?
    ensures Collect(labels, probs, n - 1).Some?
    ensures probs[n - 1] > Predict.Threshold ==> n - 1 < |labels|
    ensures Collect(labels, probs, n).value ==
      if probs[n - 1] > Predict.Threshold && n - 1 < |labels|
      then Put(Collect(labels, probs, n - 1).value, labels[n - 1], probs[n - 1])
      else Collect(labels, probs, n - 1).value
  {
  }

  /** The dictionary holds a label exactly when some class with that label
      scored above 0.3. */
  lemma {:induction false} CollectHoldsLabel(labels: seq<string>, probs: seq<real>, n: nat, x: string)
    requires n <= |probs| && Collect(labels, probs, n).Some?
    ensures Get(Collect(labels, probs, n).value, x).Some? <==> exists i: nat :: Passes(labels, probs, n, x, i)
    decreases n
  {
    if n > 0 {
      var m := n - 1;
      CollectStep(labels, probs, n, x);
      if Passes(labels, probs, n, x, m) {
        assert Get(Collect(labels, probs, n).value, x).Some?;
      } else {
        CollectHoldsLabel(labels, probs, m, x);
        PassesWithoutLast(labels, probs, n, m, x);
      }
    }
  }

  /** A class above 0.3 with label `x` that no later such class among the
      first `n` shares its label with. */
  predicate LastWithLabel(labels: seq<string>, probs: seq<real>, n: nat, x: string, i: nat)
    requires n <= |probs|
  {
    Passes(labels, probs, n, x, i) && forall j: nat :: i < j < n ==> !Passes(labels, probs, n, x, j)
  }

  /** When class `n - 1` does not pass with label `x`, the classes that do
      are the same among the first `n` as among the first `n - 1`. */
  lemma PassesWithoutLast(labels: seq<string>, probs: seq<real>, n: nat, m: nat, x: string)
    requires n == m + 1 <= |probs| && !Passes(labels, probs, n, x, m)
    ensures forall i: nat :: Passes(labels, probs, n, x, i) <==> Passes(labels, probs, m, x, i)
    ensures (exists i: nat :: Passes(labels, probs, n, x, i)) <==> (exists i: nat :: Passes(labels, probs, m, x, i))
  {
  }

  lemma LastWithoutLast(labels: seq<string>, probs: seq<real>, n: nat, x: string, i: nat)
    requires 0 < n <= |probs| && !Passes(labels, probs, n, x, n - 1)
    requires LastWithLabel(labels, probs, n - 1, x, i)
    ensures LastWithLabel(labels, probs, n, x, i)
  {
    PassesWithoutLast(labels, probs, n, n - 1, x);
  }

  /** A label's value is the score of the last class with that label: later
      classes overwrite earlier ones. */
  lemma {:induction false} CollectLastWins(labels: seq<string>, probs: seq<real>, n: nat, x: string)
    requires n <= |probs| && Collect(labels, probs, n).Some?
    requires Get(Collect(labels, probs, n).value, x).Some?
    ensures exists i: nat :: LastWithLabel(labels, probs, n, x, i) && Get(Collect(labels, probs, n).value, x).value == probs[i]
    decreases n
  {
    var m := n - 1;
    CollectStep(labels, probs, n, x);
    if Passes(labels, probs, n, x, m) {
      assert LastWithLabel(labels, probs, n, x, m);
    } else {
      CollectLastWins(labels, probs, m, x);
      var i: nat :| LastWithLabel(labels, probs, m, x, i) && Get(Collect(labels, probs, m).value, x).value == probs[i];
      LastWithoutLast(labels, probs, n, x, i);
    }
  }

  /** With unique keys no pair occurs twice. */
  lemma {:induction false} UniqueKeysCounts<V>(d: Dict<V>, x: (string, V))
    requires UniqueKeys(d)
    ensures multiset(d)[x] <= 1
    decreases |d|
  {
    if |d| > 0 {
      var rest := d[1..];
      assert d == [d[0]] + rest;
      assert UniqueKeys(rest) by {
        assert forall j :: 0 <= j < |rest| ==> rest[j] == d[j + 1];
      }
      UniqueKeysCounts(rest, x);
      if x == d[0] {
        assert forall j :: 0 <= j < |rest| ==> rest[j] != x by {
          assert forall j :: 0 <= j < |rest| ==> rest[j].0 == d[j + 1].0 != d[0].0;
        }
        assert x !in rest;
      }
    }
  }

  /** Reordering a dictionary with unique keys keeps them unique. */
  lemma UniqueKeysPermutation<V>(d: Dict<V>, r: Dict<V>)
    requires UniqueKeys(d) && multiset(r) == multiset(d)
    ensures UniqueKeys(r)
  {
    forall x: (string, V) ensures multiset(r)[x] <= 1 {
      UniqueKeysCounts(d, x);
    }
    Sequences.DistinctFromCounts(r);
    forall a, b | 0 <= a < b < |r| ensures r[a].0 != r[b].0 {
      assert r[a] in multiset(d) && r[b] in multiset(d);
      var i :| 0 <= i < |d| && d[i] == r[a];
      var j :| 0 <= j < |d| && d[j] == r[b];
      assert i != j;
    }
  }

  function NegScore(e: (string, real)): real {
    -e.1
  }

  /** `analyze_emotion` after the classifier: the collected dictionary
      rebuilt from its items sorted by descending score. */
  function SortedScores(labels: seq<string>, probs: seq<real>): (r: Option<Dict<real>>)
    ensures r.None? <==> Collect(labels, probs, |probs|).None?
    ensures r.Some? ==> multiset(r.value) == multiset(Collect(labels, probs, |probs|).value)
    ensures r.Some? ==> forall a, b :: 0 <= a < b < |r.value| ==> r.value[a].1 >= r.value[b].1
  {
    match Collect(labels, probs, |probs|)
    case None => None
    case Some(d) =>
      var items := Sequences.SortBy(d, NegScore);
      CollectUnique(labels, probs, |probs|);
      UniqueKeysPermutation(d, items);
      Some(Rebuild(items))
  }

  /** `{k: v for k, v in items}`. */
  function Rebuild(items: Dict<real>): (r: Dict<real>)
    ensures UniqueKeys(items) ==> r == items
    decreases |items|
  {
    if |items| == 0 then []
    else
      var n := |items| - 1;
      var d := Rebuild(items[..n]);
      UniqueLast(items);
      if UniqueKeys(items) then
        PutAppendsNew(d, items[n].0, items[n].1);
        Put(d, items[n].0, items[n].1)
      else
        Put(d, items[n].0, items[n].1)
  }

  /** Without its last pair a dictionary with unique keys keeps them unique
      and lacks the last key. */
  lemma UniqueLast<V>(items: Dict<V>)
    requires |items| > 0
    ensures var n := |items| - 1;
      items[..n] + [items[n]] == items
      && (UniqueKeys(items) ==> UniqueKeys(items[..n]) && !HasKey(items[..n], items[n].0))
  {
    var n := |items| - 1;
    assert items[..n] + [items[n]] == items;
  }

  /** With unique keys, a pair of the dictionary is what looking its key up
      finds. */
  lemma GetFindsPair<V>(d: Dict<V>, k: string, v: V)
    requires UniqueKeys(d) && (k, v) in d
    ensures Get(d, k) == Some(v)
  {
    var j :| 0 <= j < |d| && d[j] == (k, v);
    assert HasKey(d, k);
    var i :| 0 <= i < |d| && d[i] == (k, Get(d, k).value);
    assert i == j;
  }

  /** Reordering a dictionary with unique keys changes no lookup. */
  lemma PermutationSameLookup<V>(d: Dict<V>, r: Dict<V>, x: string)
    requires UniqueKeys(d) && multiset(r) == multiset(d)
    ensures Get(r, x) == Get(d, x)
  {
    UniqueKeysPermutation(d, r);
    if Get(d, x).Some? {
      var v := Get(d, x).value;
      assert (x, v) in multiset(r);
      GetFindsPair(r, x, v);
    }
    if Get(r, x).Some? {
      var v := Get(r, x).value;
      assert (x, v) in multiset(d);
      GetFindsPair(d, x, v);
    }
  }

  /** `analyze_emotion` keeps exactly the labels of the classes scoring
      above 0.3, each with the score of the last such class carrying it. */
  lemma SortedScoresKeepPassing(labels: seq<string>, probs: seq<real>, x: string)
    requires SortedScores(labels, probs).Some?
    ensures Get(SortedScores(labels, probs).value, x).Some? <==> exists i: nat :: Passes(labels, probs, |probs|, x, i)
    ensures Get(SortedScores(labels, probs).value, x).Some? ==>
      exists i: nat :: LastWithLabel(labels, probs, |probs|, x, i) && Get(SortedScores(labels, probs).value, x).value == probs[i]
  {
    var d := Collect(labels, probs, |probs|).value;
    CollectUnique(labels, probs, |probs|);
    PermutationSameLookup(d, SortedScores(labels, probs).value, x);
    CollectHoldsLabel(labels, probs, |probs|, x);
    if Get(d, x).Some? {
      CollectLastWins(labels, probs, |probs|, x);
    }
  }

  // ---------------------------------------------------------------------------
  // Ties

  /** The position of the first `x` in `labels`, or `|labels|` when there
      is none. */
  function LabelIndex(labels: seq<string>, x: string): (i: nat)
    ensures i <= |labels|
    ensures i < |labels| ==> labels[i] == x
    ensures i == |labels| ==> x !in labels
    decreases |labels|
  {
    if |labels| == 0 then 0
    else if labels[0] == x then 0
    else 1 + LabelIndex(labels[1..], x)
  }

  /** With distinct labels, label `m` is found at position `m`. */
  lemma {:induction false} LabelIndexDistinct(labels: seq<string>, m: nat)
    requires Sequences.Distinct(labels) && m < |labels|
    ensures LabelIndex(labels, labels[m]) == m
    decreases m
  {
    if m > 0 {
      var rest := labels[1..];
      assert labels[0] != labels[m];
      assert Sequences.Distinct(rest) by {
        assert forall i :: 0 <= i < |rest| ==> rest[i] == labels[i + 1];
      }
      assert rest[m - 1] == labels[m];
      LabelIndexDistinct(rest, m - 1);
    }
  }

  /** A pair's place in the label list. */
  function Rank(labels: seq<string>): ((string, real)) -> int {
    (e: (string, real)) => LabelIndex(labels, e.0) as int
  }

  /** The keys of `d` are among the first `n` labels, in label order. */
  predicate LabelOrdered(labels: seq<string>, d: Dict<real>, n: nat) {
    && Sequences.StrictlyIncreasing(d, Rank(labels))
    && forall j :: 0 <= j < |d| ==> LabelIndex(labels, d[j].0) < n && LabelIndex(labels, d[j].0) < |labels|
  }

  lemma LabelOrderedWiden(labels: seq<string>, d: Dict<real>, m: nat, n: nat)
    requires m <= n && LabelOrdered(labels, d, m)
    ensures LabelOrdered(labels, d, n)
  {
  }

  /** Appending label `m` to a dictionary ordered below `m` keeps it
      ordered. */
  lemma AppendInLabelOrder(labels: seq<string>, d: Dict<real>, e: (string, real), m: nat, n: nat)
    requires LabelOrdered(labels, d, m) && LabelIndex(labels, e.0) == m < |labels| && n == m + 1
    ensures LabelOrdered(labels, d + [e], n)
  {
    var r := d + [e];
    forall i, j | 0 <= i < j < |r| ensures Rank(labels)(r[i]) < Rank(labels)(r[j]) {
      assert r[i] == d[i];
      if j < |d| {
        assert r[j] == d[j];
      }
    }
    forall j | 0 <= j < |r| ensures LabelIndex(labels, r[j].0) < n && LabelIndex(labels, r[j].0) < |labels| {
      if j < |d| {
        assert r[j] == d[j];
      }
    }
  }

  /** The passing classes among the first `n` as (label, score) pairs, in
      class order. */
  function Pairs(labels: seq<string>, probs: seq<real>, n: nat): Dict<real>
    requires n <= |probs|
    decreases n
  {
    if n == 0 then []
    else if probs[n - 1] > Predict.Threshold && n - 1 < |labels| then
      Pairs(labels, probs, n - 1) + [(labels[n - 1], probs[n - 1])]
    else Pairs(labels, probs, n - 1)
  }

  /** With distinct labels the pairs are in label order. */
  lemma {:induction false} PairsInLabelOrder(labels: seq<string>, probs: seq<real>, n: nat)
    requires n <= |probs| && Sequences.Distinct(labels)
    ensures LabelOrdered(labels, Pairs(labels, probs, n), n)
    decreases n
  {
    if n > 0 {
      var m := n - 1;
      PairsInLabelOrder(labels, probs, m);
      if probs[m] > Predict.Threshold && m < |labels| {
        LabelIndexDistinct(labels, m);
        AppendInLabelOrder(labels, Pairs(labels, probs, m), (labels[m], probs[m]), m, n);
      } else {
        LabelOrderedWiden(labels, Pairs(labels, probs, m), m, n);
      }
    }
  }

  /** Label `m` is not yet a key of a dictionary ordered below `m`. */
  lemma NewLabelAbsent(labels: seq<string>, d: Dict<real>, m: nat)
    requires Sequences.Distinct(labels) && m < |labels| && LabelOrdered(labels, d, m)
    ensures !HasKey(d, labels[m])
  {
    LabelIndexDistinct(labels, m);
    forall j | 0 <= j < |d| ensures d[j].0 != labels[m] {
    }
  }

  /** With distinct labels no key is ever overwritten: the loop's
      dictionary is exactly the passing classes' pairs in class order. */
  lemma {:induction false} CollectIsPairs(labels: seq<string>, probs: seq<real>, n: nat)
    requires n <= |probs| && Sequences.Distinct(labels) && Collect(labels, probs, n).Some?
    ensures Collect(labels, probs, n).value == Pairs(labels, probs, n)
    decreases n
  {
    if n > 0 {
      var m := n - 1;
      CollectUnfold(labels, probs, n);
      CollectIsPairs(labels, probs, m);
      if probs[m] > Predict.Threshold {
        PutPassing(labels, probs, m, n);
      } else {
        PairsSkip(labels, probs, n);
      }
    }
  }

  /** A class that does not pass adds no pair. */
  lemma PairsSkip(labels: seq<string>, probs: seq<real>, n: nat)
    requires 0 < n <= |probs| && !(probs[n - 1] > Predict.Threshold)
    ensures Pairs(labels, probs, n) == Pairs(labels, probs, n - 1)
  {
  }
  /** Storing the next passing class extends the reference pairs by it. */
  lemma PutPassing(labels: seq<string>, probs: seq<real>, m: nat, n: nat)
    requires n == m + 1 && n <= |probs| && m < |labels| && Sequences.Distinct(labels)
    requires probs[m] > Predict.Threshold
    ensures Put(Pairs(labels, probs, m), labels[m], probs[m]) == Pairs(labels, probs, n)
  {
    var p := Pairs(labels, probs, m);
    assert Pairs(labels, probs, n) == p + [(labels[m], probs[m])];
    PairsInLabelOrder(labels, probs, m);
    NewLabelAbsent(labels, p, m);
    PutAppendsNew(p, labels[m], probs[m]);
  }


  /** Python's sort is stable and the rebuilt dictionary keeps the sorted
      order, so with distinct labels classes of equal score appear in label
      order. */
  lemma TiesInLabelOrder(labels: seq<string>, probs: seq<real>)
    requires Sequences.Distinct(labels) && SortedScores(labels, probs).Some?
    ensures var r := SortedScores(labels, probs).value;
      forall a, b :: 0 <= a < b < |r| && r[a].1 == r[b].1 ==>
        LabelIndex(labels, r[a].0) < LabelIndex(labels, r[b].0) < |labels|
  {
    var d := Collect(labels, probs, |probs|).value;
    CollectUnique(labels, probs, |probs|);
    CollectIsPairs(labels, probs, |probs|);
    PairsInLabelOrder(labels, probs, |probs|);
    var items := Sequences.SortBy(d, NegScore);
    UniqueKeysPermutation(d, items);
    var r := SortedScores(labels, probs).value;
    assert r == items;
    SortKeepsLabelOrderOnTies(labels, d, |probs|, r);
  }

  /** Sorting a dictionary held in class order by descending score leaves
      equal scores in class order. */
  lemma SortKeepsLabelOrderOnTies(labels: seq<string>, d: Dict<real>, n: nat, r: Dict<real>)
    requires LabelOrdered(labels, d, n) && r == Sequences.SortBy(d, NegScore)
    ensures forall a, b :: 0 <= a < b < |r| && r[a].1 == r[b].1 ==>
        LabelIndex(labels, r[a].0) < LabelIndex(labels, r[b].0) < |labels|
  {
    Sequences.SortByStable(d, NegScore, Rank(labels));
    forall a, b | 0 <= a < b < |r| && r[a].1 == r[b].1
      ensures LabelIndex(labels, r[a].0) < LabelIndex(labels, r[b].0) < |labels|
    {
      assert r[a] in multiset(d) && r[b] in multiset(d);
      assert Sequences.LexBefore(r[a], r[b], NegScore, Rank(labels));
    }
  }

  // ---------------------------------------------------------------------------
  // analyze_journal_entries

  /** A record's value: the entry's date or an emotion's score. */
  datatype Cell = DateCell(date: string) | ScoreCell(score: real)

  const DateKey := "date"

  /** The loop `record[emotion] = score` over `emotions` in order. */
  function Fill(record: Dict<Cell>, emotions: Dict<real>): (r: Dict<Cell>)
    decreases |emotions|
  {
    if |emotions| == 0 then record
    else Fill(Put(record, emotions[0].0, ScoreCell(emotions[0].1)), emotions[1..])
  }

  /** Filling stores every emotion's score and leaves every other key as it
      was. */
  lemma {:induction false} FillLookup(record: Dict<Cell>, emotions: Dict<real>, x: string)
    requires UniqueKeys(emotions)
    ensures Get(Fill(record, emotions), x) ==
      if HasKey(emotions, x) then Some(ScoreCell(Get(emotions, x).value)) else Get(record, x)
    decreases |emotions|
  {
    if |emotions| > 0 {
      var k := emotions[0].0;
      var rest := emotions[1..];
      assert UniqueKeys(rest) by {
        assert forall j :: 0 <= j < |rest| ==> rest[j] == emotions[j + 1];
      }
      FillLookup(Put(record, k, ScoreCell(emotions[0].1)), rest, x);
      if x == k {
        assert !HasKey(rest, k) by {
          assert forall j :: 0 <= j < |rest| ==> rest[j].0 == emotions[j + 1].0 != k;
        }
        assert HasKey(emotions, x) by { assert emotions[0].0 == x; }
      } else {
        HasKeyTail(emotions, x);
      }
    }
  }

  /** `record = {'date': date}` followed by the loop. */
  function Record(date: string, emotions: Dict<real>): (r: Dict<Cell>) {
    Fill([(DateKey, DateCell(date))], emotions)
  }

  /** A record holds the entry's date under "date" unless an emotion is
      itself labelled "date", and each emotion's score under its label;
      nothing else. */
  lemma RecordLookup(date: string, emotions: Dict<real>, x: string)
    requires UniqueKeys(emotions)
    ensures Get(Record(date, emotions), x) ==
      if HasKey(emotions, x) then Some(ScoreCell(Get(emotions, x).value))
      else if x == DateKey then Some(DateCell(date))
      else None
  {
    FillLookup([(DateKey, DateCell(date))], emotions, x);
    assert Get([(DateKey, DateCell(date))], DateKey) == Some(DateCell(date));
  }

  /** An emotion labelled "date" replaces the entry's date in its record. */
  lemma DateLabelHidesDate()
    ensures Get(Record("2024-01-01", [(DateKey, 0.9)]), DateKey) == Some(ScoreCell(0.9))
  {
    RecordLookup("2024-01-01", [(DateKey, 0.9)], DateKey);
    assert HasKey([(DateKey, 0.9)], DateKey) by {
      assert [(DateKey, 0.9)][0].0 == DateKey;
    }
  }

  /** `analyze_emotion(text, ...)` with its classifier: the cleaned text is
      classified and the scores above 0.3 kept, sorted. */
  function AnalyzeEmotion(text: string, svc: Predict.KerasService): (r: Option<Dict<real>>)
    ensures r.Some? ==> forall a, b :: 0 <= a < b < |r.value| ==> r.value[a].1 >= r.value[b].1
    ensures r.Some? ==> UniqueKeys(r.value)
  {
    var probs := svc.classify(TextCleaning.Preprocess(svc.db, svc.stop, svc.lemmatize, text));
    var d := Collect(svc.labels, probs, |probs|);
    if d.Some? then
      CollectUnique(svc.labels, probs, |probs|);
      UniqueKeysPermutation(d.value, SortedScores(svc.labels, probs).value);
      SortedScores(svc.labels, probs)
    else SortedScores(svc.labels, probs)
  }

  /** `analyze_emotion` as the entry loop calls it, with its classifier. */
  function Analyzer(svc: Predict.KerasService): string -> Option<Dict<real>> {
    (text: string) => AnalyzeEmotion(text, svc)
  }

  /** An entry: a dictionary that should hold "date" and "text". */
  type Entry = map<string, string>

  const TextKey := "text"

  /** One entry's record; a missing key, or an analysis that raises, raises. */
  function EntryRecord(entry: Entry, analyze: string -> Option<Dict<real>>): (r: Option<Dict<Cell>>)
    ensures r.None? <==> DateKey !in entry || TextKey !in entry || analyze(entry[TextKey]).None?
  {
    if DateKey !in entry || TextKey !in entry then None
    else
      match analyze(entry[TextKey])
      case None => None
      case Some(emotions) => Some(Record(entry[DateKey], emotions))
  }

  /** `analyze_journal_entries`: the records of the entries in order; any
      entry that raises ends the call. */
  function AnalyzeEntries(entries: seq<Entry>, analyze: string -> Option<Dict<real>>): (r: Option<seq<Dict<Cell>>>)
    ensures r.None? <==> exists i :: 0 <= i < |entries| && EntryRecord(entries[i], analyze).None?
    ensures r.Some? ==>
      && |r.value| == |entries|
      && forall i :: 0 <= i < |entries| ==> EntryRecord(entries[i], analyze) == Some(r.value[i])
    decreases |entries|
  {
    if |entries| == 0 then Some([])
    else
      var n := |entries| - 1;
      assert forall i :: 0 <= i < n ==> entries[..n][i] == entries[i];
      match AnalyzeEntries(entries[..n], analyze)
      case None => None
      case Some(rs) =>
        match EntryRecord(entries[n], analyze)
        case None => None
        case Some(rec) => Some(rs + [rec])
  }

  /** Each record carries its own entry's date, in input order, unless the
      classifier's labels include "date". */
  lemma RecordsCarryDates(entries: seq<Entry>, svc: Predict.KerasService, i: nat)
    requires AnalyzeEntries(entries, Analyzer(svc)).Some? && i < |entries|
    requires DateKey !in svc.labels
    ensures DateKey in entries[i]
    ensures Get(AnalyzeEntries(entries, Analyzer(svc)).value[i], DateKey) == Some(DateCell(entries[i][DateKey]))
  {
    var text := entries[i][TextKey];
    var probs := svc.classify(TextCleaning.Preprocess(svc.db, svc.stop, svc.lemmatize, text));
    var emotions := AnalyzeEmotion(text, svc).value;
    var d := Collect(svc.labels, probs, |probs|).value;
    CollectUnique(svc.labels, probs, |probs|);
    PermutationSameLookup(d, emotions, DateKey);
    CollectHoldsLabel(svc.labels, probs, |probs|, DateKey);
    UniqueKeysPermutation(d, emotions);
    RecordLookup(entries[i][DateKey], emotions, DateKey);
  }
}
