/** The mood-trends line chart: the fetched entries are sorted by date, each
    entry's predictions become a label-to-score table, the label list is every
    label seen (once each, in order of first appearance), and each label gets
    a dataset with one value per entry. Dates are carried both as the raw
    string shown on the axis and as the time value `new Date(date)` yields. */
module MoodTrends {
  import Sequences
  import Colors

  datatype Prediction = Prediction(name: string, score: real)

  datatype TrendEntry = TrendEntry(date: string, time: int, predictions: seq<Prediction>)

  /** The parsed response body: an array of entries, or anything else. */
  datatype Response = NotAnArray | TrendArray(entries: seq<TrendEntry>)

  function TimeKey(e: TrendEntry): real {
    e.time as real
  }

  /** `Array.isArray(result) ? [...result].sort((a, b) => new Date(a.date) - new Date(b.date)) : []`. */
  function SortedEntries(resp: Response): (r: seq<TrendEntry>)
    ensures resp.NotAnArray? ==> r == []
    ensures resp.TrendArray? ==>
      && Sequences.SortedBy(r, TimeKey)
      && multiset(r) == multiset(resp.entries)
  {
    match resp
    case NotAnArray => []
    case TrendArray(entries) => Sequences.SortBy(entries, TimeKey)
  }

  /** `Array.prototype.sort` is stable: entries with the same time keep
      their order in the response, which decides whose score is the last one
      a point keeps when several entries share a time. Stated for any
      ranking `tie` that increases along the response, such as the
      position. */
  lemma SortedEntriesStable(resp: Response, tie: TrendEntry -> int)
    requires resp.TrendArray? && Sequences.StrictlyIncreasing(resp.entries, tie)
    ensures Sequences.LexSorted(SortedEntries(resp), TimeKey, tie)
  {
    Sequences.SortByStable(resp.entries, TimeKey, tie);
  }

  /** `k` is the last prediction with its label. */
  predicate IsLastWithLabel(preds: seq<Prediction>, k: int)
    requires 0 <= k < |preds|
  {
    forall j :: k < j < |preds| ==> preds[j].name != preds[k].name
  }

  /** Every label of `preds`, and only those, is a key of `m`. */
  predicate SameLabels(preds: seq<Prediction>, m: map<string, real>) {
    && (forall k :: 0 <= k < |preds| ==> preds[k].name in m)
    && (forall l :: l in m ==> exists k :: 0 <= k < |preds| && preds[k].name == l)
  }

  /** Each label maps to the score of the last prediction carrying it. */
  predicate LastScoreWins(preds: seq<Prediction>, m: map<string, real>) {
    forall k :: 0 <= k < |preds| && IsLastWithLabel(preds, k) ==>
      preds[k].name in m && m[preds[k].name] == preds[k].score
  }

  /** `entry.predictions.forEach(p => { obj[p.label] = p.score })`: every
      label present maps to the score of its last prediction. */
  function ScoreMap(preds: seq<Prediction>): (m: map<string, real>)
    ensures SameLabels(preds, m)
    ensures LastScoreWins(preds, m)
    decreases |preds|
  {
    if |preds| == 0 then map[]
    else
      var m := ScoreMap(preds[..|preds| - 1]);
      ScoreMapStep(preds, m);
      m[preds[|preds| - 1].name := preds[|preds| - 1].score]
  }

  lemma ScoreMapStep(preds: seq<Prediction>, m: map<string, real>)
    requires |preds| > 0
    requires SameLabels(preds[..|preds| - 1], m) && LastScoreWins(preds[..|preds| - 1], m)
    ensures var x := preds[|preds| - 1];
      SameLabels(preds, m[x.name := x.score]) && LastScoreWins(preds, m[x.name := x.score])
  {
    SameLabelsStep(preds, m);
    LastScoreStep(preds, m);
  }

  lemma SameLabelsStep(preds: seq<Prediction>, m: map<string, real>)
    requires |preds| > 0
    requires SameLabels(preds[..|preds| - 1], m)
    ensures var x := preds[|preds| - 1]; SameLabels(preds, m[x.name := x.score])
  {
    var p := preds[..|preds| - 1];
    var x := preds[|preds| - 1];
    var m' := m[x.name := x.score];
    forall k | 0 <= k < |preds| ensures preds[k].name in m' {
      if k < |p| {
        assert preds[k] == p[k];
      }
    }
    forall l | l in m'
      ensures exists k :: 0 <= k < |preds| && preds[k].name == l
    {
      if l != x.name {
        var k :| 0 <= k < |p| && p[k].name == l;
        assert preds[k] == p[k];
      } else {
        assert preds[|preds| - 1].name == l;
      }
    }
  }

  lemma LastScoreStep(preds: seq<Prediction>, m: map<string, real>)
    requires |preds| > 0
    requires LastScoreWins(preds[..|preds| - 1], m)
    ensures var x := preds[|preds| - 1]; LastScoreWins(preds, m[x.name := x.score])
  {
    var p := preds[..|preds| - 1];
    var x := preds[|preds| - 1];
    var m' := m[x.name := x.score];
    forall k | 0 <= k < |preds| && IsLastWithLabel(preds, k)
      ensures preds[k].name in m' && m'[preds[k].name] == preds[k].score
    {
      if k < |p| {
        assert preds[k] == p[k];
        assert preds[k].name != x.name;
        assert forall j :: k < j < |p| ==> p[j] == preds[j];
        assert IsLastWithLabel(p, k);
      }
    }
  }

  /** One point of the chart: the entry's date and its label-to-score table. */
  datatype Point = Point(date: string, scores: map<string, real>)

  function Transform(entries: seq<TrendEntry>): (points: seq<Point>)
    ensures |points| == |entries|
    ensures forall k :: 0 <= k < |entries| ==>
      points[k].date == entries[k].date && points[k].scores == ScoreMap(entries[k].predictions)
  {
    seq(|entries|, k requires 0 <= k < |entries| => Point(entries[k].date, ScoreMap(entries[k].predictions)))
  }

  /** Every prediction label of every entry, entry by entry. */
  function LabelsOf(entries: seq<TrendEntry>): (r: seq<string>)
    ensures forall e, k :: 0 <= e < |entries| && 0 <= k < |entries[e].predictions| ==>
      entries[e].predictions[k].name in r
    ensures forall i :: 0 <= i < |r| ==> HasLabel(entries, r[i])
    decreases |entries|
  {
    if |entries| == 0 then []
    else
      var p := entries[..|entries| - 1];
      var last := entries[|entries| - 1];
      var own := seq(|last.predictions|, k requires 0 <= k < |last.predictions| => last.predictions[k].name);
      var r := LabelsOf(p) + own;
      LabelsStep(entries, LabelsOf(p), own);
      r
  }

  /** Some prediction of some entry carries `name`. */
  predicate HasLabel(entries: seq<TrendEntry>, name: string) {
    exists e, k :: 0 <= e < |entries| && 0 <= k < |entries[e].predictions| && entries[e].predictions[k].name == name
  }

  lemma LabelsStep(entries: seq<TrendEntry>, q: seq<string>, own: seq<string>)
    requires |entries| > 0
    requires var p := entries[..|entries| - 1];
      && (forall e, k :: 0 <= e < |p| && 0 <= k < |p[e].predictions| ==> p[e].predictions[k].name in q)
      && (forall i :: 0 <= i < |q| ==> HasLabel(p, q[i]))
    requires var last := entries[|entries| - 1];
      own == seq(|last.predictions|, k requires 0 <= k < |last.predictions| => last.predictions[k].name)
    ensures forall e, k :: 0 <= e < |entries| && 0 <= k < |entries[e].predictions| ==>
      entries[e].predictions[k].name in q + own
    ensures forall i :: 0 <= i < |q + own| ==> HasLabel(entries, (q + own)[i])
  {
    var p := entries[..|entries| - 1];
    var r := q + own;
    forall e, k | 0 <= e < |entries| && 0 <= k < |entries[e].predictions|
      ensures entries[e].predictions[k].name in r
    {
      if e < |p| {
        assert p[e] == entries[e];
        assert entries[e].predictions[k].name in q;
      } else {
        assert own[k] == entries[e].predictions[k].name;
      }
    }
    forall i | 0 <= i < |r|
      ensures HasLabel(entries, r[i])
    {
      if i < |q| {
        assert HasLabel(p, q[i]);
        var e, k :| 0 <= e < |p| && 0 <= k < |p[e].predictions| && p[e].predictions[k].name == q[i];
        assert entries[e] == p[e];
      } else {
        assert entries[|entries| - 1].predictions[i - |q|].name == r[i];
      }
    }
  }

  /** `entry.predictions[label] || 0`. */
  function Value(point: Point, name: string): real {
    if name in point.scores then point.scores[name] else 0.0
  }

  /** A data value as the chart receives it: a number, or a value that is
      not a number and that the chart cannot plot. */
  datatype PlotValue = Number(v: real) | NotANumber

  /** `entry.predictions[label] || 0` exactly as written. `predictions` is a
      plain object filled by `obj[p.label] = p.score`: assigning a number to
      `__proto__` is ignored and reading it gives `Object.prototype`, and a
      missing label naming another member of `Object.prototype` finds that
      member. Either is truthy, so it replaces the 0, and it is no number. */
  function ValueAsWritten(point: Point, name: string): (v: PlotValue)
    ensures name !in Colors.InheritedNames ==> v == Number(Value(point, name))
    ensures name in Colors.InheritedNames && name !in point.scores ==> v == NotANumber
    ensures name == "__proto__" ==> v == NotANumber
  {
    if name == "__proto__" then NotANumber
    else if name in point.scores then Number(point.scores[name])
    else if name in Colors.InheritedNames then NotANumber
    else Number(0.0)
  }

  /** The `data` of a label's dataset as written, one value per point. */
  function DataAsWritten(name: string, points: seq<Point>): (d: seq<PlotValue>)
    ensures |d| == |points|
    ensures name !in Colors.InheritedNames ==>
      forall k :: 0 <= k < |points| ==> d[k] == Number(MakeDataset(name, points).data[k])
    ensures name in Colors.InheritedNames ==>
      forall k :: 0 <= k < |points| && name !in points[k].scores ==> d[k] == NotANumber
  {
    seq(|points|, k requires 0 <= k < |points| => ValueAsWritten(points[k], name))
  }

  /** On a date without a `toString` prediction the `toString` value is the
      inherited `toString` function as written, where 0 is meant. The chart
      does render that label (`Colors.MixedCaseNamesRender`). */
  lemma ToStringLeavesGap()
    ensures var e1 := TrendEntry("2026-10-07", 0, [Prediction("toString", 0.4)]);
      var e2 := TrendEntry("2026-10-08", 86400000, [Prediction("joy", 0.9)]);
      var points := Transform([e1, e2]);
      && ValueAsWritten(points[0], "toString") == Number(0.4)
      && ValueAsWritten(points[1], "toString") == NotANumber
      && Value(points[0], "toString") == 0.4
      && Value(points[1], "toString") == 0.0
  {
    var points := ToStringPoints();
    assert "toString" in points[0].scores && "toString" !in points[1].scores;
  }

  /** The two points of the `toString` example. */
  lemma ToStringPoints() returns (points: seq<Point>)
    ensures var e1 := TrendEntry("2026-10-07", 0, [Prediction("toString", 0.4)]);
      var e2 := TrendEntry("2026-10-08", 86400000, [Prediction("joy", 0.9)]);
      points == Transform([e1, e2])
    ensures points == [Point("2026-10-07", map["toString" := 0.4]), Point("2026-10-08", map["joy" := 0.9])]
  {
    var e1 := TrendEntry("2026-10-07", 0, [Prediction("toString", 0.4)]);
    var e2 := TrendEntry("2026-10-08", 86400000, [Prediction("joy", 0.9)]);
    points := Transform([e1, e2]);
    assert points[0].scores == map["toString" := 0.4];
    assert points[1].scores == map["joy" := 0.9];
  }

  datatype Dataset = Dataset(name: string, borderColor: string, backgroundColor: string, data: seq<real>)

  /** The dataset memo for one label: its colour as an opaque line and a
      15% fill, and one value per point. */
  function MakeDataset(name: string, points: seq<Point>): (d: Dataset)
    ensures d.name == name && |d.data| == |points|
    ensures forall k :: 0 <= k < |points| ==> d.data[k] == Value(points[k], name)
  {
    var color := Colors.GetColor(Colors.StrLabel(name));
    Dataset(name, Colors.HexOrRgbaToRgba(color, "1"), Colors.HexOrRgbaToRgba(color, "0.15"),
            seq(|points|, k requires 0 <= k < |points| => Value(points[k], name)))
  }

  datatype Chart = Chart(labels: seq<string>, datasets: seq<Dataset>)

  /** The dataset labels of a chart, in order. */
  function DatasetNames(ds: seq<Dataset>): (names: seq<string>)
    ensures |names| == |ds|
  {
    seq(|ds|, i requires 0 <= i < |ds| => ds[i].name)
  }

  /** The whole chart built from one response: the axis carries the sorted
      dates; there is one dataset per label, each with one value per date. */
  function BuildChart(resp: Response): (c: Chart)
    ensures var sorted := SortedEntries(resp);
      && |c.labels| == |sorted|
      && (forall k :: 0 <= k < |sorted| ==> c.labels[k] == sorted[k].date)
      && DatasetNames(c.datasets) == Sequences.Dedup(LabelsOf(sorted))
      && (forall i :: 0 <= i < |c.datasets| ==> |c.datasets[i].data| == |sorted|)
  {
    var sorted := SortedEntries(resp);
    Chart(seq(|sorted|, k requires 0 <= k < |sorted| => sorted[k].date),
          Datasets(Sequences.Dedup(LabelsOf(sorted)), Transform(sorted)))
  }

  /** One dataset per label, in the order of the labels. */
  function Datasets(labels: seq<string>, points: seq<Point>): (ds: seq<Dataset>)
    ensures DatasetNames(ds) == labels
    ensures forall i :: 0 <= i < |ds| ==> ds[i] == MakeDataset(labels[i], points)
  {
    var ds := seq(|labels|, i requires 0 <= i < |labels| => MakeDataset(labels[i], points));
    assert DatasetNames(ds) == labels;
    ds
  }

  /** Each label of the response has exactly one dataset, and every dataset
      belongs to a label of the response. */
  lemma DatasetPerLabel(resp: Response)
    ensures var names := DatasetNames(BuildChart(resp).datasets);
      var sorted := SortedEntries(resp);
      && Sequences.Distinct(names)
      && (forall e, k :: 0 <= e < |sorted| && 0 <= k < |sorted[e].predictions| ==>
            sorted[e].predictions[k].name in names)
      && (forall i :: 0 <= i < |names| ==> HasLabel(sorted, names[i]))
  {
    var sorted := SortedEntries(resp);
    DedupOfLabels(sorted, DatasetNames(BuildChart(resp).datasets));
  }

  /** Each label once: the labels of `entries` without repeats. */
  lemma DedupOfLabels(entries: seq<TrendEntry>, names: seq<string>)
    requires names == Sequences.Dedup(LabelsOf(entries))
    ensures Sequences.Distinct(names)
    ensures forall e, k :: 0 <= e < |entries| && 0 <= k < |entries[e].predictions| ==>
      entries[e].predictions[k].name in names
    ensures forall i :: 0 <= i < |names| ==> HasLabel(entries, names[i])
  {
    var all := LabelsOf(entries);
    forall e, k | 0 <= e < |entries| && 0 <= k < |entries[e].predictions|
      ensures entries[e].predictions[k].name in names
    {
      var x := entries[e].predictions[k].name;
      assert x in all;
      var j :| 0 <= j < |all| && all[j] == x;
      assert all[j] in names;
    }
    forall i | 0 <= i < |names| ensures HasLabel(entries, names[i]) {
      assert names[i] in all;
      var j :| 0 <= j < |all| && all[j] == names[i];
      assert HasLabel(entries, all[j]);
    }
  }


  /** Each dataset value is the score of the last prediction with that label
      in that entry, or 0 when the entry has no such prediction. */
  lemma DatasetValues(name: string, entries: seq<TrendEntry>, k: int)
    requires 0 <= k < |entries|
    ensures var v := MakeDataset(name, Transform(entries)).data[k];
      var preds := entries[k].predictions;
      && ((forall j :: 0 <= j < |preds| ==> preds[j].name != name) ==> v == 0.0)
      && (forall j :: 0 <= j < |preds| && preds[j].name == name && IsLastWithLabel(preds, j) ==> v == preds[j].score)
  {
    var preds := entries[k].predictions;
    var m := ScoreMap(preds);
    if name in m {
      var j :| 0 <= j < |preds| && preds[j].name == name;
    }
  }
}
