/** The emotion pie chart: the fetched distribution becomes three parallel
    projections (capitalised labels, percentages rounded to two decimals,
    colours), and the colours are drawn twice, as an 85% fill and an opaque
    border. Percentages are exact reals; the binary representation of
    JavaScript numbers is not modelled. */
module EmotionPie {
  import opened Common
  import Text
  import Colors

  // ---------------------------------------------------------------------------
  // capitalize

  /** `capitalize(s)`: `s.charAt(0).toUpperCase() + s.slice(1)`, with the
      ASCII case mapping. */
  function Capitalize(s: string): (r: string)
    ensures |r| == |s|
    ensures forall k :: 1 <= k < |s| ==> r[k] == s[k]
    ensures |s| > 0 ==> !('a' <= r[0] <= 'z') && Text.LowerChar(r[0]) == Text.LowerChar(s[0])
  {
    if |s| == 0 then "" else [Text.UpperChar(s[0])] + s[1..]
  }

  /** Capitalising twice is capitalising once. */
  lemma CapitalizeIdempotent(s: string)
    ensures Capitalize(Capitalize(s)) == Capitalize(s)
  {
  }

  /** A string that already starts with a non-lower-case letter is unchanged. */
  lemma CapitalizeFixes(s: string)
    requires |s| > 0 ==> !('a' <= s[0] <= 'z')
    ensures Capitalize(s) == s
  {
    if |s| > 0 {
      assert Capitalize(s) == [s[0]] + s[1..];
    }
  }

  // ---------------------------------------------------------------------------
  // Percentages: `Number(d.percentage?.toFixed?.(2) || 0)`

  /** A percentage field: a number, or anything without a `toFixed` method
      (missing, null, a string), which the chart shows as 0. */
  datatype Percentage = Number(x: real) | NotNumber

  function Abs(x: real): real {
    if x < 0.0 then -x else x
  }

  /** The integer nearest to `y`, halves rounded away from zero, as
      `toFixed` rounds the exact value. */
  function RoundHalfAway(y: real): (n: int)
    ensures Abs(n as real - y) <= 0.5
    ensures y >= 0.0 ==> n >= 0
    ensures y <= 0.0 ==> n <= 0
  {
    if y >= 0.0 then (y + 0.5).Floor else -((-y + 0.5).Floor)
  }

  /** No integer is nearer to `y` than `RoundHalfAway(y)`, and an integer
      exactly as near has no larger magnitude. */
  lemma RoundHalfAwayNearest(y: real, m: int)
    ensures Abs(RoundHalfAway(y) as real - y) <= Abs(m as real - y)
    ensures Abs(RoundHalfAway(y) as real - y) == Abs(m as real - y) ==>
      Abs(m as real) <= Abs(RoundHalfAway(y) as real)
  {
    var n := RoundHalfAway(y);
    if y >= 0.0 {
      assert n as real <= y + 0.5 < n as real + 1.0;
    } else {
      assert -(n as real) <= -y + 0.5 < -(n as real) + 1.0;
    }
    if m < n {
      assert m as real <= n as real - 1.0;
    } else if m > n {
      assert m as real >= n as real + 1.0;
    }
  }

  /** Rounding commutes with negation. */
  lemma RoundHalfAwayOdd(y: real)
    ensures RoundHalfAway(-y) == -RoundHalfAway(y)
  {
  }

  /** `Number(x.toFixed(2))`: the nearest multiple of 0.01. */
  function Fixed2(x: real): (r: real)
    ensures r * 100.0 == RoundHalfAway(x * 100.0) as real
  {
    RoundHalfAway(x * 100.0) as real / 100.0
  }

  /** An integer number of hundredths is kept as it is. */
  lemma Fixed2KeepsHundredths(n: int)
    ensures Fixed2(n as real / 100.0) == n as real / 100.0
  {
    assert (n as real / 100.0) * 100.0 == n as real;
    RoundsIntegers(n);
  }

  /** An integer rounds to itself. */
  lemma RoundsIntegers(n: int)
    ensures RoundHalfAway(n as real) == n
  {
    if n >= 0 {
      assert (n as real + 0.5).Floor == n;
    } else {
      assert (-n as real + 0.5).Floor == -n;
    }
  }

  /** The value shown for one slice. `toFixed` always yields a non-empty,
      hence truthy, string, so the `|| 0` only applies to non-numbers. */
  function SliceValue(p: Percentage): (v: real)
    ensures p.NotNumber? ==> v == 0.0
    ensures p.Number? ==> v * 100.0 == RoundHalfAway(p.x * 100.0) as real
  {
    match p
    case Number(x) => Fixed2(x)
    case NotNumber => 0.0
  }

  // ---------------------------------------------------------------------------
  // The chart

  /** One entry of the distribution: its label and its percentage. */
  datatype Slice = Slice(name: string, percentage: Percentage)

  const FillAlpha := "0.85"
  const BorderAlpha := "1"

  datatype PieChart = PieChart(
    labels: seq<string>,
    data: seq<real>,
    backgroundColor: seq<string>,
    borderColor: seq<string>)

  /** The three `useMemo` projections and the dataset built from them: every
      array has one element per slice, at the slice's own index. */
  function BuildPie(dist: seq<Slice>): (c: PieChart)
    ensures |c.labels| == |c.data| == |c.backgroundColor| == |c.borderColor| == |dist|
    ensures forall i :: 0 <= i < |dist| ==>
      && c.labels[i] == Capitalize(dist[i].name)
      && c.data[i] == SliceValue(dist[i].percentage)
      && c.backgroundColor[i] == Colors.ToRgba(Colors.GetColor(Colors.StrLabel(dist[i].name)), FillAlpha)
      && c.borderColor[i] == Colors.ToRgba(Colors.GetColor(Colors.StrLabel(dist[i].name)), BorderAlpha)
  {
    var colors := seq(|dist|, i requires 0 <= i < |dist| => Colors.GetColor(Colors.StrLabel(dist[i].name)));
    PieChart(
      seq(|dist|, i requires 0 <= i < |dist| => Capitalize(dist[i].name)),
      seq(|dist|, i requires 0 <= i < |dist| => SliceValue(dist[i].percentage)),
      seq(|colors|, i requires 0 <= i < |colors| => Colors.ToRgba(colors[i], FillAlpha)),
      seq(|colors|, i requires 0 <= i < |colors| => Colors.ToRgba(colors[i], BorderAlpha)))
  }

  /** Every slice is drawn as `rgba(r,g,b,alpha)` with components of at most
      255, the fill and the border sharing the same components. */
  lemma SliceColorsAreRgba(dist: seq<Slice>, i: int)
    requires 0 <= i < |dist|
    ensures var c := BuildPie(dist);
      var hex := Colors.GetColor(Colors.StrLabel(dist[i].name));
      Colors.IsHexColor(hex) &&
      var r := Colors.HexByte(hex[1], hex[2]);
      var g := Colors.HexByte(hex[3], hex[4]);
      var b := Colors.HexByte(hex[5], hex[6]);
      && r < 256 && g < 256 && b < 256
      && c.backgroundColor[i] == Colors.RgbaOf(Text.Decimal(r), Text.Decimal(g), Text.Decimal(b), FillAlpha)
      && c.borderColor[i] == Colors.RgbaOf(Text.Decimal(r), Text.Decimal(g), Text.Decimal(b), BorderAlpha)
  {
    var hex := Colors.GetColor(Colors.StrLabel(dist[i].name));
    Colors.ChartColorsAreHex(hex);
    Colors.HexToRgbaComponents(hex, FillAlpha);
    Colors.HexToRgbaComponents(hex, BorderAlpha);
  }

  // ---------------------------------------------------------------------------
  // Loading the distribution and choosing what to show

  /** The request for the distribution: thrown, answered with a non-OK
      status, or answered with a body whose `distribution` may be missing. */
  datatype DistributionFetch = FetchThrew | NotOk | Loaded(distribution: Option<seq<Slice>>)

  /** What the effect stores: the distribution, or `[]` on any failure. */
  function FetchedSlices(f: DistributionFetch): (data: seq<Slice>)
    ensures !f.Loaded? ==> data == []
    ensures f.Loaded? && f.distribution.Some? ==> data == f.distribution.value
    ensures f.Loaded? && f.distribution.None? ==> data == []
  {
    match f
    case Loaded(d) => d.GetOr([])
    case _ => []
  }

  datatype PieView = LoadingPie | NoData | ShowPie(chart: PieChart)

  /** The component's output: the loading text until the request settles,
      then the empty-month text for an empty list, and the chart otherwise. */
  function View(loading: bool, data: seq<Slice>): (v: PieView)
    ensures v.LoadingPie? <==> loading
    ensures v.NoData? <==> !loading && |data| == 0
    ensures v.ShowPie? ==> |v.chart.labels| == |data| > 0
  {
    if loading then LoadingPie
    else if |data| == 0 then NoData
    else ShowPie(BuildPie(data))
  }

  /** A failed request always ends in the empty-month text. */
  lemma FailedFetchShowsNoData(f: DistributionFetch)
    requires !f.Loaded?
    ensures View(false, FetchedSlices(f)) == NoData
  {
  }
}
